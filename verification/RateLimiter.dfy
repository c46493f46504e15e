/**
 * The software rate limiter that fills the gaps between packets with frames of bad checksum
 * (processing/moongen_src/crc-rate-limiter.c). Delays are in bytes on the wire; a filler of `d` wire
 * bytes has a packet length of `d - 20`.
 */
module RateLimiter {
  import opened Prelude

  /** The two thread-local accumulators. */
  datatype Credit = Credit(target: u32, current: u32)

  /** What a call of `get_delay_pkt_bad_crc` leaves: the accumulators, the remaining delay, the filler's wire bytes. */
  datatype Call = Call(st: Credit, rem: u32, sent: Option<u32>)

  const MIN_SPLIT: nat := 1538
  const MAX_MIN_SIZE: nat := 1537

  /** The wire bytes of the filler for a delay. */
  function FrameSize(delay: u32): (d: u32)
    ensures d <= delay && d <= MIN_SPLIT && (delay > 0 ==> d > 0)
    ensures d == delay <==> delay < MIN_SPLIT || delay == 0
  {
    if delay < 1538 then delay else if delay > 2000 then 1538 else delay / 2
  }

  /** `get_delay_pkt_bad_crc`. */
  function GetDelay(st: Credit, rem: u32, min: u32): Call {
    var target := (st.target + rem) % U32_MOD;
    if target < st.current then Call(Credit(target, st.current), 0, None)
    else
      var delay := if rem < min then min else rem;
      Call(Credit(target - st.current, FrameSize(delay)), delay - FrameSize(delay), Some(FrameSize(delay)))
  }

  function Bytes(sent: Option<u32>): nat { if sent.Some? then sent.value else 0 }

  // ---- The ledger, for any sizes ----

  /** Up to `n` calls for one delay, as the inner loop makes them; `sent` and `added` count from the start. */
  datatype Calls = Calls(st: Credit, rem: u32, sent: nat, added: nat)

  function Run(st: Credit, rem: u32, min: u32, n: nat): Calls
    decreases n
  {
    if n == 0 || rem == 0 then Calls(st, rem, 0, 0)
    else
      var c := GetDelay(st, rem, min);
      var r := Run(c.st, c.rem, min, n - 1);
      Calls(r.st, r.rem, Bytes(c.sent) + r.sent, rem + r.added)
  }

  ghost predicate Congruent(a: int, b: int) { a % U32_MOD == b % U32_MOD }

  lemma CongruentSum(a: int, b: int, c: int, d: int)
    requires Congruent(a, b) && Congruent(c, d)
    ensures Congruent(a + c, b + d)
  {
    var (p, q) := (a / U32_MOD - b / U32_MOD, c / U32_MOD - d / U32_MOD);
    assert a - b == U32_MOD * p && c - d == U32_MOD * q;
    Multiple(b + d, p + q);
    assert a + c == b + d + U32_MOD * (p + q);
  }

  lemma Multiple(x: int, k: int)
    ensures Congruent(x + U32_MOD * k, x)
  {
  }

  /** Wire bytes sent and the credit balance account for everything added to the target, modulo 2^32. */
  lemma {:induction false} LedgerModulo(st: Credit, rem: u32, min: u32, n: nat)
    ensures var r := Run(st, rem, min, n);
            Congruent(r.sent + r.st.target - r.st.current, st.target - st.current + r.added)
    decreases n
  {
    if n > 0 && rem > 0 {
      var c := GetDelay(st, rem, min);
      var r := Run(c.st, c.rem, min, n - 1);
      LedgerModulo(c.st, c.rem, min, n - 1);
      CallModulo(st, rem, min);
      var (x, y) := (c.st.target - c.st.current + Bytes(c.sent), st.target - st.current + rem);
      CongruentSum(r.sent + r.st.target - r.st.current, c.st.target - c.st.current + r.added,
                   Bytes(c.sent), Bytes(c.sent));
      CongruentSum(x, y, r.added, r.added);
    }
  }

  lemma CallModulo(st: Credit, rem: u32, min: u32)
    ensures var c := GetDelay(st, rem, min);
            Congruent(c.st.target - c.st.current + Bytes(c.sent), st.target - st.current + rem)
  {
    var target := (st.target + rem) % U32_MOD;
    Multiple(target - st.current, (st.target + rem) / U32_MOD);
    assert st.target + rem == target + U32_MOD * ((st.target + rem) / U32_MOD);
  }

  /** After one delay the ledger is off by what the calls behind the first added to the target again. */
  lemma {:induction false} OffByWhatIsAddedAgain(st: Credit, delay: u32, min: u32, n: nat)
    requires delay > 0 && n > 0
    ensures var r := Run(st, delay, min, n);
            && r.added >= delay
            && (Congruent(r.sent + r.st.target - r.st.current, st.target - st.current + delay) <==>
                Congruent(r.added - delay, 0))
  {
    var r := Run(st, delay, min, n);
    LedgerModulo(st, delay, min, n);
    var (x, again) := (st.target - st.current + delay, r.added - delay);
    if Congruent(again, 0) { CongruentSum(x, x, again, 0); }
    if Congruent(x + again, x) { CongruentSum(x + again, x, -x, -x); }
  }

  /** How often adding to the target wraps around in a run. */
  function Wraps(st: Credit, rem: u32, min: u32, n: nat): nat
    decreases n
  {
    if n == 0 || rem == 0 then 0
    else
      var c := GetDelay(st, rem, min);
      (st.target + rem) / U32_MOD + Wraps(c.st, c.rem, min, n - 1)
  }

  /** The ledger as integers: what a wrap-around loses is missing from it. */
  lemma {:induction false} LedgerWithWraps(st: Credit, rem: u32, min: u32, n: nat)
    ensures var r := Run(st, rem, min, n);
            r.sent + r.st.target - r.st.current + U32_MOD * Wraps(st, rem, min, n)
            == st.target - st.current + r.added
    decreases n
  {
    if n > 0 && rem > 0 {
      var c := GetDelay(st, rem, min);
      LedgerWithWraps(c.st, c.rem, min, n - 1);
      CallWithWraps(st, rem, min);
    }
  }

  lemma CallWithWraps(st: Credit, rem: u32, min: u32)
    ensures var c := GetDelay(st, rem, min);
            Bytes(c.sent) + c.st.target - c.st.current + U32_MOD * ((st.target + rem) / U32_MOD)
            == st.target - st.current + rem
  {
  }

  // ---- Termination ----

  /** With a minimum size of at most 1537 bytes every call shortens the remaining delay. */
  lemma CallShortens(st: Credit, rem: u32, min: u32)
    requires rem > 0 && min <= MAX_MIN_SIZE
    ensures GetDelay(st, rem, min).rem < rem
  {
  }

  ghost predicate EndsIn(st: Credit, rem: u32, min: u32, n: nat) { Run(st, rem, min, n).rem == 0 }

  /** The inner loop for one delay ends. */
  ghost predicate Ends(st: Credit, rem: u32, min: u32) { exists n: nat :: EndsIn(st, rem, min, n) }

  /** The smallest number of calls, at most `n`, after which the loop has ended. */
  ghost function StepsUpTo(st: Credit, rem: u32, min: u32, n: nat): (k: nat)
    requires EndsIn(st, rem, min, n)
    ensures EndsIn(st, rem, min, k) && forall m: nat :: m < k ==> !EndsIn(st, rem, min, m)
    decreases n
  {
    if m: nat :| m < n && EndsIn(st, rem, min, m) then StepsUpTo(st, rem, min, m) else n
  }

  /** How many calls the loop makes. */
  ghost function Steps(st: Credit, rem: u32, min: u32): (k: nat)
    requires Ends(st, rem, min)
    ensures EndsIn(st, rem, min, k) && forall m: nat :: m < k ==> !EndsIn(st, rem, min, m)
  {
    var n: nat :| EndsIn(st, rem, min, n);
    StepsUpTo(st, rem, min, n)
  }

  /** The loop ends iff it ends after one more call, which it reaches one call later. */
  lemma NextEnds(st: Credit, rem: u32, min: u32)
    requires rem > 0
    ensures var c := GetDelay(st, rem, min);
            && (Ends(st, rem, min) <==> Ends(c.st, c.rem, min))
            && (Ends(st, rem, min) ==> Steps(c.st, c.rem, min) < Steps(st, rem, min))
  {
    var c := GetDelay(st, rem, min);
    if Ends(st, rem, min) {
      var n := Steps(st, rem, min);
      assert EndsIn(c.st, c.rem, min, n - 1);
    }
    if Ends(c.st, c.rem, min) {
      assert EndsIn(st, rem, min, Steps(c.st, c.rem, min) + 1);
    }
  }

  /** With a minimum size up to 1537 the loop ends for every delay. */
  lemma {:induction false} SmallMinimumEnds(st: Credit, rem: u32, min: u32)
    requires min <= MAX_MIN_SIZE
    ensures Ends(st, rem, min)
    decreases rem
  {
    if rem == 0 {
      assert EndsIn(st, rem, min, 0);
    } else {
      var c := GetDelay(st, rem, min);
      CallShortens(st, rem, min);
      SmallMinimumEnds(c.st, c.rem, min);
      NextEnds(st, rem, min);
    }
  }

  /** The whole inner loop: the accumulators and the wire bytes of the fillers. */
  function DelayLoop(st: Credit, rem: u32, min: u32): (Credit, seq<u32>)
    requires Ends(st, rem, min)
    decreases Steps(st, rem, min)
  {
    if rem == 0 then (st, [])
    else
      NextEnds(st, rem, min);
      var c := GetDelay(st, rem, min);
      var (st', ds) := DelayLoop(c.st, c.rem, min);
      (st', if c.sent.None? then ds else [c.sent.value] + ds)
  }

  function Sum(ds: seq<u32>): nat { if ds == [] then 0 else ds[0] + Sum(ds[1..]) }

  /** The loop is a run that has ended. */
  lemma {:induction false} LoopIsRun(st: Credit, rem: u32, min: u32, n: nat)
    requires EndsIn(st, rem, min, n)
    ensures Ends(st, rem, min)
    ensures var (l, r) := (DelayLoop(st, rem, min), Run(st, rem, min, n)); r.st == l.0 && r.sent == Sum(l.1)
    decreases n
  {
    if rem > 0 {
      NextEnds(st, rem, min);
      var c := GetDelay(st, rem, min);
      LoopIsRun(c.st, c.rem, min, n - 1);
      assert c.sent.Some? ==> ([c.sent.value] + DelayLoop(c.st, c.rem, min).1)[1..] == DelayLoop(c.st, c.rem, min).1;
    }
  }

  // ---- The ledger, exactly ----

  /** The filler sent leads the request by less than one frame and never lags. */
  ghost predicate InBalance(st: Credit) { st.target <= st.current <= MIN_SPLIT }

  /** One delay of at most 1537 bytes: one call, and the ledger balances exactly. */
  lemma {:induction false} SmallDelayBalances(st: Credit, delay: u32, min: u32)
    requires InBalance(st) && 0 < delay <= MAX_MIN_SIZE && min <= MAX_MIN_SIZE
    ensures Ends(st, delay, min)
    ensures var r := DelayLoop(st, delay, min);
            InBalance(r.0) && Sum(r.1) + r.0.target - r.0.current == st.target - st.current + delay
  {
    var c := GetDelay(st, delay, min);
    SmallMinimumEnds(st, delay, min);
    NextEnds(st, delay, min);
    assert c.rem == 0;
    if c.sent.Some? { assert Sum([c.sent.value]) == c.sent.value + Sum([c.sent.value][1..]); }
  }

  /** Delays with the minimum sizes of their calls, one after the other. */
  function DelayLoops(st: Credit, ds: seq<(u32, u32)>): (Credit, nat)
    requires forall i :: 0 <= i < |ds| ==> ds[i].1 <= MAX_MIN_SIZE
    decreases |ds|
  {
    if ds == [] then (st, 0)
    else
      SmallMinimumEnds(st, ds[0].0, ds[0].1);
      var (st', fillers) := DelayLoop(st, ds[0].0, ds[0].1);
      var (st'', sent) := DelayLoops(st', ds[1..]);
      (st'', Sum(fillers) + sent)
  }

  function Requested(ds: seq<(u32, u32)>): nat { if ds == [] then 0 else ds[0].0 + Requested(ds[1..]) }

  /**
   * For every sequence of delays of at most 1537 bytes: requested = sent + target - current, and
   * 0 <= target <= current, so the filler sent never lags the request and leads by at most one frame.
   */
  lemma {:induction false} SmallDelaysBalance(st: Credit, ds: seq<(u32, u32)>)
    requires InBalance(st) && forall i :: 0 <= i < |ds| ==> ds[i].0 <= MAX_MIN_SIZE && ds[i].1 <= MAX_MIN_SIZE
    ensures var (st', sent) := DelayLoops(st, ds);
            InBalance(st') && Requested(ds) + st.target - st.current == sent + st'.target - st'.current
    decreases |ds|
  {
    if ds != [] {
      if ds[0].0 > 0 { SmallDelayBalances(st, ds[0].0, ds[0].1); }
      SmallMinimumEnds(st, ds[0].0, ds[0].1);
      SmallDelaysBalance(DelayLoop(st, ds[0].0, ds[0].1).0, ds[1..]);
    }
  }

  lemma {:induction false} SmallMinimumEndsIn(st: Credit, rem: u32, min: u32, n: nat)
    requires min <= MAX_MIN_SIZE && n >= rem
    ensures EndsIn(st, rem, min, n)
    decreases rem
  {
    if rem > 0 {
      var c := GetDelay(st, rem, min);
      CallShortens(st, rem, min);
      SmallMinimumEndsIn(c.st, c.rem, min, n - 1);
    }
  }

  const NO_WRAP: nat := 0x20_0000

  /** One call without wrap-around. */
  lemma CallIsExact(st: Credit, rem: u32, min: u32)
    requires st.target + rem < U32_MOD
    ensures var c := GetDelay(st, rem, min);
            && Bytes(c.sent) + c.st.target - c.st.current == st.target - st.current + rem
            && c.st.target <= st.target + rem
  {
  }

  /** Without wrap-around the ledger is exact, and what is added is at least the delay. */
  lemma {:induction false} LedgerExact(st: Credit, rem: u32, min: u32, n: nat)
    requires min <= MAX_MIN_SIZE && n >= rem && rem < NO_WRAP
    requires st.target + NO_WRAP * (rem / MIN_SPLIT + 2) < U32_MOD
    ensures var r := Run(st, rem, min, n);
            r.sent + r.st.target - r.st.current == st.target - st.current + r.added && r.added >= rem
    decreases rem
  {
    if rem > 0 {
      CallShortens(st, rem, min);
      var c := GetDelay(st, rem, min);
      CallIsExact(st, rem, min);
      if c.rem > 0 {
        RemainderIsShorter(st, rem, min);
        LedgerExact(c.st, c.rem, min, n - 1);
      }
    }
  }

  /** A remaining delay is at least a frame shorter, or shorter than a frame. */
  lemma RemainderIsShorter(st: Credit, rem: u32, min: u32)
    requires min <= MAX_MIN_SIZE && 0 < rem < NO_WRAP && GetDelay(st, rem, min).rem > 0
    ensures GetDelay(st, rem, min).rem / MIN_SPLIT + 1 <= rem / MIN_SPLIT && rem >= MIN_SPLIT
  {
  }

  /**
   * From a balanced state, and below 2 MiB, where the accumulators cannot wrap, the ledger balances
   * after a delay exactly when the delay is at most 1537 bytes: the rest of a longer delay is
   * credited again by each further call.
   */
  lemma {:induction false} LedgerBalancesIff(st: Credit, delay: u32, min: u32)
    requires InBalance(st) && 0 < delay < NO_WRAP && min <= MAX_MIN_SIZE
    ensures Ends(st, delay, min)
    ensures var r := DelayLoop(st, delay, min);
            Sum(r.1) + r.0.target - r.0.current == st.target - st.current + delay <==> delay <= MAX_MIN_SIZE
  {
    if delay <= MAX_MIN_SIZE {
      SmallDelayBalances(st, delay, min);
    } else {
      SmallMinimumEndsIn(st, delay, min, delay);
      LoopIsRun(st, delay, min, delay);
      LedgerExact(st, delay, min, delay);
      var c := GetDelay(st, delay, min);
      assert c.rem > 0;
      RemainderIsShorter(st, delay, min);
      LedgerExact(c.st, c.rem, min, delay - 1);
    }
  }

  /**
   * For every delay, minimum size and state with which the loop ends: the ledger balances after the
   * delay exactly when what the calls behind the first added again is what wrap-arounds lost.
   */
  lemma {:induction false} LedgerBalancesWhen(st: Credit, delay: u32, min: u32, n: nat)
    requires delay > 0 && EndsIn(st, delay, min, n)
    ensures Ends(st, delay, min)
    ensures var (l, r) := (DelayLoop(st, delay, min), Run(st, delay, min, n));
            && r.added >= delay
            && (Sum(l.1) + l.0.target - l.0.current == st.target - st.current + delay <==>
                r.added - delay == U32_MOD * Wraps(st, delay, min, n))
  {
    LoopIsRun(st, delay, min, n);
    LedgerWithWraps(st, delay, min, n);
    assert n > 0;
    OffByWhatIsAddedAgain(st, delay, min, n);
  }

  // ---- The send loop ----

  /** A packet to send; its user data holds the wanted gap before it. */
  datatype Packet = Packet(id: nat, udata: u64)

  datatype Frame = Load(pkt: Packet) | Filler(len: u32)

  const BUF_SIZE := 128

  /** A filler of `d` wire bytes has no preamble, start delimiter and gap of its own in its length. */
  function FillerOf(d: u32): Frame { Filler((d - 20) % U32_MOD) }

  function Fillers(ds: seq<u32>): seq<Frame> {
    if ds == [] then [] else [FillerOf(ds[0])] + Fillers(ds[1..])
  }

  function GapOf(p: Packet): u32 { p.udata % U32_MOD }

  /** The inner loops of all packets end. */
  ghost predicate SendEnds(st: Credit, ps: seq<Packet>, min: u32)
    decreases |ps|
  {
    ps != [] ==>
      && Ends(st, GapOf(ps[0]), min)
      && SendEnds(DelayLoop(st, GapOf(ps[0]), min).0, ps[1..], min)
  }

  /** The accumulators after the packets, and the frames on the wire. */
  function Send(st: Credit, ps: seq<Packet>, min: u32): (Credit, seq<Frame>)
    requires SendEnds(st, ps, min)
    decreases |ps|
  {
    if ps == [] then (st, [])
    else
      var (st', ds) := DelayLoop(st, GapOf(ps[0]), min);
      var (st'', wire) := Send(st', ps[1..], min);
      (st'', Fillers(ds) + ([Load(ps[0])] + wire))
  }

  function FillerCount(fs: seq<Frame>): nat {
    if fs == [] then 0 else (if fs[0].Filler? then 1 else 0) + FillerCount(fs[1..])
  }

  function FillerBytes(fs: seq<Frame>): nat {
    if fs == [] then 0 else (if fs[0].Filler? then fs[0].len else 0) + FillerBytes(fs[1..])
  }

  lemma {:induction false} CountSnoc(fs: seq<Frame>, f: Frame)
    ensures FillerCount(fs + [f]) == FillerCount(fs) + if f.Filler? then 1 else 0
    ensures FillerBytes(fs + [f]) == FillerBytes(fs) + if f.Filler? then f.len else 0
  {
    if fs == [] {
      assert [] + [f] == [f];
    } else {
      CountSnoc(fs[1..], f);
      assert (fs + [f])[1..] == fs[1..] + [f];
    }
  }

  /** The counters after the fillers of `fs`, modulo 2^32. */
  ghost predicate Counted(pkts0: u32, bytes0: u32, pkts: u32, bytes: u32, fs: seq<Frame>) {
    pkts == (pkts0 + FillerCount(fs)) % U32_MOD && bytes == (bytes0 + FillerBytes(fs)) % U32_MOD
  }

  lemma ModAdd(a: nat, b: nat)
    ensures (a % U32_MOD + b) % U32_MOD == (a + b) % U32_MOD
  {
    Multiple(a % U32_MOD + b, a / U32_MOD);
    assert a + b == a % U32_MOD + b + U32_MOD * (a / U32_MOD);
  }

  lemma {:induction false} CountedSnoc(pkts0: u32, bytes0: u32, pkts: u32, bytes: u32, fs: seq<Frame>, f: Frame)
    requires Counted(pkts0, bytes0, pkts, bytes, fs) && f.Filler?
    ensures Counted(pkts0, bytes0, (pkts + 1) % U32_MOD, (bytes + f.len) % U32_MOD, fs + [f])
  {
    CountSnoc(fs, f);
    ModAdd(pkts0 + FillerCount(fs), 1);
    ModAdd(bytes0 + FillerBytes(fs), f.len);
  }

  /** After the fillers `done`, the loop that started with `gap` goes on with `delay`. */
  ghost predicate LoopLeft(st0: Credit, gap: u32, st: Credit, delay: u32, min: u32, done: seq<Frame>)
    requires Ends(st0, gap, min) && Ends(st, delay, min)
  {
    var (l0, l) := (DelayLoop(st0, gap, min), DelayLoop(st, delay, min));
    l0.0 == l.0 && Fillers(l0.1) == done + Fillers(l.1)
  }

  function Sent(c: Call): seq<Frame> { if c.sent.None? then [] else [FillerOf(c.sent.value)] }

  lemma {:induction false} LoopStep(st0: Credit, gap: u32, st: Credit, delay: u32, min: u32, done: seq<Frame>)
    requires Ends(st0, gap, min) && Ends(st, delay, min)
    requires delay > 0 && LoopLeft(st0, gap, st, delay, min, done)
    ensures var c := GetDelay(st, delay, min);
            && Ends(c.st, c.rem, min) && Steps(c.st, c.rem, min) < Steps(st, delay, min)
            && LoopLeft(st0, gap, c.st, c.rem, min, done + Sent(c))
  {
    NextEnds(st, delay, min);
    var c := GetDelay(st, delay, min);
    var rest := DelayLoop(c.st, c.rem, min).1;
    if c.sent.Some? {
      assert ([c.sent.value] + rest)[1..] == rest;
      assert done + ([FillerOf(c.sent.value)] + Fillers(rest)) == done + [FillerOf(c.sent.value)] + Fillers(rest);
    } else {
      assert done + [] == done;
    }
  }

  lemma LoopLeftAtStart(st: Credit, gap: u32, min: u32)
    requires Ends(st, gap, min)
    ensures LoopLeft(st, gap, st, gap, min, [])
  {
    assert [] + Fillers(DelayLoop(st, gap, min).1) == Fillers(DelayLoop(st, gap, min).1);
  }

  lemma {:induction false} LoopLeftAtEnd(st0: Credit, gap: u32, st: Credit, min: u32, done: seq<Frame>)
    requires Ends(st0, gap, min) && Ends(st, 0, min) && LoopLeft(st0, gap, st, 0, min, done)
    ensures DelayLoop(st0, gap, min).0 == st && Fillers(DelayLoop(st0, gap, min).1) == done
  {
    assert DelayLoop(st, 0, min) == (st, []);
    assert done + [] == done;
  }

  lemma {:induction false} CountConcat(fs: seq<Frame>, gs: seq<Frame>)
    ensures FillerCount(fs + gs) == FillerCount(fs) + FillerCount(gs)
    ensures FillerBytes(fs + gs) == FillerBytes(fs) + FillerBytes(gs)
  {
    if fs == [] {
      assert [] + gs == gs;
    } else {
      CountConcat(fs[1..], gs);
      assert (fs + gs)[1..] == fs[1..] + gs;
    }
  }

  lemma {:induction false} CountedConcat(pkts0: u32, bytes0: u32, pkts1: u32, bytes1: u32, pkts: u32, bytes: u32,
                                         fs: seq<Frame>, gs: seq<Frame>)
    requires Counted(pkts0, bytes0, pkts1, bytes1, fs) && Counted(pkts1, bytes1, pkts, bytes, gs)
    ensures Counted(pkts0, bytes0, pkts, bytes, fs + gs)
  {
    CountConcat(fs, gs);
    ModAdd(pkts0 + FillerCount(fs), FillerCount(gs));
    ModAdd(bytes0 + FillerBytes(fs), FillerBytes(gs));
  }

  lemma Associative(a: seq<Frame>, b: seq<Frame>, c: seq<Frame>)
    ensures a + b + c == a + (b + c)
  {
  }

  lemma {:induction false} CountedLoad(pkts0: u32, bytes0: u32, pkts: u32, bytes: u32, fs: seq<Frame>, p: Packet)
    requires Counted(pkts0, bytes0, pkts, bytes, fs)
    ensures Counted(pkts0, bytes0, pkts, bytes, fs + [Load(p)])
  {
    CountSnoc(fs, Load(p));
  }

  /** After the frames `fs`, the send of `ps0` goes on with `ps`. */
  ghost predicate SendLeft(st0: Credit, ps0: seq<Packet>, st: Credit, ps: seq<Packet>, min: u32, fs: seq<Frame>)
    requires SendEnds(st0, ps0, min) && SendEnds(st, ps, min)
  {
    var (s0, s) := (Send(st0, ps0, min), Send(st, ps, min));
    s0 == (s.0, fs + s.1)
  }

  lemma {:induction false} SendStep(st0: Credit, ps0: seq<Packet>, st: Credit, ps: seq<Packet>, min: u32,
                                    fs: seq<Frame>)
    requires SendEnds(st0, ps0, min) && SendEnds(st, ps, min)
    requires ps != [] && SendLeft(st0, ps0, st, ps, min, fs)
    ensures var (st', ds) := DelayLoop(st, GapOf(ps[0]), min);
            SendLeft(st0, ps0, st', ps[1..], min, fs + (Fillers(ds) + [Load(ps[0])]))
  {
    var (st', ds) := DelayLoop(st, GapOf(ps[0]), min);
    var wire := Send(st', ps[1..], min).1;
    assert fs + (Fillers(ds) + ([Load(ps[0])] + wire)) == fs + (Fillers(ds) + [Load(ps[0])]) + wire;
  }

  /** The thread-local accumulators, the device's wire and its statistics. */
  class Limiter {
    var target: u32
    var current: u32
    var wire: seq<Frame>
    var badPktsSent: u64
    var badBytesSent: u64

    function State(): Credit
      reads this
    {
      Credit(target, current)
    }

    /** `get_delay_pkt_bad_crc`; the allocated filler, if any, and the remaining delay. */
    method GetDelayPktBadCrc(remDelay: u32, minPktSize: u32) returns (pkt: Option<Frame>, rem: u32)
      modifies this`target, this`current
      ensures var c := GetDelay(old(State()), remDelay, minPktSize);
              && State() == c.st && rem == c.rem
              && pkt == if c.sent.None? then None else Some(FillerOf(c.sent.value))
    {
      var delay := remDelay;
      target := (target + delay) % U32_MOD;
      if target < current {
        return None, 0;
      }
      target := target - current;
      rem := remDelay;
      if delay < minPktSize {
        rem := minPktSize;
        delay := minPktSize;
      }
      if delay < 1538 {
      } else if delay > 2000 {
        delay := 1538;
      } else {
        delay := delay / 2;
      }
      rem := rem - delay;
      current := delay;
      pkt := Some(FillerOf(delay));
    }

    /** `dpdk_send_all_packets`: the first `n` frames of the buffer go out in order. */
    method Flush(pkts: array<Frame>, n: nat)
      requires n <= pkts.Length
      modifies this`wire
      ensures wire == old(wire) + pkts[..n]
    {
      wire := wire + pkts[..n];
    }

    /** Appends a frame to the buffer and sends the buffer when it is full or when told to. */
    method Push(pkts: array<Frame>, idx: nat, f: Frame, last: bool) returns (idx': nat)
      requires pkts.Length == BUF_SIZE && idx < BUF_SIZE
      modifies this`wire, pkts
      ensures idx' < BUF_SIZE && (last ==> idx' == 0)
      ensures wire + pkts[..idx'] == old(wire + pkts[..idx]) + [f]
    {
      pkts[idx] := f;
      idx' := idx + 1;
      assert pkts[..idx'] == old(pkts[..idx]) + [f];
      if idx' >= BUF_SIZE || last {
        Flush(pkts, idx');
        idx' := 0;
      }
    }

    /** The body of the inner loop: one call, and its filler, if any, counted and buffered. */
    method SendFiller(delay: u32, minPktSize: u32, pkts: array<Frame>, from: nat, pkts0: u32, bytes0: u32)
      returns (rem: u32, idx: nat, nPkts: u32, nBytes: u32)
      requires pkts.Length == BUF_SIZE && from < BUF_SIZE
      modifies this`target, this`current, this`wire, pkts
      ensures idx < BUF_SIZE
      ensures var c := GetDelay(old(State()), delay, minPktSize);
              && State() == c.st && rem == c.rem
              && wire + pkts[..idx] == old(wire + pkts[..from]) + Sent(c)
              && Counted(pkts0, bytes0, nPkts, nBytes, Sent(c))
    {
      idx, nPkts, nBytes := from, pkts0, bytes0;
      var pkt;
      pkt, rem := GetDelayPktBadCrc(delay, minPktSize);
      if pkt.Some? {
        CountedSnoc(pkts0, bytes0, nPkts, nBytes, [], pkt.value);
        assert [] + [pkt.value] == [pkt.value];
        nPkts := (nPkts + 1) % U32_MOD;
        nBytes := (nBytes + pkt.value.len) % U32_MOD;
        idx := Push(pkts, idx, pkt.value, false);
      }
    }

    /** The inner loop: the fillers before one packet. */
    method SendFillers(gap: u32, minPktSize: u32, pkts: array<Frame>, from: nat, pkts0: u32, bytes0: u32)
      returns (idx: nat, nPkts: u32, nBytes: u32, ghost done: seq<Frame>)
      requires Ends(State(), gap, minPktSize) && pkts.Length == BUF_SIZE && from < BUF_SIZE
      modifies this`target, this`current, this`wire, pkts
      ensures idx < BUF_SIZE
      ensures State() == DelayLoop(old(State()), gap, minPktSize).0
      ensures done == Fillers(DelayLoop(old(State()), gap, minPktSize).1)
      ensures wire + pkts[..idx] == old(wire + pkts[..from]) + done
      ensures Counted(pkts0, bytes0, nPkts, nBytes, done)
    {
      var delay := gap;
      idx, nPkts, nBytes, done := from, pkts0, bytes0, [];
      ghost var (st0, wire0) := (State(), wire + pkts[..from]);
      assert wire0 + [] == wire0;
      LoopLeftAtStart(st0, gap, minPktSize);
      while delay > 0
        invariant idx < BUF_SIZE
        invariant Ends(State(), delay, minPktSize)
        invariant LoopLeft(st0, gap, State(), delay, minPktSize, done)
        invariant wire + pkts[..idx] == wire0 + done
        invariant Counted(pkts0, bytes0, nPkts, nBytes, done)
        decreases Steps(State(), delay, minPktSize)
      {
        LoopStep(st0, gap, State(), delay, minPktSize, done);
        ghost var (out, pkts1, bytes1) := (Sent(GetDelay(State(), delay, minPktSize)), nPkts, nBytes);
        delay, idx, nPkts, nBytes := SendFiller(delay, minPktSize, pkts, idx, nPkts, nBytes);
        CountedConcat(pkts0, bytes0, pkts1, bytes1, nPkts, nBytes, done, out);
        Associative(wire0, done, out);
        done := done + out;
      }
      LoopLeftAtEnd(st0, gap, State(), minPktSize, done);
    }

    /** The body of the outer loop: the gap before a packet and the packet. */
    method SendPacket(p: Packet, minPktSize: u32, pkts: array<Frame>, from: nat, pkts0: u32, bytes0: u32, last: bool)
      returns (idx: nat, nPkts: u32, nBytes: u32)
      requires Ends(State(), GapOf(p), minPktSize) && pkts.Length == BUF_SIZE && from < BUF_SIZE
      modifies this`target, this`current, this`wire, pkts
      ensures idx < BUF_SIZE && (last ==> idx == 0)
      ensures State() == DelayLoop(old(State()), GapOf(p), minPktSize).0
      ensures var out := Fillers(DelayLoop(old(State()), GapOf(p), minPktSize).1) + [Load(p)];
              wire + pkts[..idx] == old(wire + pkts[..from]) + out && Counted(pkts0, bytes0, nPkts, nBytes, out)
    {
      ghost var done;
      idx, nPkts, nBytes, done := SendFillers(GapOf(p), minPktSize, pkts, from, pkts0, bytes0);
      CountedLoad(pkts0, bytes0, nPkts, nBytes, done, p);
      ghost var before := wire + pkts[..idx];
      idx := Push(pkts, idx, Load(p), last);
      assert before + [Load(p)] == old(wire + pkts[..from]) + (done + [Load(p)]);
    }

    /** One turn of the outer loop, for the loop's invariant: `fs` is what has been sent of `ps0`. */
    method SendNext(ps: seq<Packet>, minPktSize: u32, pkts: array<Frame>, from: nat, pkts0: u32, bytes0: u32,
                    ghost st0: Credit, ghost ps0: seq<Packet>, ghost wire0: seq<Frame>, ghost fs: seq<Frame>)
      returns (idx: nat, nPkts: u32, nBytes: u32, ghost fs': seq<Frame>)
      requires SendEnds(st0, ps0, minPktSize) && SendEnds(State(), ps, minPktSize)
      requires pkts.Length == BUF_SIZE && from < BUF_SIZE && ps != []
      requires SendLeft(st0, ps0, State(), ps, minPktSize, fs)
      requires wire + pkts[..from] == wire0 + fs && Counted(0, 0, pkts0, bytes0, fs)
      modifies this`target, this`current, this`wire, pkts
      ensures idx < BUF_SIZE && (|ps| == 1 ==> idx == 0)
      ensures SendEnds(State(), ps[1..], minPktSize) && SendLeft(st0, ps0, State(), ps[1..], minPktSize, fs')
      ensures wire + pkts[..idx] == wire0 + fs' && Counted(0, 0, nPkts, nBytes, fs')
    {
      SendStep(st0, ps0, State(), ps, minPktSize, fs);
      ghost var out := Fillers(DelayLoop(State(), GapOf(ps[0]), minPktSize).1) + [Load(ps[0])];
      idx, nPkts, nBytes := SendPacket(ps[0], minPktSize, pkts, from, pkts0, bytes0, |ps| == 1);
      fs' := fs + out;
      CountedConcat(0, 0, pkts0, bytes0, nPkts, nBytes, fs, out);
      Associative(wire0, fs, out);
    }

    /** The outer loop; `fs` is what it sends. */
    method SendLoop(loadPkts: seq<Packet>, minPktSize: u32) returns (nPkts: u32, nBytes: u32, ghost fs: seq<Frame>)
      requires SendEnds(State(), loadPkts, minPktSize)
      modifies this`target, this`current, this`wire
      ensures SendEnds(State(), [], minPktSize) && SendLeft(old(State()), loadPkts, State(), [], minPktSize, fs)
      ensures wire == old(wire) + fs && Counted(0, 0, nPkts, nBytes, fs)
    {
      var pkts := new Frame[BUF_SIZE](_ => Filler(0));
      var idx: nat := 0;
      nPkts, nBytes, fs := 0, 0, [];
      ghost var (st0, wire0) := (State(), wire);
      var i := 0;
      assert loadPkts[0..] == loadPkts;
      assert [] + Send(st0, loadPkts, minPktSize).1 == Send(st0, loadPkts, minPktSize).1;
      while i < |loadPkts|
        invariant i <= |loadPkts| && idx < BUF_SIZE && (i == |loadPkts| ==> idx == 0)
        invariant SendEnds(State(), loadPkts[i..], minPktSize)
        invariant SendLeft(st0, loadPkts, State(), loadPkts[i..], minPktSize, fs)
        invariant wire + pkts[..idx] == wire0 + fs
        invariant Counted(0, 0, nPkts, nBytes, fs)
      {
        idx, nPkts, nBytes, fs :=
          SendNext(loadPkts[i..], minPktSize, pkts, idx, nPkts, nBytes, st0, loadPkts, wire0, fs);
        assert loadPkts[i..][1..] == loadPkts[i + 1..];
        i := i + 1;
      }
      assert wire + [] == wire;
    }

    /**
     * `moongen_send_all_packets_with_delay_bad_crc`: every gap gets its fillers, every packet follows
     * its gap, everything is on the wire at the end, and the device statistics count the fillers.
     */
    method SendAllPackets(loadPkts: seq<Packet>, minPktSize: u32)
      requires |loadPkts| < 0x1_0000 && SendEnds(State(), loadPkts, minPktSize)
      modifies this
      ensures State() == Send(old(State()), loadPkts, minPktSize).0
      ensures wire == old(wire) + Send(old(State()), loadPkts, minPktSize).1
      ensures var fs := Send(old(State()), loadPkts, minPktSize).1;
              && badPktsSent == (old(badPktsSent) + FillerCount(fs) % U32_MOD) % U64_MOD
              && badBytesSent == (old(badBytesSent) + FillerBytes(fs) % U32_MOD) % U64_MOD
    {
      var nPkts, nBytes;
      ghost var fs;
      nPkts, nBytes, fs := SendLoop(loadPkts, minPktSize);
      assert fs + [] == fs;
      badPktsSent := (badPktsSent + nPkts) % U64_MOD;
      badBytesSent := (badBytesSent + nBytes) % U64_MOD;
    }
  }

  // ---- What is on the wire ----

  function Loads(fs: seq<Frame>): seq<Packet> {
    if fs == [] then [] else (if fs[0].Load? then [fs[0].pkt] else []) + Loads(fs[1..])
  }

  lemma {:induction false} LoadsConcat(fs: seq<Frame>, gs: seq<Frame>)
    ensures Loads(fs + gs) == Loads(fs) + Loads(gs)
  {
    if fs == [] {
      assert [] + gs == gs;
    } else {
      var first := if fs[0].Load? then [fs[0].pkt] else [];
      LoadsConcat(fs[1..], gs);
      assert (fs + gs)[0] == fs[0] && (fs + gs)[1..] == fs[1..] + gs;
      assert first + (Loads(fs[1..]) + Loads(gs)) == first + Loads(fs[1..]) + Loads(gs);
    }
  }

  lemma {:induction false} FillersHold(ds: seq<u32>)
    ensures Loads(Fillers(ds)) == [] && FillerCount(Fillers(ds)) == |ds|
    ensures Congruent(FillerBytes(Fillers(ds)) + 20 * |ds|, Sum(ds))
  {
    if ds != [] {
      FillersHold(ds[1..]);
      assert Fillers(ds)[1..] == Fillers(ds[1..]);
      var len := ds[0] as int - 20;
      Multiple(len, -(len / U32_MOD));
      assert len % U32_MOD == len + U32_MOD * -(len / U32_MOD);
      CongruentSum(len % U32_MOD + 20, ds[0], FillerBytes(Fillers(ds[1..])) + 20 * |ds[1..]|, Sum(ds[1..]));
    }
  }

  /** The wire without its fillers is exactly the packets, in order. */
  lemma {:induction false} WireCarriesPackets(st: Credit, ps: seq<Packet>, min: u32)
    requires SendEnds(st, ps, min)
    ensures Loads(Send(st, ps, min).1) == ps
    decreases |ps|
  {
    if ps != [] {
      var (st', ds) := DelayLoop(st, GapOf(ps[0]), min);
      var wire := Send(st', ps[1..], min).1;
      WireCarriesPackets(st', ps[1..], min);
      FillersHold(ds);
      LoadsConcat(Fillers(ds), [Load(ps[0])] + wire);
      assert ([Load(ps[0])] + wire)[1..] == wire;
      assert [ps[0]] + ps[1..] == ps;
    }
  }

  /** The wire bytes of all fillers. */
  function SendBytes(st: Credit, ps: seq<Packet>, min: u32): nat
    requires SendEnds(st, ps, min)
    decreases |ps|
  {
    if ps == [] then 0
    else
      var (st', ds) := DelayLoop(st, GapOf(ps[0]), min);
      Sum(ds) + SendBytes(st', ps[1..], min)
  }

  /** Counted bytes and 20 bytes for each counted filler are the wire bytes of the fillers, modulo 2^32. */
  lemma {:induction false} StatisticsAccount(st: Credit, ps: seq<Packet>, min: u32)
    requires SendEnds(st, ps, min)
    ensures var fs := Send(st, ps, min).1;
            Congruent(FillerBytes(fs) + 20 * FillerCount(fs), SendBytes(st, ps, min))
    decreases |ps|
  {
    if ps != [] {
      var (st', ds) := DelayLoop(st, GapOf(ps[0]), min);
      var wire := Send(st', ps[1..], min).1;
      StatisticsAccount(st', ps[1..], min);
      FillersHold(ds);
      CountConcat(Fillers(ds), [Load(ps[0])] + wire);
      assert ([Load(ps[0])] + wire)[1..] == wire;
      CongruentSum(FillerBytes(Fillers(ds)) + 20 * |ds|, Sum(ds), FillerBytes(wire) + 20 * FillerCount(wire),
                   SendBytes(st', ps[1..], min));
    }
  }

  /** The gaps that the packets ask for: the low 32 bits of their user data. */
  function Wanted(ps: seq<Packet>): nat {
    if ps == [] then 0 else ps[0].udata % 0x1_0000_0000 + Wanted(ps[1..])
  }

  /** A gap that one filler can fill. */
  predicate SmallGap(p: Packet) { p.udata % 0x1_0000_0000 <= 1537 }

  /** The bytes that the fillers take on the wire, 20 more each than their lengths. */
  function FillerWireBytes(fs: seq<Frame>): nat {
    if fs == [] then 0
    else (if fs[0].Filler? then (fs[0].len + 20) % 0x1_0000_0000 else 0) + FillerWireBytes(fs[1..])
  }

  /**
   * The accumulators and the frames for one packet with a gap of `u` bytes, where a filler for it takes
   * `g`: the packet goes out alone when there is no gap, or when the credit of earlier fillers is
   * larger than the gap; otherwise behind one filler of `g` wire bytes.
   */
  ghost function PacketFrames(st: Credit, u: u32, g: u32, p: Packet): (Credit, seq<Frame>)
    requires InBalance(st) && u <= 1537
  {
    if u == 0 then (st, [Load(p)])
    else if st.target + u < st.current then (Credit(st.target + u, st.current), [Load(p)])
    else (Credit(st.target + u - st.current, g), [Filler((g - 20) % 0x1_0000_0000), Load(p)])
  }

  function Larger(x: nat, y: nat): nat { if x < y then y else x }

  lemma {:induction false} LoopOfOneCall(st: Credit, u: u32, min: u32)
    requires 0 < u <= 1537 && min <= 1537 && Ends(st, u, min)
    ensures var (c, l) := (GetDelay(st, u, min), DelayLoop(st, u, min));
            c.rem == 0 && l.0 == c.st && Fillers(l.1) == Sent(c)
  {
    NextEnds(st, u, min);
    var c := GetDelay(st, u, min);
    assert c.rem == 0;
    assert DelayLoop(c.st, 0, min) == (c.st, []);
    if c.sent.Some? {
      assert DelayLoop(st, u, min).1 == [c.sent.value] + [];
      assert [c.sent.value] + [] == [c.sent.value];
    }
  }

  lemma {:induction false} OnePacketLoop(st: Credit, p: Packet, min: u32)
    requires SmallGap(p) && InBalance(st) && min <= 1537 && Ends(st, GapOf(p), min)
    ensures var u := p.udata % 0x1_0000_0000;
            var (st', frames) := PacketFrames(st, u, Larger(u, min), p);
            && InBalance(st') && DelayLoop(st, GapOf(p), min).0 == st'
            && Fillers(DelayLoop(st, GapOf(p), min).1) + [Load(p)] == frames
  {
    var u: u32 := GapOf(p);
    if u > 0 { LoopOfOneCall(st, u, min); }
  }

  /** A gap of at most 1537 bytes gets at most one filler, which is never shorter than the minimum size. */
  lemma {:induction false} FramesOfOnePacket(st: Credit, ps: seq<Packet>, min: u32)
    requires ps != [] && SmallGap(ps[0]) && InBalance(st) && min <= 1537 && SendEnds(st, ps, min)
    ensures var u := ps[0].udata % 0x1_0000_0000;
            var (st', frames) := PacketFrames(st, u, Larger(u, min), ps[0]);
            && InBalance(st') && SendEnds(st', ps[1..], min)
            && Send(st, ps, min) == (Send(st', ps[1..], min).0, frames + Send(st', ps[1..], min).1)
  {
    OnePacketLoop(st, ps[0], min);
    var (st', ds) := DelayLoop(st, GapOf(ps[0]), min);
    Associative(Fillers(ds), [Load(ps[0])], Send(st', ps[1..], min).1);
  }

  lemma TwoFrames(a: Frame, b: Frame, rest: seq<Frame>)
    ensures [a] + ([b] + rest) == [a, b] + rest
  {
  }

  lemma {:induction false} SmallMinimumSends(st: Credit, ps: seq<Packet>, min: u32)
    requires min <= 1537
    ensures SendEnds(st, ps, min)
    decreases |ps|
  {
    if ps != [] {
      SmallMinimumEnds(st, GapOf(ps[0]), min);
      SmallMinimumSends(DelayLoop(st, GapOf(ps[0]), min).0, ps[1..], min);
    }
  }

  lemma {:induction false} WireBytesOfPacket(st: Credit, u: u32, g: u32, p: Packet, rest: seq<Frame>)
    requires InBalance(st) && u <= 1537 && u <= g <= 1537
    ensures var (st', fs) := PacketFrames(st, u, g, p);
            FillerWireBytes(fs + rest) + st'.target - st'.current == st.target + u - st.current + FillerWireBytes(rest)
  {
    if u == 0 || st.target + u < st.current {
      WireBytesCons(Load(p), rest);
    } else {
      TwoFrames(Filler((g - 20) % 0x1_0000_0000), Load(p), rest);
      WireBytesCons(Load(p), rest);
      WireBytesCons(Filler((g - 20) % 0x1_0000_0000), [Load(p)] + rest);
      TwentyMore(g);
    }
  }

  lemma TwentyMore(g: u32)
    ensures ((g - 20) % 0x1_0000_0000 + 20) % 0x1_0000_0000 == g
  {
  }

  lemma {:induction false} WireBytesCons(f: Frame, rest: seq<Frame>)
    ensures FillerWireBytes([f] + rest) ==
            (if f.Filler? then (f.len + 20) % 0x1_0000_0000 else 0) + FillerWireBytes(rest)
  {
    assert ([f] + rest)[1..] == rest;
  }

  lemma {:induction false} FillersTakeTheirSum(ds: seq<u32>, rest: seq<Frame>)
    ensures FillerWireBytes(Fillers(ds) + rest) == Sum(ds) + FillerWireBytes(rest)
  {
    if ds == [] {
      assert [] + rest == rest;
    } else {
      FillersTakeTheirSum(ds[1..], rest);
      Associative([FillerOf(ds[0])], Fillers(ds[1..]), rest);
      WireBytesCons(FillerOf(ds[0]), Fillers(ds[1..]) + rest);
      TwentyMore(ds[0]);
    }
  }

  /**
   * Whatever the first packet's gap and the minimum size: if the calls for the low 32 bits of its user data
   * end, the wire takes the bytes of these calls, and the rest of the send goes on from the state behind them.
   */
  lemma {:induction false} FirstGapIsRun(st: Credit, ps: seq<Packet>, min: u32, n: nat)
    requires ps != [] && SendEnds(st, ps, min) && EndsIn(st, ps[0].udata % 0x1_0000_0000, min, n)
    ensures var r := Run(st, ps[0].udata % 0x1_0000_0000, min, n);
            && SendEnds(r.st, ps[1..], min) && Send(st, ps, min).0 == Send(r.st, ps[1..], min).0
            && FillerWireBytes(Send(st, ps, min).1) == r.sent + FillerWireBytes(Send(r.st, ps[1..], min).1)
  {
    LoopIsRun(st, GapOf(ps[0]), min, n);
    var (st', ds) := DelayLoop(st, GapOf(ps[0]), min);
    var wire := Send(st', ps[1..], min).1;
    FillersTakeTheirSum(ds, [Load(ps[0])] + wire);
    WireBytesCons(Load(ps[0]), wire);
  }

  /** When all gaps are at most 1537 bytes, the fillers on the wire account for all of them. */
  lemma {:induction false} SendKeepsBalance(st: Credit, ps: seq<Packet>, min: u32)
    requires InBalance(st) && min <= 1537 && forall p :: p in ps ==> SmallGap(p)
    ensures SendEnds(st, ps, min)
    ensures var (st', fs) := Send(st, ps, min);
            && InBalance(st')
            && Wanted(ps) + st.target - st.current == FillerWireBytes(fs) + st'.target - st'.current
    decreases |ps|
  {
    SmallMinimumSends(st, ps, min);
    if ps != [] {
      assert ps[0] in ps;
      var u := ps[0].udata % 0x1_0000_0000;
      var st1 := PacketFrames(st, u, Larger(u, min), ps[0]).0;
      FramesOfOnePacket(st, ps, min);
      SendKeepsBalance(st1, ps[1..], min);
      WireBytesOfPacket(st, u, Larger(u, min), ps[0], Send(st1, ps[1..], min).1);
    }
  }
}
