/**
 * MoonSniff's live mode (processing/moongen_src/moonsniff.cpp:19-124): timestamps taken before the
 * device under test wait in a direct-mapped table, without chaining, for the packet to come out.
 */
module MoonSniff {
  import opened Prelude
  import opened OnlineStats

  const SLOTS: nat := 0x100_0000

  datatype Op = Add(id: u32, ts: u64) | Test(id: u32, ts: u64)

  /** The low 24 bits of an identifier. */
  function SlotOfId(id: u32): (slot: nat)
    ensures slot < SLOTS
  {
    id % SLOTS
  }

  function SlotOf(op: Op): nat { SlotOfId(op.id) }

  datatype Entry = Entry(timestamp: u64, identifier: u64)

  const EMPTY := Entry(0, 0)

  // ---- What a history means ----

  /** The position after the last operation on a slot, 0 if there is none. */
  function AfterLast(h: seq<Op>, slot: nat): (n: nat)
    ensures n <= |h|
  {
    if h == [] then 0
    else if SlotOf(h[|h| - 1]) == slot then |h|
    else AfterLast(h[..|h| - 1], slot)
  }

  lemma {:induction false} AfterLastIs(h: seq<Op>, slot: nat)
    ensures var n := AfterLast(h, slot);
            && (n > 0 ==> SlotOf(h[n - 1]) == slot)
            && forall i :: n <= i < |h| ==> SlotOf(h[i]) != slot
  {
    if h != [] && SlotOf(h[|h| - 1]) != slot {
      AfterLastIs(h[..|h| - 1], slot);
      var n := AfterLast(h, slot);
      forall i | n <= i < |h| ensures SlotOf(h[i]) != slot {
        if i < |h| - 1 { assert h[..|h| - 1][i] == h[i]; }
      }
    }
  }

  /** What the table holds in a slot. */
  function EntryAfter(h: seq<Op>, slot: nat): Entry {
    var n := AfterLast(h, slot);
    if n > 0 && h[n - 1].Add? then Entry(h[n - 1].ts, h[n - 1].id) else EMPTY
  }

  /** The timestamp that a test finds, 0 for none. */
  function Found(h: seq<Op>, id: u32): u64 {
    var e := EntryAfter(h, SlotOfId(id));
    if e.identifier == id then e.timestamp else 0
  }

  predicate IsHit(h: seq<Op>, i: nat)
    requires i < |h|
  {
    h[i].Test? && Found(h[..i], h[i].id) != 0
  }

  /** Conversion of an unsigned difference to `int64_t`. */
  function Signed(x: u64): int { if x < U64_MOD / 2 then x else x - U64_MOD }

  function Latency(after: u64, before: u64): int { Signed((after as int - before as int) % U64_MOD) }

  /** The latencies of the hits, in order. Also those below the threshold are among them. */
  function Latencies(h: seq<Op>): seq<real> {
    if h == [] then []
    else
      var (g, op) := (h[..|h| - 1], h[|h| - 1]);
      Latencies(g) + if op.Test? && Found(g, op.id) != 0 then [Latency(op.ts, Found(g, op.id)) as real] else []
  }

  function Hits(h: seq<Op>): nat { |Latencies(h)| }

  function Tests(h: seq<Op>): nat {
    if h == [] then 0 else Tests(h[..|h| - 1]) + if h[|h| - 1].Test? then 1 else 0
  }

  function Misses(h: seq<Op>): nat {
    if h == [] then 0
    else
      var (g, op) := (h[..|h| - 1], h[|h| - 1]);
      Misses(g) + if op.Test? && Found(g, op.id) == 0 then 1 else 0
  }

  // ---- Properties of every history ----

  /**
   * A test is a hit exactly when the latest operation on its slot was an add of the same 32-bit
   * identifier with a timestamp other than zero.
   */
  lemma {:induction false} HitIffLastAdd(h: seq<Op>, id: u32)
    ensures Found(h, id) != 0 <==>
              exists k :: 0 <= k < |h| && h[k].Add? && h[k].id == id && h[k].ts != 0
                          && forall i :: k < i < |h| ==> h[i].id % 0x100_0000 != id % 0x100_0000
  {
    var (slot, n) := (id % SLOTS, AfterLast(h, id % SLOTS));
    AfterLastIs(h, slot);
    if k :| 0 <= k < |h| && h[k].Add? && h[k].id == id && h[k].ts != 0
            && forall i :: k < i < |h| ==> SlotOf(h[i]) != slot {
      assert SlotOf(h[k]) == slot;
      assert n == k + 1;
    }
    if Found(h, id) != 0 {
      assert h[n - 1].Add? && h[n - 1].id == id && h[n - 1].ts != 0;
      assert forall i :: n - 1 < i < |h| ==> SlotOf(h[i]) != slot;
    }
  }

  lemma {:induction false} HitsAndMisses(h: seq<Op>)
    ensures Hits(h) + Misses(h) == Tests(h)
  {
    if h != [] { HitsAndMisses(h[..|h| - 1]); }
  }

  /** The add that a hit answers. */
  function Server(h: seq<Op>, i: nat): nat
    requires i < |h| && IsHit(h, i)
  {
    AfterLastIs(h[..i], SlotOf(h[i]));
    AfterLast(h[..i], SlotOf(h[i])) - 1
  }

  /** Each add is answered by at most one hit, which follows it and has its identifier. */
  lemma {:induction false} AddsAreHitOnce(h: seq<Op>, i: nat, j: nat)
    requires i < j < |h| && IsHit(h, i) && IsHit(h, j)
    ensures Server(h, i) < i && h[Server(h, i)] == Add(h[i].id, Found(h[..i], h[i].id))
    ensures Server(h, i) != Server(h, j)
  {
    AfterLastIs(h[..i], SlotOf(h[i]));
    AfterLastIs(h[..j], SlotOf(h[j]));
    var (p, q) := (Server(h, i), Server(h, j));
    assert h[..i][p] == h[p] && h[..j][q] == h[q] && h[..j][i] == h[i];
  }

  // ---- Which latency belongs to which hit ----

  /** The positions of the hits among the first `n` operations, in order. */
  function HitPositions(h: seq<Op>, n: nat): seq<nat>
    requires n <= |h|
  {
    if n == 0 then [] else HitPositions(h, n - 1) + if IsHit(h, n - 1) then [n - 1] else []
  }

  lemma {:induction false} HitPositionsAreHits(h: seq<Op>, n: nat)
    requires n <= |h|
    ensures forall k :: 0 <= k < |HitPositions(h, n)| ==> HitPositions(h, n)[k] < n && IsHit(h, HitPositions(h, n)[k])
    ensures forall j, k :: 0 <= j < k < |HitPositions(h, n)| ==> HitPositions(h, n)[j] < HitPositions(h, n)[k]
    ensures forall i :: 0 <= i < n && IsHit(h, i) ==> i in HitPositions(h, n)
  {
    if n > 0 { HitPositionsAreHits(h, n - 1); }
  }

  /** The value of a 64-bit difference that `int64_t` represents: the difference itself wherever it fits. */
  ghost predicate IsDifference(x: real, after: u64, before: u64) {
    var d := after as int - before as int;
    || (x == d as real && -0x8000_0000_0000_0000 <= d < 0x8000_0000_0000_0000)
    || (x == (d - 0x1_0000_0000_0000_0000) as real && d >= 0x8000_0000_0000_0000)
    || (x == (d + 0x1_0000_0000_0000_0000) as real && d < -0x8000_0000_0000_0000)
  }

  lemma LatencyIsDifference(after: u64, before: u64)
    ensures IsDifference(Latency(after, before) as real, after, before)
  {
    var d := after as int - before as int;
    assert d < 0 ==> d % U64_MOD == d + U64_MOD;
  }

  /** `x` is the latency of the hit at position `i`. */
  ghost predicate LatencyAt(h: seq<Op>, i: nat, x: real) {
    i < |h| && IsHit(h, i) && Server(h, i) < i && IsDifference(x, h[i].ts, h[Server(h, i)].ts)
  }

  /** One more operation: a hit adds its own latency, everything else adds none. */
  lemma {:induction false} LastLatency(h: seq<Op>, n: nat)
    requires 0 < n <= |h|
    ensures !IsHit(h, n - 1) ==> Latencies(h[..n]) == Latencies(h[..n - 1])
    ensures IsHit(h, n - 1) ==>
              exists x :: LatencyAt(h, n - 1, x) && Latencies(h[..n]) == Latencies(h[..n - 1]) + [x]
  {
    var (g, op) := (h[..n - 1], h[n - 1]);
    assert h[..n] == g + [op];
    HistorySnoc(g, op);
    if IsHit(h, n - 1) {
      AfterLastIs(g, SlotOf(op));
      LatencyIsDifference(op.ts, h[Server(h, n - 1)].ts);
      assert LatencyAt(h, n - 1, Latency(op.ts, Found(g, op.id)) as real);
    }
  }

  lemma {:induction false} LatenciesUpTo(h: seq<Op>, n: nat)
    requires n <= |h|
    ensures |Latencies(h[..n])| == |HitPositions(h, n)|
    ensures forall k :: 0 <= k < |HitPositions(h, n)| ==> LatencyAt(h, HitPositions(h, n)[k], Latencies(h[..n])[k])
  {
    if n > 0 {
      LatenciesUpTo(h, n - 1);
      LastLatency(h, n);
    } else {
      assert h[..0] == [];
    }
  }

  /**
   * The k-th latency is that of the k-th hit: the timestamp of the test minus the timestamp of the add
   * that it answers, as a signed 64-bit number. The hits are taken in order, and none is left out.
   */
  lemma {:induction false} LatencyOfHit(h: seq<Op>, k: nat)
    requires k < Hits(h)
    ensures var ps := HitPositions(h, |h|);
            && |ps| == Hits(h) && LatencyAt(h, ps[k], Latencies(h)[k]) && (forall j :: 0 <= j < k ==> ps[j] < ps[k])
    ensures forall i :: 0 <= i < |h| && IsHit(h, i) ==> i in HitPositions(h, |h|)
  {
    HitPositionsAreHits(h, |h|);
    LatenciesUpTo(h, |h|);
    assert h[..|h|] == h;
  }

  // ---- The program ----

  lemma {:induction false} AfterLastSnoc(h: seq<Op>, op: Op, slot: nat)
    ensures AfterLast(h + [op], slot) == if SlotOf(op) == slot then |h| + 1 else AfterLast(h, slot)
  {
    assert (h + [op])[..|h|] == h;
  }

  lemma EntryAfterSnoc(h: seq<Op>, op: Op, slot: nat)
    ensures EntryAfter(h + [op], slot) ==
            if SlotOf(op) != slot then EntryAfter(h, slot) else if op.Add? then Entry(op.ts, op.id) else EMPTY
  {
    AfterLastSnoc(h, op, slot);
    var n := AfterLast(h, slot);
    if SlotOf(op) != slot && n > 0 { assert (h + [op])[n - 1] == h[n - 1]; }
  }

  /** A hit list as a history leaves it. */
  ghost predicate TableAfter(table: seq<Entry>, h: seq<Op>) {
    |table| == SLOTS && forall s :: 0 <= s < SLOTS ==> table[s] == EntryAfter(h, s)
  }

  /** An add writes its slot, a test clears it. */
  lemma TableSnoc(table: seq<Entry>, h: seq<Op>, op: Op, table': seq<Entry>)
    requires TableAfter(table, h)
    requires table' == table[SlotOf(op) := if op.Add? then Entry(op.ts, op.id) else EMPTY]
    ensures TableAfter(table', h + [op])
  {
    forall s | 0 <= s < SLOTS ensures table'[s] == EntryAfter(h + [op], s) { EntryAfterSnoc(h, op, s); }
  }

  lemma {:induction false} HistorySnoc(h: seq<Op>, op: Op)
    ensures Latencies(h + [op]) ==
            if op.Test? && Found(h, op.id) != 0 then Latencies(h) + [Latency(op.ts, Found(h, op.id)) as real]
            else Latencies(h)
    ensures Misses(h + [op]) == Misses(h) + if op.Test? && Found(h, op.id) == 0 then 1 else 0
  {
    assert (h + [op])[..|h|] == h;
    assert Latencies(h) + [] == Latencies(h);
  }

  lemma ModNext(n: nat)
    ensures (n % U32_MOD + 1) % U32_MOD == (n + 1) % U32_MOD
  {
  }

  /** The globals of the namespace. */
  class Sniffer {
    const hitList: array<Entry>
    var count: nat
    var mean: real
    var m2: real
    var variance: real
    var averageLatency: int
    var varianceLatency: int
    var hits: u32
    var misses: u32
    /** All operations so far. */
    ghost var history: seq<Op>

    function Current(): Stats
      reads this
    {
      Stats(count, mean, m2)
    }

    /** The counters and the moments are those of a history. */
    ghost predicate Counted(h: seq<Op>)
      reads this
    {
      && hits == Hits(h) % U32_MOD && misses == Misses(h) % U32_MOD
      && count == Hits(h) && IsTwoPass(Current(), Latencies(h)) && (count < 2 ==> variance == 0.0)
    }

    ghost predicate Valid()
      reads this, hitList
    {
      && hitList.Length == SLOTS && Counted(history)
      && TableAfter(hitList[..], history)
    }

    constructor ()
      ensures Valid() && history == [] && fresh(hitList)
    {
      hitList := new Entry[SLOTS](_ => EMPTY);
      count, mean, m2, variance := 0, 0.0, 0.0, 0.0;
      averageLatency, varianceLatency, hits, misses := 0, 0, 0, 0;
      history := [];
    }

    /** Overwrites the entry of a slot. */
    method Put(index: nat, e: Entry)
      requires index < hitList.Length
      modifies hitList
      ensures hitList[..] == old(hitList[..])[index := e]
    {
      hitList[index] := e;
    }

    /** `add_entry`. */
    method AddEntry(identification: u32, timestamp: u64)
      requires Valid()
      modifies this`history, hitList
      ensures Valid() && history == old(history) + [Add(identification, timestamp)]
    {
      Put(SlotOfId(identification), Entry(timestamp, identification));
      ghost var op := Add(identification, timestamp);
      ghost var h := history + [op];
      assert TableAfter(hitList[..], h) by {
        TableSnoc(old(hitList[..]), history, op, hitList[..]);
      }
      assert Counted(h) by {
        HistorySnoc(history, op);
      }
      history := h;
    }

    /** The statistics of one hit. */
    method Measure(diff: int, ghost xs: seq<real>)
      requires IsTwoPass(Current(), xs)
      modifies this`count, this`mean, this`m2
      ensures count == old(count) + 1 && IsTwoPass(Current(), xs + [diff as real])
    {
      UpdateIsTwoPass(Current(), xs, diff as real);
      count := count + 1;
      var delta := diff as real - mean;
      mean := mean + delta / count as real;
      var delta2 := diff as real - mean;
      m2 := m2 + delta * delta2;
    }

    /** Takes the entry of a slot and clears it. */
    method Take(identification: u32) returns (oldTs: u64)
      requires hitList.Length == SLOTS
      modifies hitList
      ensures var e := old(hitList[SlotOfId(identification)]);
              oldTs == if e.identifier == identification then e.timestamp else 0
      ensures hitList[..] == old(hitList[..])[SlotOfId(identification) := EMPTY]
    {
      var index := SlotOfId(identification);
      oldTs := if hitList[index].identifier == identification then hitList[index].timestamp else 0;
      Put(index, EMPTY);
    }

    /** A hit and its latency. */
    method Hit(diff: int, ghost h: seq<Op>, ghost h': seq<Op>)
      requires Counted(h) && Latencies(h') == Latencies(h) + [diff as real] && Misses(h') == Misses(h)
      modifies this`hits, this`count, this`mean, this`m2
      ensures Counted(h')
    {
      ModNext(Hits(h));
      hits := (hits + 1) % U32_MOD;
      Measure(diff, Latencies(h));
    }

    method Miss(ghost h: seq<Op>, ghost h': seq<Op>)
      requires Counted(h) && Latencies(h') == Latencies(h) && Misses(h') == Misses(h) + 1
      modifies this`misses
      ensures Counted(h')
    {
      ModNext(Misses(h));
      misses := (misses + 1) % U32_MOD;
    }

    /** What `test_for` does with the timestamp that it took. */
    method Score(oldTs: u64, timestamp: u64, ghost h: seq<Op>, ghost id: u32)
      requires Counted(h) && oldTs == Found(h, id)
      modifies this`hits, this`misses, this`count, this`mean, this`m2
      ensures Counted(h + [Test(id, timestamp)])
    {
      HistorySnoc(h, Test(id, timestamp));
      if oldTs != 0 {
        Hit(Latency(timestamp, oldTs), h, h + [Test(id, timestamp)]);
      } else {
        Miss(h, h + [Test(id, timestamp)]);
      }
    }

    /** `test_for`; a latency below the threshold is reported and counted all the same. */
    method TestFor(identification: u32, timestamp: u64)
      requires Valid()
      modifies this`history, this`hits, this`misses, this`count, this`mean, this`m2, hitList
      ensures Valid() && history == old(history) + [Test(identification, timestamp)]
    {
      ghost var op := Test(identification, timestamp);
      var oldTs := Take(identification);
      assert oldTs == Found(history, identification);
      Score(oldTs, timestamp, history, identification);
      TableSnoc(old(hitList[..]), history, op, hitList[..]);
      history := history + [op];
    }

    /**
     * `fetch_stats`: the mean, 0 without hits, and the two-pass sample variance, 0 before the second hit,
     * cut to integers.
     */
    method FetchStats()
      requires Valid()
      modifies this`variance, this`averageLatency, this`varianceLatency
      ensures Valid()
      ensures variance == if Hits(history) < 2 then 0.0 else SampleVariance(Latencies(history))
      ensures averageLatency == if Hits(history) == 0 then 0 else Truncate(Mean(Latencies(history)))
      ensures varianceLatency == Truncate(variance)
    {
      FinalizedIsTwoPass(Current(), Latencies(history));
      if count >= 2 {
        variance := m2 / (count - 1) as real;
      }
      averageLatency := Truncate(mean);
      varianceLatency := Truncate(variance);
    }
  }

  /** Conversion of a real to an integer, toward zero. */
  function Truncate(x: real): int { if x >= 0.0 then x.Floor else -(-x).Floor }

  lemma TruncateTowardZero(x: real)
    ensures x >= 0.0 ==> 0.0 <= Truncate(x) as real <= x < Truncate(x) as real + 1.0
    ensures x <= 0.0 ==> Truncate(x) as real - 1.0 < x <= Truncate(x) as real <= 0.0
  {
  }
}
