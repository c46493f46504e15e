/**
 * Which calls are accepted, and what an accepted call leaves behind, read off the state after it
 * (processing/dpdk_pipeline/thread.c:256-430, 1017-1323, 1435-1775). The statements are about the direct
 * path; module MessageRuns shows that a call through the message rings ends in the same state.
 */
module CallEffects {
  import opened Prelude
  import opened Rules
  import RuleList
  import opened MatchConvert
  import opened Checks
  import opened Tables
  import opened EntryData
  import opened Threads
  import opened Control

  // ---- Enabling a pipeline ----

  /** The slot of an enabled pipeline holds the action contexts of exactly its first `n` tables. */
  ghost predicate Knows(core: Core, p: nat, n: nat) {
    && Shape(core) && p < |core.pipes| && core.pipes[p].enabled
    && core.pipes[p].tid < |core.thr| && n <= |core.pipes[p].tables|
    && var slots := core.thr[core.pipes[p].tid].slots;
       var i := FindSlot(slots, p);
       && i < slots.n && slots.pd[i].nTables == n
       && forall k :: 0 <= k < n ==> slots.pd[i].tabs[k] == core.pipes[p].tables[k].a
  }

  /** `hz * ms / 1000`, without a division. */
  ghost predicate IsPeriod(period: nat, hz: nat, ms: nat) { 1000 * period <= hz * ms < 1000 * period + 1000 }

  /** Slot `n` of `slots` is the new one, the others are those of `was`. */
  ghost predicate NewSlot(was: Thr, slots: Thr, pl: Pipeline, p: nat, hz: nat, now: nat)
    requires ThrOk(was) && ThrOk(slots)
  {
    && slots.n == was.n + 1
    && (forall i :: 0 <= i < was.n ==> slots.run[i] == was.run[i] && slots.pd[i] == was.pd[i])
    && slots.run[was.n] == p
    && var s := slots.pd[was.n];
       && s.p == p && s.q == p && s.nTables == |pl.tables| <= TABLES_MAX
       && (forall k :: 0 <= k < |pl.tables| ==> s.tabs[k] == pl.tables[k].a)
       && IsPeriod(s.period, hz, pl.periodMs) && s.timeNext == now + s.period
  }

  lemma PeriodIs(hz: nat, ms: nat)
    ensures IsPeriod(Period(hz, ms), hz, ms)
  {
    var x := hz * ms;
    assert 1000 * (x / 1000) <= x < 1000 * (x / 1000) + 1000;
  }

  /**
   * An accepted enable fails exactly when all 256 slots of the thread are taken. Otherwise the thread has
   * one more slot, with the pipeline's own ring pair, the number of its tables, their action contexts and its
   * period, the pipeline is enabled on the thread, and nothing else has changed.
   */
  lemma EnableWritesSlot(env: Env, core: Core, t: nat, p: nat, a: ActionCtx, o: seq<Option<Handle>>, now: nat)
    requires Shape(core) && Accepts(core, CEnable(t, p))
    ensures var (core', ret) := Stopped(env, core, CEnable(t, p), a, o, now);
            var was := core.thr[t].slots;
            if was.n == 256 then core' == core && ret == Ret(false, 0, 0)
            else
              && ret == Ret(true, 0, 0)
              && |core'.thr| == |core.thr| && ThrOk(core'.thr[t].slots)
              && NewSlot(was, core'.thr[t].slots, core.pipes[p], p, core.hz, now)
              && core' == core.(thr := core.thr[t := core.thr[t].(slots := core'.thr[t].slots)],
                                pipes := core.pipes[p := core.pipes[p].(enabled := true, tid := t)])
  {
    PeriodIs(core.hz, core.pipes[p].periodMs);
  }

  /** After an enable the thread knows every table of the pipeline, with the table's own action context. */
  lemma EnableKnowsTables(env: Env, core: Core, t: nat, p: nat, a: ActionCtx, o: seq<Option<Handle>>, now: nat)
    requires SlotsAgree(core) && Accepts(core, CEnable(t, p))
    ensures var (core', ret) := Stopped(env, core, CEnable(t, p), a, o, now);
            ret.ok ==> Knows(core', p, |core.pipes[p].tables|)
  {
    EnableWritesSlot(env, core, t, p, a, o, now);
    var (core', ret) := Stopped(env, core, CEnable(t, p), a, o, now);
    var was := core.thr[t].slots;
    if ret.ok {
      forall i | 0 <= i < was.n ensures was.pd[i].p != p { assert SlotMatches(core, t, i); }
      assert core'.thr[t].slots.pd[was.n].p == p;
      assert FindSlot(core'.thr[t].slots, p) == was.n;
    }
  }

  /** The same when the request goes through the thread's message ring. */
  lemma EnableByMessageKnowsTables(env: Env, core: Core, t: nat, p: nat, o: seq<Option<Handle>>, now: nat)
    requires SlotsAgree(core) && Accepts(core, CEnable(t, p))
    ensures var (mid, rsp) := Handled(env, core, CEnable(t, p), o, now);
            && Shape(mid) && InRange(mid, CEnable(t, p))
            && var (core', ret) := Complete(mid, CEnable(t, p), rsp);
               ret.ok ==> Knows(core', p, |core.pipes[p].tables|)
  {
    ThreadPathsAgree(env, core, CEnable(t, p), 0, o, now);
    EnableKnowsTables(env, core, t, p, 0, o, now);
  }

  /** A table call on a table that the slot knows works with the table's own action context. */
  lemma KnownTableHasItsContext(core: Core, c: Call, n: nat)
    requires !IsThreadCall(c) && Knows(core, c.p, n) && c.tb < n
    ensures InRange(core, c) && TableKnown(core, c) && SlotCtx(core, c) == TableCtx(core, c)
  {
  }

  lemma SlotStaysFound(was: Thr, slots: Thr, i: nat, j: nat, p: nat)
    requires ThrOk(was) && ThrOk(slots) && i == FindSlot(was, p) < was.n
    requires j < slots.n && slots.pd[j] == was.pd[i] && forall k :: 0 <= k < slots.n && k != j ==> slots.pd[k].p != p
    ensures FindSlot(slots, p) == j
  {
  }

  /** Enabling another pipeline, and then disabling another, perhaps in the same thread. */
  lemma EnableKeepsKnown(env: Env, core: Core, c: Call, a: ActionCtx, o: seq<Option<Handle>>, now: nat, p: nat, n: nat)
    requires SlotsAgree(core) && Accepts(core, c) && c.CEnable? && Knows(core, p, n)
    ensures Knows(Stopped(env, core, c, a, o, now).0, p, n)
  {
    EnableWritesSlot(env, core, c.t, c.p, a, o, now);
    var (core', ret) := Stopped(env, core, c, a, o, now);
    var t := core.pipes[p].tid;
    var i := FindSlot(core.thr[t].slots, p);
    if ret.ok {
      var slots := core'.thr[t].slots;
      assert slots.pd[i] == core.thr[t].slots.pd[i];
      assert FindSlot(slots, p) == i;
    }
  }

  lemma DisableKeepsKnown(env: Env, core: Core, c: Call, a: ActionCtx, o: seq<Option<Handle>>, now: nat, p: nat, n: nat)
    requires SlotsAgree(core) && Accepts(core, c) && c.CDisable? && c.p != p && Knows(core, p, n)
    ensures Knows(Stopped(env, core, c, a, o, now).0, p, n)
  {
    var core' := Stopped(env, core, c, a, o, now).0;
    var t := core.pipes[p].tid;
    var (was, slots) := (core.thr[t].slots, core'.thr[t].slots);
    var i := FindSlot(was, p);
    if t == c.t {
      assert DistinctSlots(was);
      var h := FindSlot(was, c.p);
      if h < was.n { SlotStaysFound(was, slots, i, if i == was.n - 1 then h else i, p); }
    }
  }

  /** A table call touches neither threads nor flags nor the contexts of tables. */
  lemma TableCallKeepsSlots(env: Env, core: Core, c: Call, a: ActionCtx, o: seq<Option<Handle>>, now: nat)
    requires Shape(core) && Accepts(core, c) && !IsThreadCall(c)
    ensures var core' := Stopped(env, core, c, a, o, now).0;
            Shape(core') && core'.thr == core.thr && SamePipelines(core.pipes, core'.pipes)
  {
    var core' := Stopped(env, core, c, a, o, now).0;
    WithLowShape(core, c.p, c.tb, core'.rte[c.p][c.tb]);
  }

  predicate SamePipelines(xs: seq<Pipeline>, ys: seq<Pipeline>) {
    && |xs| == |ys|
    && forall p :: 0 <= p < |xs| ==> ys[p].enabled == xs[p].enabled && ys[p].tid == xs[p].tid
                                     && |ys[p].tables| == |xs[p].tables|
                                     && forall k :: 0 <= k < |xs[p].tables| ==> ys[p].tables[k].a == xs[p].tables[k].a
  }

  lemma TableCallKeepsKnown(env: Env, core: Core, c: Call, a: ActionCtx, o: seq<Option<Handle>>, now: nat, p: nat,
                            n: nat)
    requires SlotsAgree(core) && Accepts(core, c) && !IsThreadCall(c) && Knows(core, p, n)
    ensures Knows(Stopped(env, core, c, a, o, now).0, p, n)
  {
    TableCallKeepsSlots(env, core, c, a, o, now);
  }

  /** Until its pipeline is disabled, no call changes what the slot knows. */
  lemma CallKeepsKnown(env: Env, core: Core, c: Call, a: ActionCtx, o: seq<Option<Handle>>, now: nat, p: nat, n: nat)
    requires SlotsAgree(core) && Accepts(core, c) && Knows(core, p, n)
    ensures var core' := Stopped(env, core, c, a, o, now).0;
            p < |core'.pipes| && (core'.pipes[p].enabled ==> Knows(core', p, n))
  {
    if c.CEnable? {
      EnableKeepsKnown(env, core, c, a, o, now, p, n);
    } else if !c.CDisable? {
      TableCallKeepsKnown(env, core, c, a, o, now, p, n);
    } else if c.p != p {
      DisableKeepsKnown(env, core, c, a, o, now, p, n);
    } else {
      assert HasSlot(core, p);
    }
  }

  /**
   * An accepted disable closes the hole with the last live slot: every other slot is still there, unchanged, and
   * the pipeline is off. Nothing else has changed.
   */
  lemma DisableRemovesSlot(env: Env, core: Core, t: nat, p: nat, a: ActionCtx, o: seq<Option<Handle>>, now: nat)
    requires SlotsAgree(core) && Accepts(core, CDisable(t, p))
    ensures var (core', ret) := Stopped(env, core, CDisable(t, p), a, o, now);
            var was := core.thr[t].slots;
            && ret == Ret(true, 0, 0) && |core'.thr| == |core.thr|
            && core' == core.(thr := core.thr[t := core.thr[t].(slots := core'.thr[t].slots)],
                              pipes := core.pipes[p := core.pipes[p].(enabled := false)])
            && var slots := core'.thr[t].slots;
               && ThrOk(slots) && slots.n == was.n - 1
               && exists h :: 0 <= h < was.n && was.pd[h].p == p && SlotRemoved(was, slots, h)
  {
    assert HasSlot(core, p);
    var h := FindSlot(core.thr[t].slots, p);
    assert SlotRemoved(core.thr[t].slots, DisableSlot(core.thr[t].slots, p), h);
  }

  /** All live slots but slot `h`, the last one in its place. */
  ghost predicate SlotRemoved(was: Thr, slots: Thr, h: nat)
    requires ThrOk(was) && ThrOk(slots)
  {
    forall i :: 0 <= i < was.n - 1 ==>
      var k := if i == h then was.n - 1 else i; slots.run[i] == was.run[k] && slots.pd[i] == was.pd[k]
  }

  // ---- Table calls ----

  /** Only the table `tb` of pipeline `p` differs, and of it only the rules and the default rule. */
  ghost predicate OnlyTable(core: Core, core': Core, p: nat, tb: nat)
    requires Shape(core) && p < |core.pipes| && tb < |core.pipes[p].tables|
  {
    Shape(core') && |core'.pipes| == |core.pipes| && |core'.pipes[p].tables| == |core.pipes[p].tables| &&
    var (t, t') := (core.pipes[p].tables[tb], core'.pipes[p].tables[tb]);
    && t' == t.(rules := t'.rules, dflt := t'.dflt)
    && core'.rte == core.rte[p := core.rte[p][tb := core'.rte[p][tb]]]
    && core'.pipes == core.pipes[p := core.pipes[p].(tables := core.pipes[p].tables[tb := t'])]
    && core'.thr == core.thr && core'.hz == core.hz
  }

  /** No table call, successful or not, touches another table, a slot or a flag. */
  lemma TableCallIsLocal(env: Env, core: Core, c: Call, a: ActionCtx, o: seq<Option<Handle>>, now: nat)
    requires Shape(core) && Accepts(core, c) && !IsThreadCall(c)
    ensures OnlyTable(core, Stopped(env, core, c, a, o, now).0, c.p, c.tb)
  {
    var core' := Stopped(env, core, c, a, o, now).0;
    WithLowShape(core, c.p, c.tb, core'.rte[c.p][c.tb]);
  }

  /** What the outcome list says about a call with one outcome: the handle, unless the table refused. */
  function Granted(o: seq<Option<Handle>>): Option<Handle> { if |o| > 0 then o[0] else None }

  /** An add succeeds iff the applies and the table do; its entry is the chain's data under the match's key. */
  lemma AddCallWrites(env: Env, core: Core, c: Call, a: ActionCtx, o: seq<Option<Handle>>, now: nat)
    requires Shape(core) && Accepts(core, c) && c.CAdd?
    ensures var (core', ret) := Stopped(env, core, c, a, o, now);
            var (low, low') := (core.rte[c.p][c.tb], core'.rte[c.p][c.tb]);
            && ret == Ret(Written(env, a, c.act).Some? && Granted(o).Some?, 0, 0)
            && KeyOf(low.params, c.m).Some?
            && if ret.ok then
                 && low' == low.(entries := low.entries[KeyOf(low.params, c.m).value :=
                                                        Entry(Granted(o).value, Written(env, a, c.act).value)])
                 && var t := core.pipes[c.p].tables[c.tb];
                    core'.pipes[c.p].tables[c.tb] ==
                    t.(rules := RuleList.Put(t.rules, Rule(c.m, c.act, Granted(o).value)))
               else core' == core
  {
    CheckedConverts(c.m, core.pipes[c.p].tables[c.tb].params);
    ConvertsIff(c.m, true);
    AddWrites(env, a, PairAt(core, c.p, c.tb), c.m, c.act, Granted(o));
    WithLowShape(core, c.p, c.tb, core.rte[c.p][c.tb]);
    WithShadowSame(core, c.p, c.tb);
  }

  /**
   * A bulk add to an ACL table puts in every rule or fails; with every other table type it puts in the rules
   * up to the first that the table refuses, and fails only when that is the first of all.
   */
  lemma {:induction false} BulkCallAdds(env: Env, core: Core, c: Call, a: ActionCtx, o: seq<Option<Handle>>, now: nat)
    requires Shape(core) && Accepts(core, c) && c.CBulk?
    ensures var (_, ret) := Stopped(env, core, c, a, o, now);
            var n := Leading(o, |c.list|);
            var written := forall i :: 0 <= i < |c.list| ==> Written(env, a, c.list[i].act).Some?;
            if core.pipes[c.p].tables[c.tb].params.PAcl? then
              ret == if written && n == |c.list| then Ret(true, |c.list|, 0) else Ret(false, 0, 0)
            else
              ret == if written && n > 0 then Ret(true, n, |c.list| - n) else Ret(false, 0, 0)
  {
    forall i | 0 <= i < |c.list| ensures Convertible(c.list[i].m) {
      assert RuleOk(core, c.p, c.tb, c.list[i].m, c.list[i].act);
      CheckedConverts(c.list[i].m, core.pipes[c.p].tables[c.tb].params);
      ConvertsIff(c.list[i].m, true);
    }
    var acl := core.pipes[c.p].tables[c.tb].params.PAcl?;
    BulkWrites(env, a, PairAt(core, c.p, c.tb), c.list, acl, o);
  }

  /** A delete succeeds iff the table carries it out; then the entry of the match and its rule are gone. */
  lemma DeleteCallWrites(env: Env, core: Core, c: Call, a: ActionCtx, o: seq<Option<Handle>>, now: nat)
    requires Shape(core) && Accepts(core, c) && c.CDelete?
    ensures var (core', ret) := Stopped(env, core, c, a, o, now);
            var (low, low') := (core.rte[c.p][c.tb], core'.rte[c.p][c.tb]);
            && ret == Ret(Granted(o).Some?, 0, 0)
            && KeyOf(low.params, c.m).Some?
            && if ret.ok then
                 && low'.params == low.params && low'.dflt == low.dflt
                 && (forall k :: k in low'.entries <==> k in low.entries && KeyOf(low.params, c.m) != Some(k))
                 && (forall k :: k in low'.entries ==> low'.entries[k] == low.entries[k])
                 && var t := core.pipes[c.p].tables[c.tb];
                    core'.pipes[c.p].tables[c.tb] == t.(rules := RuleList.Remove(t.rules, c.m))
               else core' == core
  {
    CheckedConverts(c.m, core.pipes[c.p].tables[c.tb].params);
    DeleteFindsWhatAddMade(core.rte[c.p][c.tb].params, c.m);
    WithLowShape(core, c.p, c.tb, core.rte[c.p][c.tb]);
    WithShadowSame(core, c.p, c.tb);
  }

  /** How the pipeline reads an entry: the action in the first word, the port or the table in the second. */
  function ReadForward(d: Data): Option<Fwd> {
    if |d| != 2 || d[1] > 0xFFFF_FFFF then None
    else match d[0]
      case 0 => Some(Drop)
      case 1 => Some(Port(d[1]))
      case 2 => Some(PortMeta)
      case 3 => Some(ToTable(d[1]))
      case _ => None
  }

  /**
   * A default add installs an entry that the pipeline reads as the forwarding decision of the action, with
   * the handle that the table returned, and records the action, an all-zero match and the handle.
   */
  lemma DefaultAddCallWrites(env: Env, core: Core, c: Call, a: ActionCtx, o: seq<Option<Handle>>, now: nat)
    requires Shape(core) && Accepts(core, c) && c.CDefAdd?
    ensures var (core', ret) := Stopped(env, core, c, a, o, now);
            var (low, low') := (core.rte[c.p][c.tb], core'.rte[c.p][c.tb]);
            && ret == Ret(Granted(o).Some?, 0, 0)
            && if ret.ok then
                 && low'.dflt.Some? && low'.dflt.value.h == Granted(o).value
                 && ReadForward(low'.dflt.value.data) == Some(c.act.fwd)
                 && low' == low.(dflt := low'.dflt)
                 && core'.pipes[c.p].tables[c.tb] ==
                    core.pipes[c.p].tables[c.tb].(dflt := Some(Rule(MArray(0), c.act, Granted(o).value)))
               else core' == core
  {
    WithLowShape(core, c.p, c.tb, core.rte[c.p][c.tb]);
    WithShadowSame(core, c.p, c.tb);
  }

  /** A default delete removes both default rules, or changes nothing. */
  lemma DefaultDeleteCallWrites(env: Env, core: Core, c: Call, a: ActionCtx, o: seq<Option<Handle>>, now: nat)
    requires Shape(core) && Accepts(core, c) && c.CDefDelete?
    ensures var (core', ret) := Stopped(env, core, c, a, o, now);
            var (low, low') := (core.rte[c.p][c.tb], core'.rte[c.p][c.tb]);
            && ret == Ret(Granted(o).Some?, 0, 0)
            && if ret.ok then
                 && low' == low.(dflt := None)
                 && core'.pipes[c.p].tables[c.tb] == core.pipes[c.p].tables[c.tb].(dflt := None)
               else core' == core
  {
    WithLowShape(core, c.p, c.tb, core.rte[c.p][c.tb]);
    WithShadowSame(core, c.p, c.tb);
  }

  /** The running pipeline's handler installs the same entry. */
  lemma DefaultHandlerWrites(env: Env, core: Core, slot: Slot, tb: nat, act: Action, h: Handle)
    requires Shape(core) && slot.p < |core.pipes| && tb < |core.pipes[slot.p].tables|
    ensures var (core', rsp) := HandlePipe(env, core, slot, RDefAdd(tb, act), [Some(h)]);
            && rsp.ok && rsp.data == h
            && core'.rte[slot.p][tb].dflt.Some? && core'.rte[slot.p][tb].dflt.value.h == h
            && ReadForward(core'.rte[slot.p][tb].dflt.value.data) == Some(act.fwd)
  {
  }

  // ---- Which calls are accepted ----

  /** The match is of the table's type and, where it has addresses, of the table's IP version. */
  predicate FitsTable(m: Match, p: MatchParams) {
    || (p.PAcl? && m.MAcl? && (m.addr.AclV4? <==> p.ipVersion != 0))
    || (p.PArray? && m.MArray?)
    || (p.PHash? && m.MHash?)
    || (p.PLpm? && m.MLpm? && p.lpmKeySize == if m.lpm.LpmV4? then 4 else 16)
  }

  /** A match is refused exactly when it does not fit the table or a prefix is longer than an address. */
  lemma MatchIsAcceptedIff(m: Match, p: MatchParams)
    ensures MatchOk(m, p) <==> FitsTable(m, p) && DepthsOk(m)
  {
  }

  /** Every in-range match of a table's type is accepted. */
  lemma InRangeMatches(pos: u32, key: HashBytes, keyMask: seq<u8>, ip: u32, ip6: Ip6, depth: u8)
    ensures MatchOk(MArray(pos), PArray) && MatchOk(MHash(key), PHash(keyMask))
    ensures MatchOk(MLpm(LpmV4(ip), depth), PLpm(4)) <==> depth <= 32
    ensures MatchOk(MLpm(LpmV6(ip6), depth), PLpm(16)) <==> depth <= 128
    ensures !MatchOk(MLpm(LpmV4(ip), depth), PLpm(16)) && !MatchOk(MLpm(LpmV6(ip6), depth), PLpm(4))
    ensures !MatchOk(MArray(pos), PStub)
  {
  }

  /** The forwarding decision names a port or a table that does not exist. */
  predicate GoesNowhere(fwd: Fwd, nOut: nat, nTables: nat) {
    match fwd
    case Port(id) => id >= nOut
    case ToTable(id) => id >= nTables
    case _ => false
  }

  /** What the action profile of the table rules out. */
  predicate AgainstProfile(act: Action, ap: Profile) {
    || (SMtr in act.mask && act.mtr.tcMask + 1 != Pow2(ap.nTc))
    || (STm in act.mask && (act.tm.subport >= ap.nSubports || act.tm.pipe >= ap.nPipes))
    || (SEncap in act.mask && !EncapAllowed(act.encap, ap.encapMask))
    || (SNat in act.mask && (if act.nat_.Nat4? then ap.ipVersion == 0 else ap.ipVersion != 0))
  }

  predicate EncapAllowed(e: Encap, allowed: set<EncapType>) {
    || (e.Ether? && TEther in allowed) || (e.Vlan? && TVlan in allowed) || (e.QinQ? && TQinQ in allowed)
    || (e.QinQPppoe? && TQinQPppoe in allowed) || (e.MplsHdr? && TMpls in allowed)
    || (e.Pppoe? && TPppoe in allowed)
  }

  lemma ActionIsRefusedIff(act: Action, ap: Profile, nOut: nat, nTables: nat)
    ensures !ActionOk(act, ap, nOut, nTables) <==>
            act.mask != ap.mask || (SFwd in act.mask && GoesNowhere(act.fwd, nOut, nTables)) || AgainstProfile(act, ap)
    ensures !DefaultActionOk(act, nOut, nTables) <==>
            (exists s :: s in act.mask && s != SFwd) || SFwd !in act.mask || GoesNowhere(act.fwd, nOut, nTables)
  {
    assert act.mask == {SFwd} <==> SFwd in act.mask && forall s :: s in act.mask ==> s == SFwd;
    assert EncapAllowed(act.encap, ap.encapMask) <==> TypeOf(act.encap) in ap.encapMask;
  }

  /** A rule of a call is refused: its match does not fit, or its action goes against the table's profile. */
  predicate RuleRefused(core: Core, p: nat, tb: nat, m: Match, act: Action)
    requires p < |core.pipes| && tb < |core.pipes[p].tables|
  {
    var (pl, t) := (core.pipes[p], core.pipes[p].tables[tb]);
    || !FitsTable(m, t.params) || !DepthsOk(m) || act.mask != t.profile.mask
    || (SFwd in act.mask && GoesNowhere(act.fwd, pl.nOut, |pl.tables|)) || AgainstProfile(act, t.profile)
  }

  /** A table call is accepted exactly when pipeline and table exist and none of its rules is refused. */
  lemma TableCallIsAcceptedIff(core: Core, c: Call)
    requires !IsThreadCall(c)
    ensures Accepts(core, c) <==>
            c.p < |core.pipes| && c.tb < |core.pipes[c.p].tables| &&
            match c
            case CAdd(p, tb, m, act) => !RuleRefused(core, p, tb, m, act)
            case CBulk(p, tb, list) =>
              |list| > 0 && forall i :: 0 <= i < |list| ==> !RuleRefused(core, p, tb, list[i].m, list[i].act)
            case CDelete(p, tb, m) => FitsTable(m, core.pipes[p].tables[tb].params) && DepthsOk(m)
            case CDefAdd(p, tb, act) =>
              act.mask == {SFwd} && !GoesNowhere(act.fwd, core.pipes[p].nOut, |core.pipes[p].tables|)
            case CDefDelete(p, tb) => true
  {
    if c.p < |core.pipes| && c.tb < |core.pipes[c.p].tables| {
      match c
      case CAdd(p, tb, m, act) => RuleIsRefusedIff(core, p, tb, m, act);
      case CBulk(p, tb, list) =>
        forall i | 0 <= i < |list|
          ensures RuleOk(core, p, tb, list[i].m, list[i].act) <==> !RuleRefused(core, p, tb, list[i].m, list[i].act)
        {
          RuleIsRefusedIff(core, p, tb, list[i].m, list[i].act);
        }
      case CDelete(p, tb, m) => MatchIsAcceptedIff(m, core.pipes[p].tables[tb].params);
      case CDefAdd(p, tb, act) =>
        ActionIsRefusedIff(act, core.pipes[p].tables[tb].profile, core.pipes[p].nOut, |core.pipes[p].tables|);
      case _ =>
    }
  }

  lemma RuleIsRefusedIff(core: Core, p: nat, tb: nat, m: Match, act: Action)
    requires p < |core.pipes| && tb < |core.pipes[p].tables|
    ensures RuleOk(core, p, tb, m, act) <==> !RuleRefused(core, p, tb, m, act)
  {
    var (pl, t) := (core.pipes[p], core.pipes[p].tables[tb]);
    MatchIsAcceptedIff(m, t.params);
    ActionIsRefusedIff(act, t.profile, pl.nOut, |pl.tables|);
  }

  /**
   * An enable is accepted exactly when the pipeline has an input port, an output port and a table and is not
   * enabled yet, and the thread may be used; a disable when the pipeline is enabled on this thread. A
   * disable of a pipeline that is not enabled is a success without effect.
   */
  lemma ThreadCallIsAcceptedIff(core: Core, t: nat, p: nat)
    ensures Accepts(core, CEnable(t, p)) <==>
            && t < |core.thr| && core.thr[t].usable && p < |core.pipes| && !core.pipes[p].enabled
            && core.pipes[p].nIn >= 1 && core.pipes[p].nOut >= 1 && |core.pipes[p].tables| >= 1
    ensures Accepts(core, CDisable(t, p)) <==>
            && t < |core.thr| && core.thr[t].usable && p < |core.pipes|
            && core.pipes[p].enabled && core.pipes[p].tid == t
    ensures !Accepts(core, CEnable(t, p)) ==> Refusal(core, CEnable(t, p)) == Ret(false, 0, 0)
    ensures !Accepts(core, CDisable(t, p)) ==>
              Refusal(core, CDisable(t, p)) ==
              Ret(t < |core.thr| && core.thr[t].usable && p < |core.pipes| && !core.pipes[p].enabled, 0, 0)
  {
  }
}
