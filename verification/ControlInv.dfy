/** What every control operation keeps, stated on the direct path, to which the message path is equal. */
module ControlInv {
  import opened Prelude
  import opened Rules
  import opened MatchConvert
  import opened Checks
  import opened Tables
  import opened Threads
  import opened Control

  // ---- Slots and flags ----

  lemma EnableKeepsSlots(core: Core, t: nat, p: nat, now: nat)
    requires SlotsAgree(core) && Accepts(core, CEnable(t, p)) && core.thr[t].slots.n < PIPELINES_MAX
    ensures var slots := EnableSlot(core.thr[t].slots, p, Actions(core.pipes[p].tables), p,
                                    Period(core.hz, core.pipes[p].periodMs), now).value;
            SlotsAgree(WithFlag(WithSlots(core, t, slots), p, true, t))
  {
    var slots := EnableSlot(core.thr[t].slots, p, Actions(core.pipes[p].tables), p,
                            Period(core.hz, core.pipes[p].periodMs), now).value;
    var core' := WithFlag(WithSlots(core, t, slots), p, true, t);
    var n := core.thr[t].slots.n;
    forall u, i | 0 <= u < |core'.thr| && 0 <= i < core'.thr[u].slots.n ensures SlotMatches(core', u, i) {
      if u != t || i < n { assert SlotMatches(core, u, i); }
    }
    forall u | 0 <= u < |core'.thr| ensures DistinctSlots(core'.thr[u].slots) {
      assert DistinctSlots(core.thr[u].slots);
      if u == t {
        forall i | 0 <= i < n ensures slots.pd[i].p != p { assert SlotMatches(core, t, i); }
      }
    }
    forall q | 0 <= q < |core'.pipes| ensures HasSlot(core', q) {
      assert HasSlot(core, q);
      if q == p {
        assert slots.pd[n].p == p;
      } else if core.pipes[q].enabled && core.pipes[q].tid == t {
        assert slots.pd[FindSlot(core.thr[t].slots, q)].p == q;
      }
    }
  }

  lemma DisableKeepsMatches(core: Core, t: nat, p: nat, h: nat, core': Core)
    requires SlotsAgree(core) && Accepts(core, CDisable(t, p))
    requires h == FindSlot(core.thr[t].slots, p) < core.thr[t].slots.n
    requires core' == WithFlag(WithSlots(core, t, DisableSlot(core.thr[t].slots, p)), p, false, core.pipes[p].tid)
    ensures forall u, i :: 0 <= u < |core'.thr| && 0 <= i < core'.thr[u].slots.n ==> SlotMatches(core', u, i)
  {
    var old' := core.thr[t].slots;
    forall u, i | 0 <= u < |core'.thr| && 0 <= i < core'.thr[u].slots.n ensures SlotMatches(core', u, i) {
      var k := if u == t && i == h then old'.n - 1 else i;
      assert SlotMatches(core, u, k);
      assert core'.thr[u].slots.pd[i] == core.thr[u].slots.pd[k] &&
             core'.thr[u].slots.run[i] == core.thr[u].slots.run[k];
      if u == t { assert DistinctSlots(old'); }
    }
  }

  lemma DisableKeepsSlots(core: Core, t: nat, p: nat)
    requires SlotsAgree(core) && Accepts(core, CDisable(t, p))
    ensures FindSlot(core.thr[t].slots, p) < core.thr[t].slots.n
    ensures SlotsAgree(WithFlag(WithSlots(core, t, DisableSlot(core.thr[t].slots, p)), p, false, core.pipes[p].tid))
  {
    var old' := core.thr[t].slots;
    assert HasSlot(core, p);
    var h := FindSlot(old', p);
    var slots := DisableSlot(old', p);
    var core' := WithFlag(WithSlots(core, t, slots), p, false, core.pipes[p].tid);
    DisableKeepsMatches(core, t, p, h, core');
    forall u | 0 <= u < |core'.thr| ensures DistinctSlots(core'.thr[u].slots) {
      assert DistinctSlots(core.thr[u].slots);
    }
    forall q | 0 <= q < |core'.pipes| ensures HasSlot(core', q) {
      assert HasSlot(core, q);
      if q != p && core.pipes[q].enabled && core.pipes[q].tid == t { DisableKeepsOthers(old', p, q); }
    }
  }

  /** A disable leaves the slots of the other pipelines, one of them perhaps in another place. */
  lemma DisableKeepsOthers(slots: Thr, p: nat, q: nat)
    requires ThrOk(slots) && q != p && FindSlot(slots, p) < slots.n && FindSlot(slots, q) < slots.n
    ensures ThrOk(DisableSlot(slots, p)) && FindSlot(DisableSlot(slots, p), q) < DisableSlot(slots, p).n
  {
    var (h, i) := (FindSlot(slots, p), FindSlot(slots, q));
    assert DisableSlot(slots, p).pd[if i == slots.n - 1 then h else i].p == q;
  }

  lemma SamePipesKeepSlots(core: Core, core': Core)
    requires SlotsAgree(core) && Shape(core')
    requires |core'.pipes| == |core.pipes| && core'.thr == core.thr && core'.hz == core.hz
    requires forall p :: 0 <= p < |core.pipes| ==> SamePipeline(core.pipes[p], core'.pipes[p])
    ensures SlotsAgree(core')
  {
    forall u, i | 0 <= u < |core'.thr| && 0 <= i < core'.thr[u].slots.n ensures SlotMatches(core', u, i) {
      assert SlotMatches(core, u, i);
      var p := core.thr[u].slots.pd[i].p;
      assert SamePipeline(core.pipes[p], core'.pipes[p]);
    }
    forall u | 0 <= u < |core'.thr| ensures DistinctSlots(core'.thr[u].slots) {
      assert DistinctSlots(core.thr[u].slots);
    }
    forall q | 0 <= q < |core'.pipes| ensures HasSlot(core', q) {
      assert HasSlot(core, q) && SamePipeline(core.pipes[q], core'.pipes[q]);
    }
  }

  /** Equal but for the rules; tables may have been added. */
  predicate SamePipeline(x: Pipeline, y: Pipeline) {
    && x.enabled == y.enabled && x.tid == y.tid && x.periodMs == y.periodMs
    && |x.tables| <= |y.tables| && forall k :: 0 <= k < |x.tables| ==> y.tables[k].a == x.tables[k].a
  }

  lemma WithPairKeepsSlots(core: Core, p: nat, tb: nat, t: Pair)
    requires SlotsAgree(core) && p < |core.pipes| && tb < |core.pipes[p].tables|
    ensures SlotsAgree(WithPair(core, p, tb, t))
  {
    WithLowShape(core, p, tb, t.low);
    var core' := WithPair(core, p, tb, t);
    forall q | 0 <= q < |core.pipes| ensures SamePipeline(core.pipes[q], core'.pipes[q]) {
    }
    SamePipesKeepSlots(core, core');
  }

  /**
   * Every call keeps the slot arrays, the `enabled` flags and the `thread_id`s in step. A disable
   * always finds its slot: the exit that the handler marks as unreachable is.
   */
  lemma CallKeepsSlots(env: Env, core: Core, c: Call, a: ActionCtx, o: seq<Option<Handle>>, now: nat)
    requires SlotsAgree(core) && Accepts(core, c)
    ensures SlotsAgree(Stopped(env, core, c, a, o, now).0)
    ensures c.CDisable? ==> FindSlot(core.thr[c.t].slots, c.p) < core.thr[c.t].slots.n
  {
    match c
    case CEnable(t, p) => if core.thr[t].slots.n < PIPELINES_MAX { EnableKeepsSlots(core, t, p, now); }
    case CDisable(t, p) => DisableKeepsSlots(core, t, p);
    case _ =>
      WithPairKeepsSlots(core, c.p, c.tb, StoppedPair(env, core, c, a, o));
  }

  /** The pair that a table call leaves. */
  function StoppedPair(env: Env, core: Core, c: Call, a: ActionCtx, o: seq<Option<Handle>>): Pair
    requires Shape(core) && Accepts(core, c) && !IsThreadCall(c)
  {
    var t := PairAt(core, c.p, c.tb);
    match c
    case CAdd(_, _, m, act) => AddEffect(env, a, t, m, act, First(o)).0
    case CBulk(p, tb, list) => BulkEffect(env, a, t, list, IsBulkTable(core, p, tb), o).0
    case CDelete(_, _, m) => DeleteEffect(t, m, First(o).Some?).0
    case CDefAdd(_, _, act) => DefaultAddEffect(t, act, First(o), NO_MATCH).0
    case CDefDelete(_, _) => DefaultDeleteEffect(t, First(o).Some?).0
  }

  /** An enabled pipeline occupies one slot of one thread, its own; a pipeline that is not enabled occupies none. */
  lemma EnabledIffOneSlot(core: Core, p: nat)
    requires SlotsAgree(core) && p < |core.pipes|
    ensures core.pipes[p].enabled <==>
            exists t, i :: 0 <= t < |core.thr| && 0 <= i < core.thr[t].slots.n && core.thr[t].slots.pd[i].p == p
    ensures forall t, i :: 0 <= t < |core.thr| && 0 <= i < core.thr[t].slots.n && core.thr[t].slots.pd[i].p == p
              ==> t == core.pipes[p].tid && i == FindSlot(core.thr[t].slots, p) && core.thr[t].slots.run[i] == p
  {
    assert HasSlot(core, p);
    if core.pipes[p].enabled {
      var t := core.pipes[p].tid;
      var i := FindSlot(core.thr[t].slots, p);
      assert core.thr[t].slots.pd[i].p == p;
    }
    forall t, i | 0 <= t < |core.thr| && 0 <= i < core.thr[t].slots.n && core.thr[t].slots.pd[i].p == p
      ensures t == core.pipes[p].tid && i == FindSlot(core.thr[t].slots, p) && core.thr[t].slots.run[i] == p
      ensures core.pipes[p].enabled
    {
      assert SlotMatches(core, t, i) && DistinctSlots(core.thr[t].slots);
    }
  }

  /** Live slots of the first `n` threads. */
  function TotalSlots(thr: seq<ThreadRec>, n: nat): nat
    requires n <= |thr|
  {
    if n == 0 then 0 else TotalSlots(thr, n - 1) + thr[n - 1].slots.n
  }

  ghost function SlotSet(t: Thr, n: nat): set<nat>
    requires ThrOk(t) && n <= t.n
  {
    set i | 0 <= i < n :: t.pd[i].p
  }

  lemma SlotSetSize(t: Thr, n: nat)
    requires ThrOk(t) && DistinctSlots(t) && n <= t.n
    ensures |SlotSet(t, n)| == n
    decreases n
  {
    if n > 0 {
      SlotSetSize(t, n - 1);
      assert SlotSet(t, n) == SlotSet(t, n - 1) + {t.pd[n - 1].p};
      assert t.pd[n - 1].p !in SlotSet(t, n - 1);
    }
  }

  ghost function EnabledIn(core: Core, n: nat): set<nat> {
    set p | 0 <= p < |core.pipes| && core.pipes[p].enabled && core.pipes[p].tid < n
  }

  lemma SlotsOfThread(core: Core, t: nat)
    requires SlotsAgree(core) && t < |core.thr|
    ensures SlotSet(core.thr[t].slots, core.thr[t].slots.n) == EnabledIn(core, t + 1) - EnabledIn(core, t)
  {
    var slots := core.thr[t].slots;
    forall p ensures p in SlotSet(slots, slots.n) <==> p in EnabledIn(core, t + 1) - EnabledIn(core, t) {
      if p in SlotSet(slots, slots.n) {
        var i :| 0 <= i < slots.n && slots.pd[i].p == p;
        assert SlotMatches(core, t, i);
      }
      if p in EnabledIn(core, t + 1) - EnabledIn(core, t) {
        assert HasSlot(core, p);
        assert slots.pd[FindSlot(slots, p)].p == p;
      }
    }
  }

  lemma ThreadAddsItsSlots(core: Core, t: nat)
    requires SlotsAgree(core) && t < |core.thr|
    ensures |EnabledIn(core, t + 1)| == |EnabledIn(core, t)| + core.thr[t].slots.n
  {
    var (before, after) := (EnabledIn(core, t), EnabledIn(core, t + 1));
    SlotsOfThread(core, t);
    assert DistinctSlots(core.thr[t].slots);
    SlotSetSize(core.thr[t].slots, core.thr[t].slots.n);
    assert after == before + (after - before);
  }

  lemma {:induction false} SlotsCountUpTo(core: Core, n: nat)
    requires SlotsAgree(core) && n <= |core.thr|
    ensures TotalSlots(core.thr, n) == |EnabledIn(core, n)|
    decreases n
  {
    if n > 0 {
      SlotsCountUpTo(core, n - 1);
      ThreadAddsItsSlots(core, n - 1);
    } else {
      assert EnabledIn(core, 0) == {};
    }
  }

  /** The sum of `n_pipelines` over all threads is the number of enabled pipelines. */
  lemma SlotsCountEnabled(core: Core)
    requires SlotsAgree(core)
    ensures TotalSlots(core.thr, |core.thr|) == |set p | 0 <= p < |core.pipes| && core.pipes[p].enabled|
  {
    SlotsCountUpTo(core, |core.thr|);
    forall p | 0 <= p < |core.pipes| && core.pipes[p].enabled ensures p in EnabledIn(core, |core.thr|) {
      assert HasSlot(core, p);
    }
    assert EnabledIn(core, |core.thr|) == set p | 0 <= p < |core.pipes| && core.pipes[p].enabled;
  }

  // ---- Shadow lists and low-level tables ----

  ghost predicate TableAgrees(env: Env, core: Core, p: nat, tb: nat)
    requires Shape(core) && p < |core.pipes| && tb < |core.pipes[p].tables|
  {
    && core.rte[p][tb].params == core.pipes[p].tables[tb].params
    && Agree(env, core.pipes[p].tables[tb].a, PairAt(core, p, tb))
  }

  ghost predicate TablesAgree(env: Env, core: Core) {
    Shape(core) &&
    forall p, tb :: 0 <= p < |core.pipes| && 0 <= tb < |core.pipes[p].tables| ==> TableAgrees(env, core, p, tb)
  }

  /** The call names no rule that the low-level table would confuse with another. */
  predicate AliasFreeCall(core: Core, c: Call)
    requires Shape(core) && InRange(core, c)
  {
    !IsThreadCall(c) ==>
      var t := core.pipes[c.p].tables[c.tb];
      match c
      case CAdd(_, _, m, _) => AliasFree(KeyIn(t.params), t.rules, m)
      case CBulk(_, _, list) => BulkAliasFree(KeyIn(t.params), t.rules, list)
      case CDelete(_, _, m) => AliasFree(KeyIn(t.params), t.rules, m)
      case _ => true
  }

  lemma BulkAliasFreeOfPrefix(key: Match -> Option<Key>, rules: seq<Rule>, list: seq<Rule>, n: nat)
    requires BulkAliasFree(key, rules, list) && n <= |list|
    ensures BulkAliasFree(key, rules, list[..n])
  {
  }

  lemma StoppedPairAgrees(env: Env, core: Core, c: Call, o: seq<Option<Handle>>)
    requires Shape(core) && Accepts(core, c) && !IsThreadCall(c)
    requires TableAgrees(env, core, c.p, c.tb) && AliasFreeCall(core, c)
    ensures Agree(env, TableCtx(core, c), StoppedPair(env, core, c, TableCtx(core, c), o))
  {
    var (a, t) := (TableCtx(core, c), PairAt(core, c.p, c.tb));
    match c
    case CAdd(_, _, m, act) => AddKeepsAgreementIff(env, a, t, m, act, First(o));
    case CBulk(p, tb, list) =>
      BulkKeepsAgreementIff(env, a, t, list, IsBulkTable(core, p, tb), o);
      BulkAliasFreeOfPrefix(KeyIn(t.low.params), t.rules, list,
                            BulkEffect(env, a, t, list, IsBulkTable(core, p, tb), o).2);
    case CDelete(p, tb, m) =>
      CheckedConverts(m, core.pipes[p].tables[tb].params);
      DeleteKeepsAgreementIff(env, a, t, m, First(o).Some?);
    case CDefAdd(_, _, act) => DefaultKeepsAgreement(env, a, t, act, First(o), NO_MATCH, true);
    case CDefDelete(_, _) => DefaultKeepsAgreement(env, a, t, ZERO_ACTION, None, NO_MATCH, First(o).Some?);
  }

  lemma StoppedPairKeepsParams(env: Env, core: Core, c: Call, a: ActionCtx, o: seq<Option<Handle>>)
    requires Shape(core) && Accepts(core, c) && !IsThreadCall(c)
    ensures StoppedPair(env, core, c, a, o).low.params == core.rte[c.p][c.tb].params
  {
    var low := core.rte[c.p][c.tb];
    if c.CBulk? {
      var kds := ConvertAll(env, a, low.params, c.list);
      if kds.Some? { AddManyKeepsDefault(low, kds.value, o); }
    }
  }

  /** Putting a pair that agrees back into its table. */
  lemma PairKeepsAgreement(env: Env, core: Core, p: nat, tb: nat, t: Pair)
    requires TablesAgree(env, core) && p < |core.pipes| && tb < |core.pipes[p].tables|
    requires t.low.params == core.rte[p][tb].params && Agree(env, core.pipes[p].tables[tb].a, t)
    ensures Shape(WithPair(core, p, tb, t)) && TablesAgree(env, WithPair(core, p, tb, t))
  {
    var core' := WithPair(core, p, tb, t);
    WithLowShape(core, p, tb, t.low);
    forall q, tc | 0 <= q < |core'.pipes| && 0 <= tc < |core'.pipes[q].tables| ensures TableAgrees(env, core', q, tc) {
      assert TableAgrees(env, core, q, tc);
      assert PairAt(core', q, tc) == if (q, tc) == (p, tb) then t else PairAt(core, q, tc);
    }
  }

  /** A thread call leaves every table as it is. */
  lemma ThreadCallKeepsAgreement(env: Env, core: Core, c: Call, o: seq<Option<Handle>>, now: nat)
    requires SlotsAgree(core) && Accepts(core, c) && TablesAgree(env, core) && IsThreadCall(c)
    ensures TablesAgree(env, Stopped(env, core, c, 0, o, now).0)
  {
    var core' := Stopped(env, core, c, 0, o, now).0;
    CallKeepsSlots(env, core, c, 0, o, now);
    forall p, tb | 0 <= p < |core'.pipes| && 0 <= tb < |core'.pipes[p].tables| ensures TableAgrees(env, core', p, tb) {
      assert TableAgrees(env, core, p, tb);
      assert PairAt(core', p, tb) == PairAt(core, p, tb);
    }
  }

  /** Every call without aliases keeps every table of every pipeline in agreement. */
  lemma CallKeepsAgreement(env: Env, core: Core, c: Call, o: seq<Option<Handle>>, now: nat)
    requires SlotsAgree(core) && Accepts(core, c)
    requires TablesAgree(env, core) && AliasFreeCall(core, c)
    ensures TablesAgree(env, Stopped(env, core, c, TableCtx(core, c), o, now).0)
  {
    if IsThreadCall(c) {
      ThreadCallKeepsAgreement(env, core, c, o, now);
    } else {
      assert TableAgrees(env, core, c.p, c.tb);
      StoppedPairAgrees(env, core, c, o);
      StoppedPairKeepsParams(env, core, c, TableCtx(core, c), o);
      PairKeepsAgreement(env, core, c.p, c.tb, StoppedPair(env, core, c, TableCtx(core, c), o));
    }
  }

  /** Any two different matches that the table cannot tell apart: it keeps one entry, the list both rules. */
  lemma AliasesBreakAgreement(env: Env, a: ActionCtx, p: MatchParams, m: Match, m': Match, act: Action)
    requires ActionConvert(env, a, act).Some? && DepthsOk(m) && DepthsOk(m') && m != m' && Alias(p, m, m')
    ensures var t := AddEffect(env, a, Pair([], None, EmptyLow(p)), m, act, Some(1)).0;
            && Agree(env, a, t)
            && !Agree(env, a, AddEffect(env, a, t, m', act, Some(2)).0)
  {
    var t0 := Pair([], None, EmptyLow(p));
    var t := AddEffect(env, a, t0, m, act, Some(1)).0;
    SameKeyIffAlias(p, m, m');
    AddKeepsAgreementIff(env, a, t0, m, act, Some(1));
    assert t.rules == [Rule(m, act, 1)];
    AddKeepsAgreementIff(env, a, t, m', act, Some(2));
    assert !AliasFree(KeyIn(p), t.rules, m') by { assert t.rules[0].m == m; }
  }

  /** Two ACL rules that differ in priority only. */
  lemma PriorityAliasBreaksAgreement(env: Env, a: ActionCtx, act: Action)
    requires ActionConvert(env, a, act).Some?
    ensures var m := MAcl(AclV4(1, 2), 32, 32, 0, 0, 0, 0, 6, 0, 1);
            var t := AddEffect(env, a, Pair([], None, EmptyLow(PAcl(1))), m, act, Some(1)).0;
            && MatchOk(m, PAcl(1)) && MatchOk(m.(priority := 2), PAcl(1))
            && Agree(env, a, t)
            && !Agree(env, a, AddEffect(env, a, t, m.(priority := 2), act, Some(2)).0)
  {
    var m := MAcl(AclV4(1, 2), 32, 32, 0, 0, 0, 0, 6, 0, 1);
    AliasesBreakAgreement(env, a, PAcl(1), m, m.(priority := 2), act);
  }

  const ALL_BITS_OF_8: seq<u8> := [0xFF, 0xFF, 0xFF, 0xFF, 0xFF, 0xFF, 0xFF, 0xFF]

  /** The raw keys `0000000000000001` and `00000000000000010001` in a table with key size 8. */
  lemma HashAliasBreaksAgreement(env: Env, a: ActionCtx, act: Action)
    requires ActionConvert(env, a, act).Some?
    ensures var (p, m, m') := (PHash(ALL_BITS_OF_8), MHash(ShortKey(1, 0)), MHash(ShortKey(1, 1)));
            var t := AddEffect(env, a, Pair([], None, EmptyLow(p)), m, act, Some(1)).0;
            && Creatable(p) && MatchOk(m, p) && MatchOk(m', p)
            && Agree(env, a, t)
            && !Agree(env, a, AddEffect(env, a, t, m', act, Some(2)).0)
  {
    var (k, k') := (ShortKey(1, 0), ShortKey(1, 1));
    assert k[9] != k'[9];
    AliasesBreakAgreement(env, a, PHash(ALL_BITS_OF_8), MHash(k), MHash(k'), act);
  }
}
