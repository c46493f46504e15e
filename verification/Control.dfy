/**
 * The control operations of the main thread and the message handlers of the data-plane threads, as
 * functions on the state they share (processing/dpdk_pipeline/thread.c:256-556, 1325-1775,
 * 2658-2949). Each operation exists twice, as in the C code: `Stopped` is the direct path, and
 * `Handled` followed by `Complete` is the message path.
 */
module Control {
  import opened Prelude
  import opened Rules
  import RuleList
  import opened Checks
  import opened Tables
  import opened Threads

  /** `struct table` of a pipeline. */
  datatype TableRec = TableRec(params: MatchParams, profile: Profile, a: ActionCtx, rules: seq<Rule>,
                               dflt: Option<Rule>)

  /** `struct pipeline`; its rte pipeline and its ring pair carry the pipeline's own index. */
  datatype Pipeline = Pipeline(nIn: nat, nOut: nat, tables: seq<TableRec>, periodMs: nat, enabled: bool, tid: nat)

  /** `thread[t].enabled`, the lcore state, and `thread_data[t]`. */
  datatype ThreadRec = ThreadRec(usable: bool, running: bool, slots: Thr)

  /** Everything but messages: pipelines, their low-level tables, threads, and the clock rate. */
  datatype Core = Core(pipes: seq<Pipeline>, rte: seq<seq<LowTable>>, thr: seq<ThreadRec>, hz: nat)

  predicate Shape(c: Core) {
    && |c.rte| == |c.pipes|
    && (forall p :: 0 <= p < |c.pipes| ==> |c.rte[p]| == |c.pipes[p].tables| <= TABLES_MAX)
    && (forall t :: 0 <= t < |c.thr| ==> ThrOk(c.thr[t].slots))
  }

  function Period(hz: nat, ms: nat): nat { hz * ms / 1000 }

  /** A main-thread call; `t` is a thread, `p` a pipeline, `tb` a table. */
  datatype Call =
    | CEnable(t: nat, p: nat)
    | CDisable(t: nat, p: nat)
    | CAdd(p: nat, tb: nat, m: Match, act: Action)
    | CBulk(p: nat, tb: nat, list: seq<Rule>)
    | CDelete(p: nat, tb: nat, m: Match)
    | CDefAdd(p: nat, tb: nat, act: Action)
    | CDefDelete(p: nat, tb: nat)

  /** What a call returns; the counts are those of a bulk add. */
  datatype Ret = Ret(ok: bool, added: nat, notAdded: nat)

  const OK := Ret(true, 0, 0)
  const FAIL := Ret(false, 0, 0)

  predicate IsThreadCall(c: Call) { c.CEnable? || c.CDisable? }

  predicate InRange(core: Core, c: Call) {
    c.p < |core.pipes| && (if IsThreadCall(c) then c.t < |core.thr| else c.tb < |core.pipes[c.p].tables|)
  }

  predicate RuleOk(core: Core, p: nat, tb: nat, m: Match, act: Action)
    requires p < |core.pipes| && tb < |core.pipes[p].tables|
  {
    var pl := core.pipes[p];
    MatchOk(m, pl.tables[tb].params) && ActionOk(act, pl.tables[tb].profile, pl.nOut, |pl.tables|)
  }

  /** The call passes its parameter checks and has something to do. */
  predicate Accepts(core: Core, c: Call) {
    InRange(core, c) &&
    match c
    case CEnable(t, p) =>
      && core.pipes[p].nIn != 0 && core.pipes[p].nOut != 0 && core.pipes[p].tables != []
      && core.thr[t].usable && !core.pipes[p].enabled
    case CDisable(t, p) => core.thr[t].usable && core.pipes[p].enabled && core.pipes[p].tid == t
    case CAdd(p, tb, m, act) => RuleOk(core, p, tb, m, act)
    case CBulk(p, tb, list) =>
      list != [] && forall i :: 0 <= i < |list| ==> RuleOk(core, p, tb, list[i].m, list[i].act)
    case CDelete(p, tb, m) => MatchOk(m, core.pipes[p].tables[tb].params)
    case CDefAdd(p, tb, act) => DefaultActionOk(act, core.pipes[p].nOut, |core.pipes[p].tables|)
    case CDefDelete(p, tb) => true
  }

  /** What a call that is not accepted returns: only disabling a pipeline that is not enabled is a success. */
  function Refusal(core: Core, c: Call): Ret {
    if c.CDisable? && InRange(core, c) && core.thr[c.t].usable && !core.pipes[c.p].enabled then OK else FAIL
  }

  /** `thread_is_running` or `pipeline_is_running`, whichever the call asks. */
  predicate Running(core: Core, c: Call)
    requires InRange(core, c)
  {
    if IsThreadCall(c) then core.thr[c.t].running
    else core.pipes[c.p].enabled && core.pipes[c.p].tid < |core.thr| && core.thr[core.pipes[c.p].tid].running
  }

  function Actions(tables: seq<TableRec>): (r: seq<nat>)
    ensures |r| == |tables| && forall i :: 0 <= i < |r| ==> r[i] == tables[i].a
  {
    seq(|tables|, i requires 0 <= i < |tables| => tables[i].a)
  }

  function PairAt(core: Core, p: nat, tb: nat): Pair
    requires Shape(core) && p < |core.pipes| && tb < |core.pipes[p].tables|
  {
    var t := core.pipes[p].tables[tb];
    Pair(t.rules, t.dflt, core.rte[p][tb])
  }

  function WithLow(core: Core, p: nat, tb: nat, low: LowTable): Core
    requires Shape(core) && p < |core.pipes| && tb < |core.pipes[p].tables|
  {
    core.(rte := core.rte[p := core.rte[p][tb := low]])
  }

  function WithShadow(core: Core, p: nat, tb: nat, rules: seq<Rule>, dflt: Option<Rule>): Core
    requires p < |core.pipes| && tb < |core.pipes[p].tables|
  {
    var pl := core.pipes[p];
    core.(pipes := core.pipes[p := pl.(tables := pl.tables[tb := pl.tables[tb].(rules := rules, dflt := dflt)])])
  }

  function WithPair(core: Core, p: nat, tb: nat, t: Pair): Core
    requires Shape(core) && p < |core.pipes| && tb < |core.pipes[p].tables|
  {
    WithShadow(WithLow(core, p, tb, t.low), p, tb, t.rules, t.dflt)
  }

  function WithSlots(core: Core, t: nat, slots: Thr): Core
    requires t < |core.thr|
  {
    core.(thr := core.thr[t := core.thr[t].(slots := slots)])
  }

  function WithFlag(core: Core, p: nat, enabled: bool, tid: nat): Core
    requires p < |core.pipes|
  {
    core.(pipes := core.pipes[p := core.pipes[p].(enabled := enabled, tid := tid)])
  }

  function First(o: seq<Option<Handle>>): Option<Handle> { if o == [] then None else o[0] }

  /** The zeroed match in a default rule. */
  const NO_MATCH := MArray(0)

  /** `table->a` of the table that the call names. */
  function TableCtx(core: Core, c: Call): ActionCtx
    requires InRange(core, c)
  {
    if IsThreadCall(c) then 0 else core.pipes[c.p].tables[c.tb].a
  }

  predicate IsBulkTable(core: Core, p: nat, tb: nat)
    requires p < |core.pipes| && tb < |core.pipes[p].tables|
  {
    core.pipes[p].tables[tb].params.PAcl?
  }

  /** The direct path, with `a` as action context; `o` and `now` are foreign outcomes and the clock. */
  function Stopped(env: Env, core: Core, c: Call, a: ActionCtx, o: seq<Option<Handle>>, now: nat): (Core, Ret)
    requires Shape(core) && Accepts(core, c)
  {
    match c
    case CEnable(t, p) =>
      var pl := core.pipes[p];
      (match EnableSlot(core.thr[t].slots, p, Actions(pl.tables), p, Period(core.hz, pl.periodMs), now)
       case None => (core, FAIL)
       case Some(slots) => (WithFlag(WithSlots(core, t, slots), p, true, t), OK))
    case CDisable(t, p) =>
      var slots := core.thr[t].slots;
      if FindSlot(slots, p) == slots.n then (core, OK)
      else (WithFlag(WithSlots(core, t, DisableSlot(slots, p)), p, false, core.pipes[p].tid), OK)
    case CAdd(p, tb, m, act) =>
      var (t', ok) := AddEffect(env, a, PairAt(core, p, tb), m, act, First(o));
      (WithPair(core, p, tb, t'), Ret(ok, 0, 0))
    case CBulk(p, tb, list) =>
      var (t', ok, added, rest) := BulkEffect(env, a, PairAt(core, p, tb), list, IsBulkTable(core, p, tb), o);
      (WithPair(core, p, tb, t'), Ret(ok, added, rest))
    case CDelete(p, tb, m) =>
      var (t', ok) := DeleteEffect(PairAt(core, p, tb), m, First(o).Some?);
      (WithPair(core, p, tb, t'), Ret(ok, 0, 0))
    case CDefAdd(p, tb, act) =>
      var (t', ok) := DefaultAddEffect(PairAt(core, p, tb), act, First(o), NO_MATCH);
      (WithPair(core, p, tb, t'), Ret(ok, 0, 0))
    case CDefDelete(p, tb) =>
      var (t', ok) := DefaultDeleteEffect(PairAt(core, p, tb), First(o).Some?);
      (WithPair(core, p, tb, t'), Ret(ok, 0, 0))
  }

  // ---- The message path ----

  /** A request as written into the message block. */
  datatype Req =
    | REnable(rte: nat, tabs: seq<nat>, q: nat, periodMs: nat)
    | RDisable(rte: nat)
    | RAdd(tb: nat, m: Match, act: Action)
    | RBulk(tb: nat, list: seq<Rule>, bulk: bool)
    | RDelete(tb: nat, m: Match)
    | RDefAdd(tb: nat, act: Action)
    | RDefDelete(tb: nat)

  /** A response; `list` is the caller's rule list with the handles that the handler wrote into it. */
  datatype Rsp = Rsp(ok: bool, data: Handle, nRules: nat, list: seq<Rule>)

  const RSP_FAIL := Rsp(false, 0, 0, [])
  const RSP_OK := Rsp(true, 0, 0, [])

  function ReqOf(core: Core, c: Call): Req
    requires InRange(core, c)
  {
    match c
    case CEnable(t, p) => REnable(p, Actions(core.pipes[p].tables), p, core.pipes[p].periodMs)
    case CDisable(t, p) => RDisable(p)
    case CAdd(p, tb, m, act) => RAdd(tb, m, act)
    case CBulk(p, tb, list) => RBulk(tb, list, IsBulkTable(core, p, tb))
    case CDelete(p, tb, m) => RDelete(tb, m)
    case CDefAdd(p, tb, act) => RDefAdd(tb, act)
    case CDefDelete(p, tb) => RDefDelete(tb)
  }

  /** `thread_msg_handle` of one request. */
  function HandleThread(core: Core, t: nat, r: Req, now: nat): (Core, Rsp)
    requires Shape(core) && t < |core.thr|
  {
    var slots := core.thr[t].slots;
    match r
    case REnable(rte, tabs, q, periodMs) =>
      if |tabs| > TABLES_MAX then (core, RSP_FAIL)
      else (match EnableSlot(slots, rte, tabs, q, Period(core.hz, periodMs), now)
            case None => (core, RSP_FAIL)
            case Some(slots') => (WithSlots(core, t, slots'), RSP_OK))
    case RDisable(rte) => (WithSlots(core, t, DisableSlot(slots, rte)), RSP_OK)
    case _ => (core, RSP_FAIL)
  }

  /** `pipeline_msg_handle` of one request, by the owner of `slot`. */
  function HandlePipe(env: Env, core: Core, slot: Slot, r: Req, o: seq<Option<Handle>>): (Core, Rsp)
    requires Shape(core)
  {
    if r.REnable? || r.RDisable? || slot.p >= |core.pipes| || r.tb >= |core.pipes[slot.p].tables| then (core, RSP_FAIL)
    else
      var (p, tb) := (slot.p, r.tb);
      var (a, low) := (slot.tabs[tb], core.rte[p][tb]);
      match r
      case RAdd(_, m, act) =>
        var (low', h) := LowAdd(env, a, low, m, act, First(o));
        if h.None? then (core, RSP_FAIL) else (WithLow(core, p, tb, low'), Rsp(true, h.value, 0, []))
      case RBulk(_, list, bulk) =>
        (match LowBulk(env, a, low, list, bulk, o)
         case None => (core, RSP_FAIL)
         case Some((low', hs)) =>
           (WithLow(core, p, tb, low'), Rsp(true, 0, |hs|, WithData(list, hs) + list[|hs|..])))
      case RDelete(_, m) =>
        var (low', ok) := LowDelete(low, m, First(o).Some?);
        (WithLow(core, p, tb, low'), Rsp(ok, 0, 0, []))
      case RDefAdd(_, act) =>
        (match First(o)
         case None => (core, RSP_FAIL)
         case Some(h) => (WithLow(core, p, tb, low.(dflt := Some(Entry(h, DefaultData(act.fwd))))),
                          Rsp(true, h, 0, [])))
      case RDefDelete(_) =>
        if First(o).Some? then (WithLow(core, p, tb, low.(dflt := None)), RSP_OK) else (core, RSP_FAIL)
  }

  /** What the main thread does with the response. */
  function Complete(core: Core, c: Call, rsp: Rsp): (Core, Ret)
    requires Shape(core) && InRange(core, c)
  {
    if !rsp.ok then (core, FAIL)
    else match c
      case CEnable(t, p) => (WithFlag(core, p, true, t), OK)
      case CDisable(t, p) => (WithFlag(core, p, false, core.pipes[p].tid), OK)
      case CAdd(p, tb, m, act) =>
        var t := core.pipes[p].tables[tb];
        (WithShadow(core, p, tb, RuleList.Put(t.rules, Rule(m, act, rsp.data)), t.dflt), OK)
      case CBulk(p, tb, list) =>
        var t := core.pipes[p].tables[tb];
        var n := if rsp.nRules <= |rsp.list| then rsp.nRules else |rsp.list|;
        (WithShadow(core, p, tb, RuleList.PutAll(t.rules, rsp.list[..n]), t.dflt),
         Ret(true, rsp.nRules, |rsp.list| - n))
      case CDelete(p, tb, m) =>
        var t := core.pipes[p].tables[tb];
        (WithShadow(core, p, tb, RuleList.Remove(t.rules, m), t.dflt), OK)
      case CDefAdd(p, tb, act) =>
        var t := core.pipes[p].tables[tb];
        (WithShadow(core, p, tb, t.rules, Some(Rule(NO_MATCH, act, rsp.data))), OK)
      case CDefDelete(p, tb) =>
        var t := core.pipes[p].tables[tb];
        (WithShadow(core, p, tb, t.rules, None), OK)
  }

  // ---- Slots and flags in step ----

  /** Slot `i` of thread `t` is that of an enabled pipeline of this thread, with the tables it was enabled with. */
  ghost predicate SlotMatches(core: Core, t: nat, i: nat)
    requires Shape(core) && t < |core.thr| && i < core.thr[t].slots.n
  {
    var s := core.thr[t].slots.pd[i];
    && s.p < |core.pipes|
    && core.pipes[s.p].enabled && core.pipes[s.p].tid == t
    && core.thr[t].slots.run[i] == s.p && s.q == s.p
    && s.period == Period(core.hz, core.pipes[s.p].periodMs)
    && s.nTables <= |core.pipes[s.p].tables|
    && forall k :: 0 <= k < s.nTables ==> s.tabs[k] == core.pipes[s.p].tables[k].a
  }

  ghost predicate DistinctSlots(t: Thr)
    requires ThrOk(t)
  {
    forall i, j :: 0 <= i < j < t.n ==> t.pd[i].p != t.pd[j].p
  }

  /** An enabled pipeline has a slot in its own thread. */
  ghost predicate HasSlot(core: Core, p: nat)
    requires Shape(core) && p < |core.pipes|
  {
    core.pipes[p].enabled ==>
      && core.pipes[p].tid < |core.thr|
      && FindSlot(core.thr[core.pipes[p].tid].slots, p) < core.thr[core.pipes[p].tid].slots.n
  }

  ghost predicate SlotsAgree(core: Core) {
    && Shape(core)
    && (forall t, i :: 0 <= t < |core.thr| && 0 <= i < core.thr[t].slots.n ==> SlotMatches(core, t, i))
    && (forall t :: 0 <= t < |core.thr| ==> DistinctSlots(core.thr[t].slots))
    && (forall p :: 0 <= p < |core.pipes| ==> HasSlot(core, p))
  }

  /** The slot whose owner serves the ring of the pipeline that the call names. */
  function ServerSlot(core: Core, c: Call): Slot
    requires Shape(core) && InRange(core, c) && !IsThreadCall(c) && core.pipes[c.p].tid < |core.thr|
    requires var slots := core.thr[core.pipes[c.p].tid].slots; FindSlot(slots, c.p) < slots.n
  {
    var slots := core.thr[core.pipes[c.p].tid].slots;
    slots.pd[FindSlot(slots, c.p)]
  }

  /** The handler's answer to a call, by whoever serves it. */
  function Handled(env: Env, core: Core, c: Call, o: seq<Option<Handle>>, now: nat): (Core, Rsp)
    requires Shape(core) && InRange(core, c)
    requires !IsThreadCall(c) ==>
               && core.pipes[c.p].tid < |core.thr|
               && var slots := core.thr[core.pipes[c.p].tid].slots; FindSlot(slots, c.p) < slots.n
  {
    if IsThreadCall(c) then HandleThread(core, c.t, ReqOf(core, c), now)
    else HandlePipe(env, core, ServerSlot(core, c), ReqOf(core, c), o)
  }

  /** The action context that the handler of a call uses. */
  function SlotCtx(core: Core, c: Call): ActionCtx
    requires Shape(core) && InRange(core, c)
    requires !IsThreadCall(c) ==>
               && core.pipes[c.p].tid < |core.thr|
               && var slots := core.thr[core.pipes[c.p].tid].slots; FindSlot(slots, c.p) < slots.n
  {
    if IsThreadCall(c) then 0 else ServerSlot(core, c).tabs[c.tb]
  }

  /** The table that the call names existed when its pipeline was enabled. */
  predicate TableKnown(core: Core, c: Call)
    requires Shape(core) && InRange(core, c)
    requires !IsThreadCall(c) ==>
               && core.pipes[c.p].tid < |core.thr|
               && var slots := core.thr[core.pipes[c.p].tid].slots; FindSlot(slots, c.p) < slots.n
  {
    !IsThreadCall(c) ==> c.tb < ServerSlot(core, c).nTables
  }

  // ---- The two paths of every call agree ----

  lemma ThreadPathsAgree(env: Env, core: Core, c: Call, a: ActionCtx, o: seq<Option<Handle>>, now: nat)
    requires SlotsAgree(core) && Accepts(core, c) && IsThreadCall(c)
    ensures var (mid, rsp) := Handled(env, core, c, o, now);
            && Shape(mid) && InRange(mid, c)
            && Complete(mid, c, rsp) == Stopped(env, core, c, a, o, now)
  {
    if c.CDisable? {
      assert HasSlot(core, c.p);
    }
  }

  lemma WithLowShape(core: Core, p: nat, tb: nat, low: LowTable)
    requires Shape(core) && p < |core.pipes| && tb < |core.pipes[p].tables|
    ensures Shape(WithLow(core, p, tb, low))
    ensures WithLow(core, p, tb, core.rte[p][tb]) == core
  {
    var core' := WithLow(core, p, tb, low);
    assert forall k :: 0 <= k < |core.pipes| ==> |core'.rte[k]| == |core.rte[k]|;
    assert core.rte[p][tb := core.rte[p][tb]] == core.rte[p];
    assert core.rte[p := core.rte[p]] == core.rte;
  }

  lemma WithShadowSame(core: Core, p: nat, tb: nat)
    requires p < |core.pipes| && tb < |core.pipes[p].tables|
    ensures WithShadow(core, p, tb, core.pipes[p].tables[tb].rules, core.pipes[p].tables[tb].dflt) == core
  {
    var pl := core.pipes[p];
    assert pl.tables[tb := pl.tables[tb]] == pl.tables;
    assert core.pipes[p := pl] == core.pipes;
  }

  lemma TablePathsAgree(env: Env, core: Core, c: Call, o: seq<Option<Handle>>, now: nat)
    requires SlotsAgree(core) && Accepts(core, c) && !IsThreadCall(c) && core.pipes[c.p].enabled && HasSlot(core, c.p)
    ensures var (mid, rsp) := Handled(env, core, c, o, now);
            && Shape(mid) && InRange(mid, c)
            && Complete(mid, c, rsp) == Stopped(env, core, c, SlotCtx(core, c), o, now)
  {
    if c.CBulk? { BulkPathsAgree(env, core, c, o, now); } else { SinglePathsAgree(env, core, c, o, now); }
  }

  lemma BulkPathsAgree(env: Env, core: Core, c: Call, o: seq<Option<Handle>>, now: nat)
    requires SlotsAgree(core) && Accepts(core, c) && c.CBulk? && core.pipes[c.p].enabled && HasSlot(core, c.p)
    ensures var (mid, rsp) := Handled(env, core, c, o, now);
            && Shape(mid) && InRange(mid, c)
            && Complete(mid, c, rsp) == Stopped(env, core, c, SlotCtx(core, c), o, now)
  {
    var (mid, rsp) := Handled(env, core, c, o, now);
    var (p, tb) := (c.p, c.tb);
    var slots := core.thr[core.pipes[p].tid].slots;
    assert SlotMatches(core, core.pipes[p].tid, FindSlot(slots, p));
    WithLowShape(core, p, tb, core.rte[p][tb]);
    WithShadowSame(core, p, tb);
    var r := LowBulk(env, SlotCtx(core, c), core.rte[p][tb], c.list, IsBulkTable(core, p, tb), o);
    if r.Some? {
      WithLowShape(core, p, tb, r.value.0);
      assert rsp.list[..rsp.nRules] == WithData(c.list, r.value.1);
    }
  }

  lemma SinglePathsAgree(env: Env, core: Core, c: Call, o: seq<Option<Handle>>, now: nat)
    requires SlotsAgree(core) && Accepts(core, c) && !IsThreadCall(c) && !c.CBulk?
    requires core.pipes[c.p].enabled && HasSlot(core, c.p)
    ensures var (mid, rsp) := Handled(env, core, c, o, now);
            && Shape(mid) && InRange(mid, c)
            && Complete(mid, c, rsp) == Stopped(env, core, c, SlotCtx(core, c), o, now)
  {
    var (mid, rsp) := Handled(env, core, c, o, now);
    var (p, tb) := (c.p, c.tb);
    var slots := core.thr[core.pipes[p].tid].slots;
    assert SlotMatches(core, core.pipes[p].tid, FindSlot(slots, p));
    WithLowShape(core, p, tb, core.rte[p][tb]);
    WithLowShape(core, p, tb, mid.rte[p][tb]);
    WithShadowSame(core, p, tb);
    if c.CDelete? { CheckedConverts(c.m, core.pipes[p].tables[tb].params); }
  }

  /**
   * Message path and direct path: same result, same shadow lists, low-level tables, slots and flags.
   * The handler works with the slot's copy of the action context, which is the table's own for
   * every table that existed when the pipeline was enabled.
   */
  lemma PathsAgree(env: Env, core: Core, c: Call, o: seq<Option<Handle>>, now: nat)
    requires SlotsAgree(core) && Accepts(core, c) && Running(core, c)
    ensures !IsThreadCall(c) ==> HasSlot(core, c.p)
    ensures var (mid, rsp) := Handled(env, core, c, o, now);
            && Shape(mid) && InRange(mid, c)
            && Complete(mid, c, rsp) == Stopped(env, core, c, SlotCtx(core, c), o, now)
    ensures TableKnown(core, c) ==> SlotCtx(core, c) == TableCtx(core, c)
  {
    assert !IsThreadCall(c) ==> HasSlot(core, c.p);
    if IsThreadCall(c) {
      ThreadPathsAgree(env, core, c, 0, o, now);
    } else {
      TablePathsAgree(env, core, c, o, now);
      var slots := core.thr[core.pipes[c.p].tid].slots;
      assert SlotMatches(core, core.pipes[c.p].tid, FindSlot(slots, c.p));
    }
  }
}
