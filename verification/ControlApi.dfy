/**
 * The methods on table objects are the transitions of module Control: the direct call, the handler of
 * the data plane, and what the main thread does with the response
 * (processing/dpdk_pipeline/thread.c:1360-1775, 2789-2942, 3045-3140). The handler of a thread's own
 * queue is the request function of module Threads, and its enables find no slot of their pipeline.
 */
module ControlApi {
  import opened Prelude
  import opened Rules
  import opened RuleList
  import opened Tables
  import opened TableApi
  import opened Threads
  import opened Control
  import opened ControlInv
  import opened Messages
  import MessageRuns
  import Scheduler

  /** A table call on a stopped pipeline. */
  method StoppedTableCall(env: Env, table: Table, low: LowTableObject, c: Call, a: ActionCtx, bulk: bool,
                          o: seq<Option<Handle>>, ghost core: Core, ghost now: nat) returns (ret: Ret)
    requires Shape(core) && Accepts(core, c) && !IsThreadCall(c) && bulk == IsBulkTable(core, c.p, c.tb)
    requires PairOf(table, low) == PairAt(core, c.p, c.tb)
    modifies table, low
    ensures Stopped(env, core, c, a, o, now) == (WithPair(core, c.p, c.tb, PairOf(table, low)), ret)
  {
    var ok;
    match c
    case CAdd(_, _, m, act) =>
      ok := RuleAddStopped(env, a, table, low, m, act, First(o));
      ret := Ret(ok, 0, 0);
    case CBulk(_, _, list) =>
      var added, rest;
      ok, added, rest := RuleAddBulkStopped(env, a, table, low, list, bulk, o);
      ret := Ret(ok, added, rest);
    case CDelete(_, _, m) =>
      ok := RuleDeleteStopped(table, low, m, First(o).Some?);
      ret := Ret(ok, 0, 0);
    case CDefAdd(_, _, act) =>
      ok := DefaultAddStopped(table, low, act, First(o), NO_MATCH);
      ret := Ret(ok, 0, 0);
    case CDefDelete(_, _) =>
      ok := DefaultDeleteStopped(table, low, First(o).Some?);
      ret := Ret(ok, 0, 0);
  }

  /** `pipeline_msg_handle` of one request for a table that the pipeline has. */
  method PipelineMsgHandle(env: Env, slot: Slot, low: LowTableObject, r: Req, o: seq<Option<Handle>>, ghost core: Core)
    returns (rsp: Rsp)
    requires Shape(core) && !r.REnable? && !r.RDisable?
    requires slot.p < |core.pipes| && r.tb < |core.pipes[slot.p].tables|
    requires low.Value() == core.rte[slot.p][r.tb]
    modifies low
    ensures HandlePipe(env, core, slot, r, o) == (WithLow(core, slot.p, r.tb, low.Value()), rsp)
  {
    WithLowShape(core, slot.p, r.tb, low.Value());
    var a := slot.tabs[r.tb];
    rsp := RSP_FAIL;
    match r
    case RAdd(_, m, act) =>
      var h := HandleRuleAdd(env, a, low, m, act, First(o));
      if h.Some? { rsp := Rsp(true, h.value, 0, []); }
    case RBulk(_, list, bulk) =>
      var ok, n, list' := HandleRuleAddBulk(env, a, low, list, bulk, o);
      if ok { rsp := Rsp(true, 0, n, list'); }
    case RDelete(_, m) =>
      var ok := HandleRuleDelete(low, m, First(o).Some?);
      rsp := Rsp(ok, 0, 0, []);
    case RDefAdd(_, act) =>
      var h := HandleDefaultAdd(low, act, First(o));
      if h.Some? { rsp := Rsp(true, h.value, 0, []); }
    case RDefDelete(_) =>
      var ok := HandleDefaultDelete(low, First(o).Some?);
      if ok { rsp := RSP_OK; }
  }

  /** What the main thread does with the response to a table call. */
  method CompleteTableCall(table: Table, c: Call, rsp: Rsp, ghost core: Core) returns (ret: Ret)
    requires Shape(core) && InRange(core, c) && !IsThreadCall(c)
    requires var t := core.pipes[c.p].tables[c.tb]; table.rules == t.rules && table.ruleDefault == t.dflt
    modifies table
    ensures Complete(core, c, rsp) == (WithShadow(core, c.p, c.tb, table.rules, table.ruleDefault), ret)
  {
    WithShadowSame(core, c.p, c.tb);
    if !rsp.ok {
      return FAIL;
    }
    ret := OK;
    match c
    case CAdd(_, _, m, act) => table.Add(Rule(m, act, rsp.data));
    case CBulk(_, _, _) =>
      var rest := table.AddBulk(rsp.list, rsp.nRules);
      ret := Ret(true, rsp.nRules, |rest|);
    case CDelete(_, _, m) => table.Delete(m);
    case CDefAdd(_, _, act) => table.DefaultAdd(Rule(NO_MATCH, act, rsp.data));
    case CDefDelete(_, _) => table.DefaultDelete();
  }

  // ---- The queue of a thread ----

  /** A request of a thread's own queue, as module Threads sees it. */
  function ThreadReqOf(hz: nat, r: Req, now: nat): ThreadReq
    requires r.REnable? || r.RDisable?
  {
    if r.REnable? then ReqEnable(r.rte, r.tabs, r.q, Period(hz, r.periodMs), now) else ReqDisable(r.rte)
  }

  /** The handler changes the slots of its thread as `HandleReq` says, and nothing else. */
  lemma ThreadHandlerIsRequest(core: Core, t: nat, r: Req, now: nat)
    requires Shape(core) && t < |core.thr| && (r.REnable? || r.RDisable?) && ReqOk(ThreadReqOf(core.hz, r, now))
    ensures HandleThread(core, t, r, now).0
            == WithSlots(core, t, HandleReq(core.thr[t].slots, ThreadReqOf(core.hz, r, now)))
  {
    assert core.thr[t := core.thr[t]] == core.thr;
  }

  /** An accepted enable finds no slot of its pipeline, as the runs of module Scheduler take for granted. */
  lemma AcceptedEnableMayRun(core: Core, t: nat, p: nat, clock: nat, now: nat)
    requires SlotsAgree(core) && Accepts(core, CEnable(t, p)) && clock <= now
    ensures Scheduler.ReqMayRun(core.thr[t].slots, ThreadReqOf(core.hz, ReqOf(core, CEnable(t, p)), now), clock)
  {
    EnabledIffOneSlot(core, p);
    if Scheduler.Live(core.thr[t].slots, p) { FoundIsThere(core.thr[t].slots, p); }
  }

  lemma FoundIsThere(t: Thr, p: nat)
    requires ThrOk(t) && FindSlot(t, p) < t.n
    ensures exists i :: 0 <= i < t.n && t.pd[i].p == p
  {
    assert t.pd[FindSlot(t, p)].p == p;
  }

  /** In every run, the request that a thread has taken from its own queue may run there. */
  lemma {:induction false} TakenRequestMayRun(env: Env, ss: seq<Sys>, es: seq<Event>, k: nat, t: nat)
    requires MessageRuns.IsRun(env, ss, es) && k < |ss| && t < |ss[k].work| && ss[k].work[t].ThreadGot?
    ensures var (s, m) := (ss[k], ss[k].work[t].msg);
            && SysShape(s) && m.MReq? && (m.req.REnable? || m.req.RDisable?)
            && Scheduler.ReqMayRun(s.core.thr[t].slots, ThreadReqOf(s.core.hz, m.req, s.clock), s.clock)
  {
    MessageRuns.RunKeepsInv(env, ss, es, k);
    var s := ss[k];
    var (c, pre) := (s.main.c, s.main.pre);
    assert s.main.Waiting? && ServerOf(pre, c) == t && Took(pre, c, s.work[t], s.main.id);
    if c.CEnable? { AcceptedEnableMayRun(pre, c.t, c.p, s.clock, s.clock); }
  }
}
