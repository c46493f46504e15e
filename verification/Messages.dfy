/**
 * The main thread, the data-plane threads and the message rings as one step system
 * (processing/dpdk_pipeline/thread.c:160-254, 432-556, 738-770, 2200-2227, 3045-3157). The main
 * thread writes a request into a block, enqueues it and spins until a response arrives; each
 * data-plane thread polls the rings of its pipelines and its own, at any time and in any order.
 * Every enqueue, dequeue and handler is a step of its own, so a run is any interleaving.
 */
module Messages {
  import opened Prelude
  import opened Rules
  import opened Checks
  import opened Tables
  import opened Threads
  import opened Control
  import opened ControlInv

  /** `THREAD_MSGQ_SIZE` and `PIPELINE_MSGQ_SIZE`; an rte ring of this size holds one block less. */
  const RING_CAPACITY := 63

  /** A ring pair: that of a thread or that of a pipeline. */
  datatype Dst = ToThread(t: nat) | ToPipe(q: nat)

  /** A message block. The response overwrites the request; `o` and `now` record what the handler met. */
  datatype Msg = MReq(id: nat, req: Req) | MRsp(id: nat, rsp: Rsp, o: seq<Option<Handle>>, now: nat)

  /** Where a data-plane thread is: polling, or holding a block before or after handling it. */
  datatype Work =
    | Poll
    | PipeGot(j: nat, msg: Msg) | PipeReply(j: nat, msg: Msg)
    | ThreadGot(msg: Msg) | ThreadReply(msg: Msg)

  /** Where the main thread is; `pre` remembers the state at the call, no step reads it. */
  datatype MainPc =
    | Idle
    | Sending(c: Call, msg: Msg, pre: Core)
    | Waiting(c: Call, id: nat, pre: Core)
    | Received(c: Call, msg: Msg, pre: Core)

  datatype Sys = Sys(core: Core, work: seq<Work>, req: map<Dst, seq<Msg>>, rsp: map<Dst, seq<Msg>>,
                     main: MainPc, ret: Ret, nextId: nat, freed: seq<nat>, clock: nat)

  datatype Event =
    | ETick(now: nat)
    | ECreate(periodMs: nat) | EPortIn(p: nat) | EPortOut(p: nat)
    | ETable(p: nat, params: MatchParams, profile: Profile, a: ActionCtx)
    | ELaunch(t: nat)
    | ECall(c: Call, o: seq<Option<Handle>>) | ESend | ERecv | EFinish
    | EPick(t: nat, j: nat) | EPickThread(t: nat) | EHandle(t: nat, o: seq<Option<Handle>>) | EReply(t: nat)

  function Q(m: map<Dst, seq<Msg>>, d: Dst): seq<Msg> { if d in m then m[d] else [] }

  function DstOf(c: Call): Dst { if IsThreadCall(c) then ToThread(c.t) else ToPipe(c.p) }

  // ---- Steps ----

  predicate SysShape(s: Sys) { Shape(s.core) && |s.work| == |s.core.thr| }

  predicate SlotLive(s: Sys, t: nat, j: nat)
    requires SysShape(s)
  {
    t < |s.core.thr| && j < s.core.thr[t].slots.n
  }

  /** A table creation that `pipeline_table_create` refuses changes nothing and is no step. */
  predicate Enabled(s: Sys, e: Event)
    requires SysShape(s)
  {
    match e
    case ETick(now) => s.clock <= now
    case ECreate(periodMs) => s.main.Idle? && periodMs != 0
    case EPortIn(p) => s.main.Idle? && p < |s.core.pipes|
    case EPortOut(p) => s.main.Idle? && p < |s.core.pipes|
    case ETable(p, params, _, _) =>
      s.main.Idle? && p < |s.core.pipes| && |s.core.pipes[p].tables| < TABLES_MAX && Creatable(params)
    case ELaunch(t) => s.main.Idle? && t < |s.core.thr|
    case ECall(_, _) => s.main.Idle?
    case ESend => s.main.Sending? && |Q(s.req, DstOf(s.main.c))| < RING_CAPACITY
    case ERecv => s.main.Waiting? && Q(s.rsp, DstOf(s.main.c)) != []
    case EFinish => s.main.Received? && s.main.msg.MRsp? && InRange(s.core, s.main.c)
    case EPick(t, j) =>
      && SlotLive(s, t, j) && s.core.thr[t].running && s.work[t].Poll?
      && Q(s.req, ToPipe(s.core.thr[t].slots.pd[j].q)) != []
    case EPickThread(t) =>
      t < |s.work| && s.core.thr[t].running && s.work[t].Poll? && Q(s.req, ToThread(t)) != []
    case EHandle(t, _) =>
      && t < |s.work|
      && ((s.work[t].PipeGot? && SlotLive(s, t, s.work[t].j) && s.work[t].msg.MReq?)
          || (s.work[t].ThreadGot? && s.work[t].msg.MReq?))
    case EReply(t) =>
      && t < |s.work|
      && ((s.work[t].PipeReply? && SlotLive(s, t, s.work[t].j)) || s.work[t].ThreadReply?)
      && |Q(s.rsp, ReplyDst(s, t))| < RING_CAPACITY
  }

  /** The ring that thread `t` answers on. */
  function ReplyDst(s: Sys, t: nat): Dst
    requires SysShape(s) && t < |s.work|
  {
    if s.work[t].PipeReply? && SlotLive(s, t, s.work[t].j) then ToPipe(s.core.thr[t].slots.pd[s.work[t].j].q)
    else ToThread(t)
  }

  function WithTable(core: Core, p: nat, tbl: TableRec): Core
    requires Shape(core) && p < |core.pipes|
  {
    core.(pipes := core.pipes[p := core.pipes[p].(tables := core.pipes[p].tables + [tbl])],
          rte := core.rte[p := core.rte[p] + [EmptyLow(tbl.params)]])
  }

  function Push(m: map<Dst, seq<Msg>>, d: Dst, x: Msg): map<Dst, seq<Msg>> { m[d := Q(m, d) + [x]] }

  function Pop(m: map<Dst, seq<Msg>>, d: Dst): map<Dst, seq<Msg>>
    requires Q(m, d) != []
  {
    m[d := Q(m, d)[1..]]
  }

  function Next(env: Env, s: Sys, e: Event): Sys
    requires SysShape(s) && Enabled(s, e)
  {
    match e
    case ETick(now) => s.(clock := now)
    case ECreate(periodMs) =>
      s.(core := s.core.(pipes := s.core.pipes + [Pipeline(0, 0, [], periodMs, false, 0)], rte := s.core.rte + [[]]))
    case EPortIn(p) => s.(core := s.core.(pipes := s.core.pipes[p := s.core.pipes[p].(nIn := s.core.pipes[p].nIn + 1)]))
    case EPortOut(p) =>
      s.(core := s.core.(pipes := s.core.pipes[p := s.core.pipes[p].(nOut := s.core.pipes[p].nOut + 1)]))
    case ETable(p, params, profile, a) => s.(core := WithTable(s.core, p, TableRec(params, profile, a, [], None)))
    case ELaunch(t) => s.(core := s.core.(thr := s.core.thr[t := s.core.thr[t].(running := true)]))
    case ECall(c, o) =>
      if !Accepts(s.core, c) then s.(ret := Refusal(s.core, c))
      else if Running(s.core, c) then
        s.(main := Sending(c, MReq(s.nextId, ReqOf(s.core, c)), s.core), nextId := s.nextId + 1)
      else
        var (core, ret) := Stopped(env, s.core, c, TableCtx(s.core, c), o, s.clock);
        s.(core := core, ret := ret)
    case ESend =>
      s.(req := Push(s.req, DstOf(s.main.c), s.main.msg), main := Waiting(s.main.c, s.main.msg.id, s.main.pre))
    case ERecv =>
      var d := DstOf(s.main.c);
      s.(rsp := Pop(s.rsp, d), main := Received(s.main.c, Q(s.rsp, d)[0], s.main.pre))
    case EFinish =>
      var (core, ret) := Complete(s.core, s.main.c, s.main.msg.rsp);
      s.(core := core, ret := ret, main := Idle, freed := s.freed + [s.main.msg.id])
    case EPick(t, j) =>
      var d := ToPipe(s.core.thr[t].slots.pd[j].q);
      s.(req := Pop(s.req, d), work := s.work[t := PipeGot(j, Q(s.req, d)[0])])
    case EPickThread(t) =>
      s.(req := Pop(s.req, ToThread(t)), work := s.work[t := ThreadGot(Q(s.req, ToThread(t))[0])])
    case EHandle(t, o) =>
      var m := s.work[t].msg;
      if s.work[t].ThreadGot? then
        var (core, rsp) := HandleThread(s.core, t, m.req, s.clock);
        s.(core := core, work := s.work[t := ThreadReply(MRsp(m.id, rsp, o, s.clock))])
      else
        var j := s.work[t].j;
        var (core, rsp) := HandlePipe(env, s.core, s.core.thr[t].slots.pd[j], m.req, o);
        s.(core := core, work := s.work[t := PipeReply(j, MRsp(m.id, rsp, o, s.clock))])
    case EReply(t) =>
      s.(rsp := Push(s.rsp, ReplyDst(s, t), s.work[t].msg), work := s.work[t := Poll])
  }

  /** Before any thread or pipeline call: no pipelines, empty slot arrays, empty rings. */
  predicate Initial(s: Sys) {
    && SysShape(s) && s.core.pipes == [] && s.core.rte == []
    && (forall t :: 0 <= t < |s.core.thr| ==> s.core.thr[t].slots.n == 0 && s.work[t] == Poll)
    && s.req == map[] && s.rsp == map[] && s.main == Idle && s.nextId == 0 && s.freed == []
  }

  // ---- Who holds a message block ----

  datatype Place = AtMain | InReq(d: Dst, i: nat) | InRsp(d: Dst, i: nat) | AtWorker(t: nat)

  /** The block at a place, if there is one. */
  function Held(s: Sys, pl: Place): Option<nat> {
    match pl
    case AtMain => if s.main.Sending? || s.main.Received? then Some(s.main.msg.id) else None
    case InReq(d, i) => if i < |Q(s.req, d)| then Some(Q(s.req, d)[i].id) else None
    case InRsp(d, i) => if i < |Q(s.rsp, d)| then Some(Q(s.rsp, d)[i].id) else None
    case AtWorker(t) => if t < |s.work| && !s.work[t].Poll? then Some(s.work[t].msg.id) else None
  }

  function Range(n: nat): seq<nat> { if n == 0 then [] else Range(n - 1) + [n - 1] }

  // ---- The invariant ----

  ghost predicate RingsEmptyBut(s: Sys, d: Option<Dst>) {
    forall x :: Some(x) != d ==> Q(s.req, x) == [] && Q(s.rsp, x) == []
  }

  ghost predicate WorkersPollBut(s: Sys, t: Option<nat>) {
    forall u :: 0 <= u < |s.work| && Some(u) != t ==> s.work[u] == Poll
  }

  ghost predicate Quiet(s: Sys) { RingsEmptyBut(s, None) && WorkersPollBut(s, None) }

  /** A call was accepted in a good state, its thread runs. */
  ghost predicate Pending(pre: Core, c: Call) { SlotsAgree(pre) && Accepts(pre, c) && Running(pre, c) }

  /** The thread that serves a pending call. */
  function ServerOf(pre: Core, c: Call): nat
    requires InRange(pre, c)
  {
    if IsThreadCall(c) then c.t else pre.pipes[c.p].tid
  }

  /** What the server holds after taking the request. */
  ghost predicate Took(pre: Core, c: Call, w: Work, id: nat)
    requires Pending(pre, c)
  {
    if IsThreadCall(c) then w == ThreadGot(MReq(id, ReqOf(pre, c)))
    else w == PipeGot(FindSlot(pre.thr[ServerOf(pre, c)].slots, c.p), MReq(id, ReqOf(pre, c)))
  }

  /** `m` is the answer to the call and `core` the state that the handler left. */
  ghost predicate Answers(env: Env, pre: Core, c: Call, core: Core, m: Msg, id: nat)
    requires Pending(pre, c)
  {
    assert !IsThreadCall(c) ==> HasSlot(pre, c.p);
    m.MRsp? && m.id == id && (core, m.rsp) == Handled(env, pre, c, m.o, m.now)
  }

  ghost predicate Answering(env: Env, pre: Core, c: Call, core: Core, w: Work, id: nat)
    requires Pending(pre, c)
  {
    && (if IsThreadCall(c) then w.ThreadReply?
        else w.PipeReply? && w.j == FindSlot(pre.thr[ServerOf(pre, c)].slots, c.p))
    && Answers(env, pre, c, core, w.msg, id)
  }

  /** The one block in flight is on the request ring, with the server, or on the response ring. */
  ghost predicate InFlight(env: Env, s: Sys, c: Call, id: nat, pre: Core)
    requires SysShape(s) && Pending(pre, c) && |pre.thr| == |s.work|
  {
    var (d, t) := (DstOf(c), ServerOf(pre, c));
    var (rq, rs) := (Q(s.req, d), Q(s.rsp, d));
    && t < |s.work| && RingsEmptyBut(s, Some(d)) && WorkersPollBut(s, Some(t))
    && (|| (rq == [MReq(id, ReqOf(pre, c))] && rs == [] && s.work[t] == Poll && s.core == pre)
        || (rq == [] && rs == [] && Took(pre, c, s.work[t], id) && s.core == pre)
        || (rq == [] && rs == [] && Answering(env, pre, c, s.core, s.work[t], id))
        || (rq == [] && |rs| == 1 && s.work[t] == Poll && Answers(env, pre, c, s.core, rs[0], id)))
  }

  ghost predicate Inv(env: Env, s: Sys) {
    SysShape(s) &&
    match s.main
    case Idle => SlotsAgree(s.core) && Quiet(s) && s.freed == Range(s.nextId)
    case Sending(c, m, pre) =>
      && s.core == pre && Pending(pre, c) && Quiet(s)
      && m.MReq? && m.req == ReqOf(pre, c) && s.nextId == m.id + 1 && s.freed == Range(m.id)
    case Waiting(c, id, pre) =>
      && Pending(pre, c) && |pre.thr| == |s.work| && InFlight(env, s, c, id, pre)
      && s.nextId == id + 1 && s.freed == Range(id)
    case Received(c, m, pre) =>
      && Pending(pre, c) && Quiet(s) && Answers(env, pre, c, s.core, m, m.id)
      && s.nextId == m.id + 1 && s.freed == Range(m.id)
  }

  lemma InitialInv(env: Env, s: Sys)
    requires Initial(s)
    ensures Inv(env, s)
  {
  }

  // ---- Setup steps ----

  lemma CreateKeepsInv(env: Env, s: Sys, e: Event)
    requires Inv(env, s) && Enabled(s, e) && e.ECreate?
    ensures Inv(env, Next(env, s, e))
  {
    var core, core' := s.core, Next(env, s, e).core;
    forall t, i | 0 <= t < |core'.thr| && 0 <= i < core'.thr[t].slots.n ensures SlotMatches(core', t, i) {
      assert SlotMatches(core, t, i);
    }
    forall t | 0 <= t < |core'.thr| ensures DistinctSlots(core'.thr[t].slots) {
      assert DistinctSlots(core.thr[t].slots);
    }
    forall p | 0 <= p < |core'.pipes| ensures HasSlot(core', p) {
      if p < |core.pipes| { assert HasSlot(core, p); }
    }
  }

  lemma LaunchKeepsInv(env: Env, s: Sys, e: Event)
    requires Inv(env, s) && Enabled(s, e) && e.ELaunch?
    ensures Inv(env, Next(env, s, e))
  {
    var core, core' := s.core, Next(env, s, e).core;
    forall t, i | 0 <= t < |core'.thr| && 0 <= i < core'.thr[t].slots.n ensures SlotMatches(core', t, i) {
      assert SlotMatches(core, t, i);
    }
    forall t | 0 <= t < |core'.thr| ensures DistinctSlots(core'.thr[t].slots) {
      assert DistinctSlots(core.thr[t].slots);
    }
    forall p | 0 <= p < |core'.pipes| ensures HasSlot(core', p) { assert HasSlot(core, p); }
  }

  lemma GrowKeepsInv(env: Env, s: Sys, e: Event)
    requires Inv(env, s) && Enabled(s, e) && (e.EPortIn? || e.EPortOut? || e.ETable?)
    ensures Inv(env, Next(env, s, e))
  {
    var core, core' := s.core, Next(env, s, e).core;
    forall p | 0 <= p < |core.pipes| ensures SamePipeline(core.pipes[p], core'.pipes[p]) {
    }
    SamePipesKeepSlots(core, core');
  }

  // ---- Main-thread steps ----

  lemma CallKeepsInv(env: Env, s: Sys, e: Event)
    requires Inv(env, s) && Enabled(s, e) && e.ECall?
    ensures Inv(env, Next(env, s, e))
  {
    if Accepts(s.core, e.c) && !Running(s.core, e.c) {
      CallKeepsSlots(env, s.core, e.c, TableCtx(s.core, e.c), e.o, s.clock);
      StoppedKeepsThreadCount(env, s.core, e.c, TableCtx(s.core, e.c), e.o, s.clock);
    }
  }

  lemma StoppedKeepsThreadCount(env: Env, core: Core, c: Call, a: ActionCtx, o: seq<Option<Handle>>, now: nat)
    requires Shape(core) && Accepts(core, c)
    ensures |Stopped(env, core, c, a, o, now).0.thr| == |core.thr|
  {
  }

  lemma ServerIsAThread(pre: Core, c: Call)
    requires Pending(pre, c)
    ensures ServerOf(pre, c) < |pre.thr|
    ensures !IsThreadCall(c) ==>
              && FindSlot(pre.thr[ServerOf(pre, c)].slots, c.p) < pre.thr[ServerOf(pre, c)].slots.n
              && pre.thr[ServerOf(pre, c)].slots.pd[FindSlot(pre.thr[ServerOf(pre, c)].slots, c.p)].q == c.p
  {
    if !IsThreadCall(c) {
      assert HasSlot(pre, c.p);
      assert SlotMatches(pre, ServerOf(pre, c), FindSlot(pre.thr[ServerOf(pre, c)].slots, c.p));
    }
  }

  lemma SendKeepsInv(env: Env, s: Sys)
    requires Inv(env, s) && s.main.Sending?
    ensures Enabled(s, ESend) && Inv(env, Next(env, s, ESend))
  {
    ServerIsAThread(s.main.pre, s.main.c);
    var d := DstOf(s.main.c);
    assert Q(s.req, d) == [] && Q(s.rsp, d) == [];
    var s' := Next(env, s, ESend);
    assert Q(s'.req, d) == [s.main.msg];
  }

  lemma HandledKeepsThreadCount(env: Env, pre: Core, c: Call, o: seq<Option<Handle>>, now: nat)
    requires Pending(pre, c) && (!IsThreadCall(c) ==> HasSlot(pre, c.p))
    ensures |Handled(env, pre, c, o, now).0.thr| == |pre.thr|
  {
  }

  lemma RecvKeepsInv(env: Env, s: Sys)
    requires Inv(env, s) && Enabled(s, ERecv)
    ensures Inv(env, Next(env, s, ERecv))
  {
  }

  lemma FinishKeepsInv(env: Env, s: Sys)
    requires Inv(env, s) && s.main.Received?
    ensures Enabled(s, EFinish) && Inv(env, Next(env, s, EFinish))
    ensures var (c, m, pre) := (s.main.c, s.main.msg, s.main.pre);
            && (!IsThreadCall(c) ==> HasSlot(pre, c.p))
            && (Next(env, s, EFinish).core, Next(env, s, EFinish).ret) ==
               Stopped(env, pre, c, SlotCtx(pre, c), m.o, m.now)
            && (TableKnown(pre, c) ==> SlotCtx(pre, c) == TableCtx(pre, c))
  {
    var (c, m, pre) := (s.main.c, s.main.msg, s.main.pre);
    PathsAgree(env, pre, c, m.o, m.now);
    CallKeepsSlots(env, pre, c, SlotCtx(pre, c), m.o, m.now);
    StoppedKeepsThreadCount(env, pre, c, SlotCtx(pre, c), m.o, m.now);
    HandledKeepsThreadCount(env, pre, c, m.o, m.now);
  }

  // ---- Data-plane steps ----

  /** Only the server of the pending call finds a request, on the ring that the call used. */
  lemma PickIsServer(env: Env, s: Sys, t: nat, j: nat)
    requires Inv(env, s) && Enabled(s, EPick(t, j))
    ensures s.main.Waiting? && !IsThreadCall(s.main.c) && s.core == s.main.pre
    ensures t == ServerOf(s.main.pre, s.main.c) && j == FindSlot(s.core.thr[t].slots, s.main.c.p)
    ensures s.core.thr[t].slots.pd[j].q == s.main.c.p
  {
    var slot := s.core.thr[t].slots.pd[j];
    assert Q(s.req, ToPipe(slot.q)) != [];
    assert s.core == s.main.pre;
    assert SlotMatches(s.core, t, j);
    assert DistinctSlots(s.core.thr[t].slots);
  }

  lemma PickKeepsInv(env: Env, s: Sys, e: Event)
    requires Inv(env, s) && Enabled(s, e) && (e.EPick? || e.EPickThread?)
    ensures Inv(env, Next(env, s, e))
  {
    if e.EPick? { PickIsServer(env, s, e.t, e.j); }
  }

  /** A thread that holds a request is the server of the pending call, and its handler is `Handled`. */
  lemma HandleIsHandled(env: Env, s: Sys, e: Event)
    requires Inv(env, s) && Enabled(s, e) && e.EHandle?
    ensures s.main.Waiting? && s.core == s.main.pre && e.t == ServerOf(s.main.pre, s.main.c)
    ensures Took(s.core, s.main.c, s.work[e.t], s.main.id)
    ensures !IsThreadCall(s.main.c) ==> HasSlot(s.core, s.main.c.p)
    ensures var (core, rsp) := Handled(env, s.core, s.main.c, e.o, s.clock);
            var m := MRsp(s.main.id, rsp, e.o, s.clock);
            Next(env, s, e) == s.(core := core, work := s.work[e.t := if IsThreadCall(s.main.c) then ThreadReply(m)
                                                                      else PipeReply(s.work[e.t].j, m)])
  {
    ServerIsAThread(s.main.pre, s.main.c);
    assert Took(s.main.pre, s.main.c, s.work[e.t], s.main.id);
    assert !IsThreadCall(s.main.c) ==> HasSlot(s.main.pre, s.main.c.p);
  }

  lemma HandleKeepsInv(env: Env, s: Sys, e: Event)
    requires Inv(env, s) && Enabled(s, e) && e.EHandle?
    ensures Inv(env, Next(env, s, e))
  {
    var (c, id, pre) := (s.main.c, s.main.id, s.main.pre);
    HandleIsHandled(env, s, e);
    HandledKeepsThreadCount(env, pre, c, e.o, s.clock);
    PathsAgree(env, pre, c, e.o, s.clock);
    var s' := Next(env, s, e);
    AnsweringKeepsInv(env, s, s'.core, s'.work[e.t]);
  }

  /** The server has put the answer in the place of the request. */
  lemma AnsweringKeepsInv(env: Env, s: Sys, core: Core, w: Work)
    requires Inv(env, s) && s.main.Waiting? && ServerOf(s.main.pre, s.main.c) < |s.work|
    requires Took(s.main.pre, s.main.c, s.work[ServerOf(s.main.pre, s.main.c)], s.main.id)
    requires Answering(env, s.main.pre, s.main.c, core, w, s.main.id)
    requires Shape(core) && |core.thr| == |s.work|
    ensures Inv(env, s.(core := core, work := s.work[ServerOf(s.main.pre, s.main.c) := w]))
  {
  }

  lemma ReplyKeepsInv(env: Env, s: Sys, e: Event)
    requires Inv(env, s) && Enabled(s, e) && e.EReply?
    ensures Inv(env, Next(env, s, e))
  {
    var (c, id, pre) := (s.main.c, s.main.id, s.main.pre);
    ServerIsAThread(pre, c);
    assert Answering(env, pre, c, s.core, s.work[e.t], id);
    AnswerKeepsSlotOfTableCall(env, pre, c, s.work[e.t].msg.o, s.work[e.t].msg.now);
    assert ReplyDst(s, e.t) == DstOf(c);
  }

  /** Handling a table call does not touch the slots. */
  lemma AnswerKeepsSlotOfTableCall(env: Env, pre: Core, c: Call, o: seq<Option<Handle>>, now: nat)
    requires Pending(pre, c) && (!IsThreadCall(c) ==> HasSlot(pre, c.p))
    ensures !IsThreadCall(c) ==> Handled(env, pre, c, o, now).0.thr == pre.thr
  {
  }

  /** Every step of every interleaving keeps the invariant. */
  lemma StepKeepsInv(env: Env, s: Sys, e: Event)
    requires Inv(env, s) && Enabled(s, e)
    ensures Inv(env, Next(env, s, e))
  {
    match e
    case ETick(_) =>
    case ECreate(_) => CreateKeepsInv(env, s, e);
    case EPortIn(_) => GrowKeepsInv(env, s, e);
    case EPortOut(_) => GrowKeepsInv(env, s, e);
    case ETable(_, _, _, _) => GrowKeepsInv(env, s, e);
    case ELaunch(_) => LaunchKeepsInv(env, s, e);
    case ECall(_, _) => CallKeepsInv(env, s, e);
    case ESend => SendKeepsInv(env, s);
    case ERecv => RecvKeepsInv(env, s);
    case EFinish => FinishKeepsInv(env, s);
    case EPick(_, _) => PickKeepsInv(env, s, e);
    case EPickThread(_) => PickKeepsInv(env, s, e);
    case EHandle(_, _) => HandleKeepsInv(env, s, e);
    case EReply(_) => ReplyKeepsInv(env, s, e);
  }
}
