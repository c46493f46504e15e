/** What holds in every run of the message system of module Messages. */
module MessageRuns {
  import opened Prelude
  import opened Rules
  import opened Tables
  import opened Threads
  import opened Control
  import opened ControlInv
  import opened Messages

  /** A run: any sequence of enabled steps from an initial state. */
  ghost predicate IsRun(env: Env, ss: seq<Sys>, es: seq<Event>) {
    && |ss| == |es| + 1 && Initial(ss[0])
    && forall i :: 0 <= i < |es| ==> SysShape(ss[i]) && Enabled(ss[i], es[i]) && ss[i + 1] == Next(env, ss[i], es[i])
  }

  lemma {:induction false} RunKeepsInv(env: Env, ss: seq<Sys>, es: seq<Event>, k: nat)
    requires IsRun(env, ss, es) && k < |ss|
    ensures Inv(env, ss[k])
    decreases k
  {
    if k == 0 {
      InitialInv(env, ss[0]);
    } else {
      RunKeepsInv(env, ss, es, k - 1);
      StepKeepsInv(env, ss[k - 1], es[k - 1]);
    }
  }

  // ---- Message blocks ----

  lemma {:induction false} RangeAt(n: nat)
    ensures |Range(n)| == n && forall i :: 0 <= i < n ==> Range(n)[i] == i
    decreases n
  {
    if n > 0 { RangeAt(n - 1); }
  }

  /** Between calls no block is held anywhere; during a call every block held is the newest. */
  lemma HeldIsNewest(env: Env, s: Sys, pl: Place)
    requires Inv(env, s)
    ensures s.main.Idle? ==> Held(s, pl).None?
    ensures Held(s, pl).Some? ==> Held(s, pl).value == s.nextId - 1
  {
  }

  /** A block is never held in two places. */
  lemma OneBlockInOnePlace(env: Env, s: Sys, pl: Place, pl': Place)
    requires Inv(env, s)
    requires Held(s, pl).Some? && Held(s, pl').Some?
    ensures pl == pl'
  {
    if s.main.Waiting? {
      HeldInFlight(env, s, pl);
      HeldInFlight(env, s, pl');
    }
  }

  /** The place of the block in flight. */
  lemma HeldInFlight(env: Env, s: Sys, pl: Place)
    requires Inv(env, s) && s.main.Waiting? && Held(s, pl).Some?
    ensures var (d, t) := (DstOf(s.main.c), ServerOf(s.main.pre, s.main.c));
            pl == if Q(s.req, d) != [] then InReq(d, 0) else if Q(s.rsp, d) != [] then InRsp(d, 0) else AtWorker(t)
  {
    var (d, t) := (DstOf(s.main.c), ServerOf(s.main.pre, s.main.c));
    assert pl == InReq(d, 0) || pl == InRsp(d, 0) || pl == AtWorker(t);
  }

  lemma BlockIsSomewhere(env: Env, s: Sys)
    requires Inv(env, s) && !s.main.Idle?
    ensures exists pl :: Held(s, pl) == Some(s.nextId - 1)
  {
    if s.main.Waiting? {
      var d, t := DstOf(s.main.c), ServerOf(s.main.pre, s.main.c);
      ServerIsAThread(s.main.pre, s.main.c);
      if Q(s.req, d) != [] {
        assert Held(s, InReq(d, 0)) == Some(s.nextId - 1);
      } else if Q(s.rsp, d) != [] {
        assert Held(s, InRsp(d, 0)) == Some(s.nextId - 1);
      } else {
        assert Held(s, AtWorker(t)) == Some(s.nextId - 1);
      }
    } else {
      assert Held(s, AtMain) == Some(s.nextId - 1);
    }
  }

  /** In every run, the blocks are freed once each, in the order in which they were allocated. */
  lemma EveryBlockFreedOnce(env: Env, ss: seq<Sys>, es: seq<Event>, k: nat)
    requires IsRun(env, ss, es) && k < |ss|
    ensures var s := ss[k];
            && |s.freed| == (if s.main.Idle? then s.nextId else s.nextId - 1)
            && forall i :: 0 <= i < |s.freed| ==> s.freed[i] == i
  {
    RunKeepsInv(env, ss, es, k);
    FreedInOrder(env, ss[k]);
  }

  lemma FreedInOrder(env: Env, s: Sys)
    requires Inv(env, s)
    ensures |s.freed| == (if s.main.Idle? then s.nextId else s.nextId - 1)
    ensures forall i :: 0 <= i < |s.freed| ==> s.freed[i] == i
  {
    FreedIsRange(env, s);
    RangeAt(if s.main.Idle? then s.nextId else s.nextId - 1);
  }

  lemma FreedIsRange(env: Env, s: Sys)
    requires Inv(env, s)
    ensures !s.main.Idle? ==> s.nextId > 0
    ensures s.freed == Range(if s.main.Idle? then s.nextId else s.nextId - 1)
  {
    match s.main
    case Idle =>
    case Sending(_, m, _) => assert s.nextId == m.id + 1 && s.freed == Range(m.id);
    case Waiting(_, id, _) => assert s.nextId == id + 1 && s.freed == Range(id);
    case Received(_, m, _) => assert s.nextId == m.id + 1 && s.freed == Range(m.id);
  }

  /** In every run no ring ever holds more than one block, so that an enqueue never finds it full. */
  lemma EnqueueNeverFull(env: Env, ss: seq<Sys>, es: seq<Event>, k: nat, d: Dst)
    requires IsRun(env, ss, es) && k < |ss|
    ensures |Q(ss[k].req, d)| + |Q(ss[k].rsp, d)| <= 1 < RING_CAPACITY
    ensures SysShape(ss[k])
    ensures ss[k].main.Sending? ==> Enabled(ss[k], ESend)
    ensures forall t :: 0 <= t < |ss[k].work| && (ss[k].work[t].PipeReply? || ss[k].work[t].ThreadReply?)
              ==> Enabled(ss[k], EReply(t))
  {
    RunKeepsInv(env, ss, es, k);
    var s := ss[k];
    forall t | 0 <= t < |s.work| && (s.work[t].PipeReply? || s.work[t].ThreadReply?)
      ensures Enabled(s, EReply(t))
    {
      ServerIsAThread(s.main.pre, s.main.c);
      var m := s.work[t].msg;
      assert Answering(env, s.main.pre, s.main.c, s.core, s.work[t], s.main.id);
      AnswerKeepsSlotOfTableCall(env, s.main.pre, s.main.c, m.o, m.now);
    }
  }

  /** While a disable is being carried out, the rings of its pipeline are empty. */
  lemma DisableLeavesNoRequest(env: Env, ss: seq<Sys>, es: seq<Event>, k: nat)
    requires IsRun(env, ss, es) && k < |ss| && !ss[k].main.Idle? && ss[k].main.c.CDisable?
    ensures Q(ss[k].req, ToPipe(ss[k].main.c.p)) == [] && Q(ss[k].rsp, ToPipe(ss[k].main.c.p)) == []
  {
    RunKeepsInv(env, ss, es, k);
  }

  // ---- Before a pipeline runs ----

  /** A new pipeline is empty and off; ports and tables are added one at a time, a table with no rule on either side. */
  lemma SetupIs(env: Env, s: Sys, e: Event, p: nat)
    requires SysShape(s) && Enabled(s, e) && p < |s.core.pipes|
    ensures var (pl, core') := (s.core.pipes[p], Next(env, s, e).core);
            && (e.ETick? ==> Next(env, s, e) == s.(clock := e.now))
            && (e.ECreate? ==>
                  && core'.pipes == s.core.pipes + [Pipeline(0, 0, [], e.periodMs, false, 0)]
                  && core'.rte == s.core.rte + [[]])
            && (e.EPortIn? && e.p == p ==> core'.pipes == s.core.pipes[p := pl.(nIn := pl.nIn + 1)])
            && (e.EPortOut? && e.p == p ==> core'.pipes == s.core.pipes[p := pl.(nOut := pl.nOut + 1)])
            && (e.ETable? && e.p == p ==>
                  var t := TableRec(e.params, e.profile, e.a, [], None);
                  && core'.pipes == s.core.pipes[p := pl.(tables := pl.tables + [t])]
                  && core'.rte == s.core.rte[p := s.core.rte[p] + [LowTable(e.params, map[], None)]])
            && (e.ECreate? || e.EPortIn? || e.EPortOut? || e.ETable? ==>
                  core'.thr == s.core.thr && core'.hz == s.core.hz)
  {
  }

  // ---- No call gets stuck ----

  /** The main thread is not waiting, or its call is served by one of the threads. */
  predicate Servable(s: Sys) {
    SysShape(s) && (s.main.Waiting? ==> InRange(s.main.pre, s.main.c) && ServerOf(s.main.pre, s.main.c) < |s.work|)
  }

  /** How far the pending call is from its end. */
  function Rank(s: Sys): nat
    requires Servable(s)
  {
    match s.main
    case Idle => 0
    case Received(_, _, _) => 1
    case Waiting(c, _, pre) =>
      var w := s.work[ServerOf(pre, c)];
      if Q(s.rsp, DstOf(c)) != [] then 2
      else if w.PipeReply? || w.ThreadReply? then 3
      else if w.PipeGot? || w.ThreadGot? then 4
      else 5
    case Sending(_, _, _) => 6
  }

  /** A step that brings the pending call closer to its end. */
  function Helpful(s: Sys): Event
    requires Servable(s) && !s.main.Idle?
  {
    match s.main
    case Sending(_, _, _) => ESend
    case Received(_, _, _) => EFinish
    case Waiting(c, _, pre) =>
      var t := ServerOf(pre, c);
      if Q(s.rsp, DstOf(c)) != [] then ERecv
      else if s.work[t].PipeReply? || s.work[t].ThreadReply? then EReply(t)
      else if s.work[t].PipeGot? || s.work[t].ThreadGot? then EHandle(t, [])
      else if IsThreadCall(c) then EPickThread(t)
      else EPick(t, FindSlot(s.core.thr[t].slots, c.p))
  }

  lemma InvIsServable(env: Env, s: Sys)
    requires Inv(env, s)
    ensures Servable(s)
  {
    if s.main.Waiting? { ServerIsAThread(s.main.pre, s.main.c); }
  }

  lemma ReplyStageProgress(env: Env, s: Sys)
    requires Inv(env, s) && s.main.Waiting? && Servable(s)
    requires var w := s.work[ServerOf(s.main.pre, s.main.c)]; w.PipeReply? || w.ThreadReply?
    ensures Helpful(s) == EReply(ServerOf(s.main.pre, s.main.c)) && Enabled(s, Helpful(s))
    ensures Servable(Next(env, s, Helpful(s))) && Rank(Next(env, s, Helpful(s))) < Rank(s)
  {
    var (c, t) := (s.main.c, ServerOf(s.main.pre, s.main.c));
    ReplyIsPossible(env, s);
    var s' := Next(env, s, EReply(t));
    assert Q(s'.rsp, DstOf(c)) == [s.work[t].msg];
  }

  lemma ReplyIsPossible(env: Env, s: Sys)
    requires Inv(env, s) && s.main.Waiting? && Servable(s)
    requires var w := s.work[ServerOf(s.main.pre, s.main.c)]; w.PipeReply? || w.ThreadReply?
    ensures var t := ServerOf(s.main.pre, s.main.c);
            && Enabled(s, EReply(t)) && ReplyDst(s, t) == DstOf(s.main.c) && Q(s.rsp, DstOf(s.main.c)) == []
  {
    var (c, pre) := (s.main.c, s.main.pre);
    var t := ServerOf(pre, c);
    ServerIsAThread(pre, c);
    assert Answering(env, pre, c, s.core, s.work[t], s.main.id);
    AnswerKeepsSlotOfTableCall(env, pre, c, s.work[t].msg.o, s.work[t].msg.now);
  }

  lemma HandleStageProgress(env: Env, s: Sys)
    requires Inv(env, s) && s.main.Waiting? && Servable(s)
    requires var w := s.work[ServerOf(s.main.pre, s.main.c)]; w.PipeGot? || w.ThreadGot?
    ensures Helpful(s) == EHandle(ServerOf(s.main.pre, s.main.c), []) && Enabled(s, Helpful(s))
    ensures Servable(Next(env, s, Helpful(s))) && Rank(Next(env, s, Helpful(s))) < Rank(s)
  {
    var (c, pre) := (s.main.c, s.main.pre);
    var t := ServerOf(pre, c);
    ServerIsAThread(pre, c);
    assert Took(pre, c, s.work[t], s.main.id);
    assert Enabled(s, EHandle(t, []));
    HandleIsCloser(env, s, t);
  }

  lemma HandleIsCloser(env: Env, s: Sys, t: nat)
    requires Inv(env, s) && s.main.Waiting? && Servable(s) && Enabled(s, EHandle(t, []))
    requires t == ServerOf(s.main.pre, s.main.c) && Q(s.rsp, DstOf(s.main.c)) == []
    ensures Servable(Next(env, s, EHandle(t, []))) && Rank(Next(env, s, EHandle(t, []))) < Rank(s)
  {
    var e := EHandle(t, []);
    HandleIsHandled(env, s, e);
    HandleKeepsInv(env, s, e);
    InvIsServable(env, Next(env, s, e));
    ReplyIsCloser(s, Next(env, s, e), t);
  }

  /** Once the server has the answer, the call is closer to its end than with the request. */
  lemma ReplyIsCloser(s: Sys, s': Sys, t: nat)
    requires Servable(s) && Servable(s') && s.main.Waiting? && s'.main == s.main && s'.rsp == s.rsp
    requires t == ServerOf(s.main.pre, s.main.c) && Q(s.rsp, DstOf(s.main.c)) == []
    requires s.work[t].PipeGot? || s.work[t].ThreadGot?
    requires s'.work[t].PipeReply? || s'.work[t].ThreadReply?
    ensures Rank(s') < Rank(s)
  {
  }

  lemma PickStageProgress(env: Env, s: Sys)
    requires Inv(env, s) && s.main.Waiting? && Servable(s)
    requires s.work[ServerOf(s.main.pre, s.main.c)] == Poll && Q(s.rsp, DstOf(s.main.c)) == []
    ensures Enabled(s, Helpful(s))
    ensures Servable(Next(env, s, Helpful(s))) && Rank(Next(env, s, Helpful(s))) < Rank(s)
  {
    ServerIsAThread(s.main.pre, s.main.c);
  }

  /** The main thread never spins in vain: a step is always possible that shortens the pending call. */
  lemma PendingCallCanProgress(env: Env, s: Sys)
    requires Inv(env, s) && !s.main.Idle?
    ensures Servable(s) && Enabled(s, Helpful(s))
    ensures Servable(Next(env, s, Helpful(s))) && Rank(Next(env, s, Helpful(s))) < Rank(s)
  {
    InvIsServable(env, s);
    if s.main.Sending? {
      SendKeepsInv(env, s);
      InvIsServable(env, Next(env, s, ESend));
    } else if s.main.Received? {
      FinishKeepsInv(env, s);
    } else {
      var w := s.work[ServerOf(s.main.pre, s.main.c)];
      if Q(s.rsp, DstOf(s.main.c)) != [] {
      } else if w.PipeReply? || w.ThreadReply? {
        ReplyStageProgress(env, s);
      } else if w.PipeGot? || w.ThreadGot? {
        HandleStageProgress(env, s);
      } else {
        PickStageProgress(env, s);
      }
    }
  }

  // ---- Slots, flags, and the two paths, in every run ----

  /** A running thread polls the rings of the pipeline. */
  ghost predicate IsPolled(core: Core, p: nat) {
    Shape(core) &&
    exists t, i :: 0 <= t < |core.thr| && core.thr[t].running && 0 <= i < core.thr[t].slots.n
                   && core.thr[t].slots.pd[i].q == p
  }

  /**
   * An accepted call goes through the rings exactly when somebody will answer it: a running thread for a thread
   * call, a running thread with a slot of the pipeline for a table call.
   */
  lemma RingsIffAnswered(env: Env, s: Sys, c: Call, o: seq<Option<Handle>>)
    requires Inv(env, s) && s.main.Idle? && Accepts(s.core, c)
    ensures var s' := Next(env, s, ECall(c, o));
            if if IsThreadCall(c) then s.core.thr[c.t].running else IsPolled(s.core, c.p)
            then s'.main.Sending? && s'.main.c == c && s'.core == s.core
            else s'.main.Idle? && (s'.core, s'.ret) == Stopped(env, s.core, c, TableCtx(s.core, c), o, s.clock)
  {
    if !IsThreadCall(c) { PolledIffRunning(s.core, c); }
  }

  lemma PolledIffRunning(core: Core, c: Call)
    requires SlotsAgree(core) && InRange(core, c) && !IsThreadCall(c)
    ensures IsPolled(core, c.p) <==> Running(core, c)
  {
    assert HasSlot(core, c.p);
    if Running(core, c) {
      var t := core.pipes[c.p].tid;
      var i := FindSlot(core.thr[t].slots, c.p);
      assert SlotMatches(core, t, i);
      assert core.thr[t].slots.pd[i].q == c.p;
    }
    if IsPolled(core, c.p) {
      var t, i :| 0 <= t < |core.thr| && core.thr[t].running && 0 <= i < core.thr[t].slots.n
                  && core.thr[t].slots.pd[i].q == c.p;
      assert SlotMatches(core, t, i);
    }
  }

  /** Whenever the main thread is between calls, slots and flags agree and the counts match. */
  lemma SlotsAgreeBetweenCalls(env: Env, ss: seq<Sys>, es: seq<Event>, k: nat)
    requires IsRun(env, ss, es) && k < |ss| && ss[k].main.Idle?
    ensures SlotsAgree(ss[k].core)
    ensures var core := ss[k].core;
            TotalSlots(core.thr, |core.thr|) == |set p | 0 <= p < |core.pipes| && core.pipes[p].enabled|
  {
    RunKeepsInv(env, ss, es, k);
    SlotsCountEnabled(ss[k].core);
  }

  /**
   * A call that went through the rings ends, in every run, with the result and the state that the
   * direct path gives when it is applied to the state in which the call was made.
   */
  lemma FinishedCallIsStoppedCall(env: Env, ss: seq<Sys>, es: seq<Event>, k: nat)
    requires IsRun(env, ss, es) && k < |es| && es[k].EFinish?
    ensures var (c, m, pre) := (ss[k].main.c, ss[k].main.msg, ss[k].main.pre);
            && Pending(pre, c) && (!IsThreadCall(c) ==> HasSlot(pre, c.p)) && m.MRsp?
            && (ss[k + 1].core, ss[k + 1].ret) == Stopped(env, pre, c, SlotCtx(pre, c), m.o, m.now)
            && (TableKnown(pre, c) ==> SlotCtx(pre, c) == TableCtx(pre, c))
  {
    RunKeepsInv(env, ss, es, k);
    FinishKeepsInv(env, ss[k]);
  }

  // ---- Shadow lists and low-level tables, in every run ----

  /** A call without aliases, on a table that its pipeline was enabled with. */
  ghost predicate CleanCall(core: Core, c: Call) {
    Accepts(core, c) && SlotsAgree(core) ==>
      && AliasFreeCall(core, c)
      && (Running(core, c) && !IsThreadCall(c) ==> HasSlot(core, c.p) && TableKnown(core, c))
  }

  ghost predicate CleanRun(ss: seq<Sys>, es: seq<Event>)
    requires |ss| == |es| + 1
  {
    forall i :: 0 <= i < |es| && es[i].ECall? ==> CleanCall(ss[i].core, es[i].c)
  }

  /** Agreement at the boundaries; during a call, in the state that it was made in. */
  ghost predicate AgreeInv(env: Env, s: Sys) {
    match s.main
    case Idle => TablesAgree(env, s.core)
    case Sending(c, _, pre) => TablesAgree(env, pre) && CleanCall(pre, c)
    case Waiting(c, _, pre) => TablesAgree(env, pre) && CleanCall(pre, c)
    case Received(c, _, pre) => TablesAgree(env, pre) && CleanCall(pre, c)
  }

  lemma SetupKeepsAgreement(env: Env, s: Sys, e: Event)
    requires Inv(env, s) && Enabled(s, e) && s.main.Idle? && TablesAgree(env, s.core)
    requires e.ECreate? || e.EPortIn? || e.EPortOut? || e.ETable? || e.ELaunch?
    ensures TablesAgree(env, Next(env, s, e).core)
  {
    StepKeepsInv(env, s, e);
    var core, core' := s.core, Next(env, s, e).core;
    forall p, tb | 0 <= p < |core'.pipes| && 0 <= tb < |core'.pipes[p].tables| ensures TableAgrees(env, core', p, tb) {
      if p < |core.pipes| && tb < |core.pipes[p].tables| {
        assert TableAgrees(env, core, p, tb);
        assert PairAt(core', p, tb) == PairAt(core, p, tb);
      }
    }
  }

  lemma StepKeepsAgreement(env: Env, s: Sys, e: Event)
    requires Inv(env, s) && Enabled(s, e) && AgreeInv(env, s)
    requires e.ECall? ==> CleanCall(s.core, e.c)
    ensures AgreeInv(env, Next(env, s, e))
  {
    match e
    case ECall(c, o) =>
      if Accepts(s.core, c) && !Running(s.core, c) { CallKeepsAgreement(env, s.core, c, o, s.clock); }
    case EFinish =>
      var (c, m, pre) := (s.main.c, s.main.msg, s.main.pre);
      FinishKeepsInv(env, s);
      if IsThreadCall(c) {
        ThreadCallIgnoresCtx(env, pre, c, SlotCtx(pre, c), TableCtx(pre, c), m.o, m.now);
      }
      CallKeepsAgreement(env, pre, c, m.o, m.now);
    case ECreate(_) => SetupKeepsAgreement(env, s, e);
    case EPortIn(_) => SetupKeepsAgreement(env, s, e);
    case EPortOut(_) => SetupKeepsAgreement(env, s, e);
    case ETable(_, _, _, _) => SetupKeepsAgreement(env, s, e);
    case ELaunch(_) => SetupKeepsAgreement(env, s, e);
    case _ =>
  }

  lemma ThreadCallIgnoresCtx(env: Env, core: Core, c: Call, a: ActionCtx, b: ActionCtx, o: seq<Option<Handle>>,
                             now: nat)
    requires Shape(core) && Accepts(core, c) && IsThreadCall(c)
    ensures Stopped(env, core, c, a, o, now) == Stopped(env, core, c, b, o, now)
  {
  }

  /**
   * In every run whose calls are free of aliases, whatever mixture of stopped and running pipelines
   * and whatever the foreign tables decide, every shadow list mirrors its low-level table whenever
   * the main thread is between calls.
   */
  lemma {:induction false} TablesAgreeBetweenCalls(env: Env, ss: seq<Sys>, es: seq<Event>, k: nat)
    requires IsRun(env, ss, es) && CleanRun(ss, es) && k < |ss|
    ensures AgreeInv(env, ss[k])
    ensures ss[k].main.Idle? ==> TablesAgree(env, ss[k].core)
    decreases k
  {
    if k > 0 {
      TablesAgreeBetweenCalls(env, ss, es, k - 1);
      RunKeepsInv(env, ss, es, k - 1);
      StepKeepsAgreement(env, ss[k - 1], es[k - 1]);
    }
  }
}
