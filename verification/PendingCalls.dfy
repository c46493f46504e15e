/**
 * The polling of module Scheduler and the rings of module Messages together: once the control check of
 * its server thread reaches the deadline of the slot, or of the thread's own queue, a pending call is
 * served by that very pass and ends (processing/dpdk_pipeline/thread.c:432-454, 2205-2227, 3069-3222).
 */
module PendingCalls {
  import opened Prelude
  import opened Rules
  import opened Tables
  import opened Threads
  import opened Control
  import opened Messages
  import MessageRuns
  import Scheduler

  // ---- A control pass in the message system ----

  /** A step that is taken if it is possible. */
  function Try(env: Env, s: Sys, e: Event): Sys {
    if SysShape(s) && Enabled(s, e) then Next(env, s, e) else s
  }

  /** A block that has been taken is handled and answered. */
  function Answer(env: Env, s: Sys, t: nat, o: seq<Option<Handle>>): Sys {
    Try(env, Try(env, s, EHandle(t, o)), EReply(t))
  }

  /** `pipeline_msg_handle` for pipeline `p`: a ring holds one block at most, so one round drains it. */
  function DrainPipe(env: Env, s: Sys, t: nat, p: nat, o: seq<Option<Handle>>): Sys {
    if !SysShape(s) || t >= |s.core.thr| then s
    else Answer(env, Try(env, s, EPick(t, FindSlot(s.core.thr[t].slots, p))), t, o)
  }

  /** `thread_msg_handle`. */
  function DrainThread(env: Env, s: Sys, t: nat, o: seq<Option<Handle>>): Sys {
    Answer(env, Try(env, s, EPickThread(t)), t, o)
  }

  function DrainPipes(env: Env, s: Sys, t: nat, ps: seq<nat>, o: seq<Option<Handle>>): Sys
    decreases |ps|
  {
    if ps == [] then s else DrainPipes(env, DrainPipe(env, s, t, ps[0], o), t, ps[1..], o)
  }

  /** One control check of thread `t` with deadlines `sch`: the due pipelines in order, then the own queue. */
  function Pass(env: Env, s: Sys, t: nat, sch: Sched, time: nat, o: seq<Option<Handle>>): Sys
    requires ThrOk(sch.thr)
  {
    if time < sch.timeNextMin then s
    else
      var s1 := DrainPipes(env, s, t, Due(sch.thr, sch.thr.n, time), o);
      if sch.timeNext <= time then DrainThread(env, s1, t, o) else s1
  }

  // ---- The slots of both modules ----

  /** The same slots but for their deadlines, which only the polling thread reads; passes and requests keep it. */
  ghost predicate SameSlots(x: Thr, y: Thr) {
    && ThrOk(x) && ThrOk(y) && x.n == y.n
    && forall i :: 0 <= i < x.n ==> x.pd[i].p == y.pd[i].p && x.pd[i].q == y.pd[i].q
  }

  lemma ScanKeepsSameSlots(x: Thr, y: Thr, time: nat)
    requires SameSlots(x, y)
    ensures SameSlots(Scan(x, time), y)
  {
  }

  lemma FirstSlotIs(t: Thr, p: nat, i: nat)
    requires ThrOk(t) && i <= t.n && (i < t.n ==> t.pd[i].p == p) && forall k :: 0 <= k < i ==> t.pd[k].p != p
    ensures FindSlot(t, p) == i
  {
  }

  lemma SameSlotsFind(x: Thr, y: Thr, p: nat)
    requires SameSlots(x, y)
    ensures FindSlot(x, p) == FindSlot(y, p)
  {
    FirstSlotIs(y, p, FindSlot(x, p));
  }

  lemma RequestKeepsSameSlots(x: Thr, y: Thr, r: ThreadReq)
    requires SameSlots(x, y) && ReqOk(r)
    ensures SameSlots(HandleReq(x, r), HandleReq(y, r))
  {
    if r.ReqDisable? { SameSlotsFind(x, y, r.p); }
  }

  // ---- When a pass reaches a call ----

  /**
   * The deadline of the ring of the call has come. A pipeline that no pass has seen yet may have to wait
   * for the thread's own deadline.
   */
  ghost predicate Reached(w: Scheduler.World, c: Call, time: nat)
    requires ThrOk(w.s.thr)
  {
    if IsThreadCall(c) then w.s.timeNext <= time
    else
      var i := FindSlot(w.s.thr, c.p);
      i < w.s.thr.n && w.s.thr.pd[i].timeNext <= time && (c.p in w.scanned || w.s.timeNext <= time)
  }

  /** Then the pass is not skipped, and it drains that ring. */
  lemma {:induction false} ReachedIsDrained(w: Scheduler.World, c: Call, time: nat)
    requires Scheduler.Inv(w) && Reached(w, c, time)
    ensures w.s.timeNextMin <= time
    ensures !IsThreadCall(c) ==> c.p in Due(w.s.thr, w.s.thr.n, time)
  {
    if !IsThreadCall(c) {
      var i := FindSlot(w.s.thr, c.p);
      assert w.s.thr.pd[i].p == c.p;
      Scheduler.DueIsLiveAndDue(w.s.thr, w.s.thr.n, time, c.p);
    }
  }

  /** A pipeline that has been seen is reached within its period. */
  lemma ReachedWithinPeriod(w: Scheduler.World, c: Call, time: nat)
    requires Scheduler.Inv(w) && !IsThreadCall(c) && c.p in w.scanned && FindSlot(w.s.thr, c.p) < w.s.thr.n
    requires w.clock + w.s.thr.pd[FindSlot(w.s.thr, c.p)].period <= time
    ensures Reached(w, c, time)
  {
    var slot := w.s.thr.pd[FindSlot(w.s.thr, c.p)];
    assert Scheduler.SlotLogged(w, slot) && Scheduler.LogOk(w.log[slot.p], w.clock);
  }

  // ---- What a round does ----

  /** The request of the pending call waits on its ring. */
  ghost predicate Asked(env: Env, s: Sys) {
    Inv(env, s) && s.main.Waiting? && Q(s.req, DstOf(s.main.c)) != []
  }

  /** Its answer, given at the time of `s`, waits on the response ring. */
  ghost predicate Answered(env: Env, s: Sys, o: seq<Option<Handle>>, s': Sys) {
    && s.main.Waiting? && Inv(env, s') && s'.main == s.main && s'.clock == s.clock
    && Q(s'.req, DstOf(s.main.c)) == [] && |Q(s'.rsp, DstOf(s.main.c))| == 1
    && var m := Q(s'.rsp, DstOf(s.main.c))[0]; m.MRsp? && m.o == o && m.now == s.clock
  }

  lemma NothingToAnswer(env: Env, s: Sys, t: nat, o: seq<Option<Handle>>)
    requires SysShape(s) && t < |s.work| && s.work[t] == Poll
    ensures Answer(env, s, t, o) == s
  {
  }

  /** With no request on any ring of its own a round changes nothing. */
  lemma EmptyRound(env: Env, s: Sys, t: nat, p: nat, o: seq<Option<Handle>>)
    requires SysShape(s) && t < |s.work| && s.work[t] == Poll
    requires var (slots, j) := (s.core.thr[t].slots, FindSlot(s.core.thr[t].slots, p));
             j < slots.n ==> Q(s.req, ToPipe(slots.pd[j].q)) == []
    ensures DrainPipe(env, s, t, p, o) == s
  {
    NothingToAnswer(env, s, t, o);
  }

  /** What an asked state looks like. */
  lemma AskedIs(env: Env, s: Sys)
    requires Asked(env, s)
    ensures var (c, pre) := (s.main.c, s.main.pre);
            && Pending(pre, c) && s.core == pre && ServerOf(pre, c) < |s.work| == |pre.thr|
            && Q(s.req, DstOf(c)) == [MReq(s.main.id, ReqOf(pre, c))] && Q(s.rsp, DstOf(c)) == []
            && s.work[ServerOf(pre, c)] == Poll && RingsEmptyBut(s, Some(DstOf(c)))
  {
    ServerIsAThread(s.main.pre, s.main.c);
  }

  lemma AnsweredIs(env: Env, s: Sys, o: seq<Option<Handle>>, s': Sys)
    requires Answered(env, s, o, s')
    ensures var (c, pre) := (s.main.c, s.main.pre);
            && Pending(pre, c) && ServerOf(pre, c) < |s'.work|
            && s'.work[ServerOf(pre, c)] == Poll && forall d :: Q(s'.req, d) == []
  {
    var (c, d) := (s.main.c, DstOf(s.main.c));
    ServerIsAThread(s.main.pre, c);
    assert forall x :: x != d ==> Q(s'.req, x) == [];
  }

  /** The server holds the request: it handles and answers it. */
  lemma TakenIsAnswered(env: Env, s: Sys, o: seq<Option<Handle>>)
    requires Inv(env, s) && s.main.Waiting?
    requires ServerOf(s.main.pre, s.main.c) < |s.work|
    requires Took(s.main.pre, s.main.c, s.work[ServerOf(s.main.pre, s.main.c)], s.main.id)
    ensures Answered(env, s, o, Answer(env, s, ServerOf(s.main.pre, s.main.c), o))
  {
    var (c, t) := (s.main.c, ServerOf(s.main.pre, s.main.c));
    var e := EHandle(t, o);
    ServerIsAThread(s.main.pre, c);
    assert Enabled(s, e);
    HandleIsHandled(env, s, e);
    HandleKeepsInv(env, s, e);
    HandledIsAnswered(env, Next(env, s, e));
  }

  /** The server holds the answer: it puts it on the response ring. */
  lemma HandledIsAnswered(env: Env, s: Sys)
    requires Inv(env, s) && s.main.Waiting? && ServerOf(s.main.pre, s.main.c) < |s.work|
    requires var w := s.work[ServerOf(s.main.pre, s.main.c)];
             (w.PipeReply? || w.ThreadReply?) && w.msg.MRsp? && w.msg.now == s.clock
    ensures var t := ServerOf(s.main.pre, s.main.c);
            Answered(env, s, s.work[t].msg.o, Try(env, s, EReply(t)))
  {
    MessageRuns.InvIsServable(env, s);
    MessageRuns.ReplyStageProgress(env, s);
    var t := ServerOf(s.main.pre, s.main.c);
    ReplyKeepsInv(env, s, EReply(t));
    ReplyGoesOut(env, s);
  }

  lemma ReplyGoesOut(env: Env, s: Sys)
    requires Inv(env, s) && s.main.Waiting? && ServerOf(s.main.pre, s.main.c) < |s.work|
    requires var w := s.work[ServerOf(s.main.pre, s.main.c)]; w.PipeReply? || w.ThreadReply?
    requires Enabled(s, EReply(ServerOf(s.main.pre, s.main.c)))
    ensures var t := ServerOf(s.main.pre, s.main.c);
            var s' := Next(env, s, EReply(t));
            Q(s'.rsp, DstOf(s.main.c)) == [s.work[t].msg] && Q(s'.req, DstOf(s.main.c)) == []
  {
    var (c, pre) := (s.main.c, s.main.pre);
    var t := ServerOf(pre, c);
    ServerIsAThread(pre, c);
    assert Answering(env, pre, c, s.core, s.work[t], s.main.id);
    AnswerKeepsSlotOfTableCall(env, pre, c, s.work[t].msg.o, s.work[t].msg.now);
    assert ReplyDst(s, t) == DstOf(c);
  }

  // ---- What a pass does ----

  lemma OwnRoundServes(env: Env, s: Sys, o: seq<Option<Handle>>)
    requires Asked(env, s) && IsThreadCall(s.main.c)
    ensures Answered(env, s, o, DrainThread(env, s, s.main.c.t, o))
  {
    AskedIs(env, s);
    var e := EPickThread(s.main.c.t);
    assert Enabled(s, e);
    PickKeepsInv(env, s, e);
    TakenIsAnswered(env, Next(env, s, e), o);
  }

  lemma PipeRoundServes(env: Env, s: Sys, o: seq<Option<Handle>>)
    requires Asked(env, s) && !IsThreadCall(s.main.c)
    ensures Answered(env, s, o, DrainPipe(env, s, ServerOf(s.main.pre, s.main.c), s.main.c.p, o))
  {
    AskedIs(env, s);
    ServerIsAThread(s.main.pre, s.main.c);
    var t := ServerOf(s.main.pre, s.main.c);
    var e := EPick(t, FindSlot(s.core.thr[t].slots, s.main.c.p));
    assert Enabled(s, e);
    PickKeepsInv(env, s, e);
    TakenIsAnswered(env, Next(env, s, e), o);
  }

  /** The other rings of the server are empty. */
  lemma OtherRoundIsEmpty(env: Env, s: Sys, p: nat, o: seq<Option<Handle>>)
    requires Asked(env, s) && DstOf(s.main.c) != ToPipe(p)
    ensures DrainPipe(env, s, ServerOf(s.main.pre, s.main.c), p, o) == s
  {
    AskedIs(env, s);
    var t := ServerOf(s.main.pre, s.main.c);
    var (slots, j) := (s.core.thr[t].slots, FindSlot(s.core.thr[t].slots, p));
    if j < slots.n {
      assert SlotMatches(s.core, t, j);
      assert slots.pd[j].q == p;
    }
    EmptyRound(env, s, t, p, o);
  }

  lemma LaterRoundIsEmpty(env: Env, s: Sys, o: seq<Option<Handle>>, s': Sys, p: nat)
    requires Answered(env, s, o, s')
    ensures DrainPipe(env, s', ServerOf(s.main.pre, s.main.c), p, o) == s'
  {
    AnsweredIs(env, s, o, s');
    EmptyRound(env, s', ServerOf(s.main.pre, s.main.c), p, o);
  }

  lemma {:induction false} LaterRoundsAreEmpty(env: Env, s: Sys, o: seq<Option<Handle>>, s': Sys, ps: seq<nat>)
    requires Answered(env, s, o, s')
    ensures DrainPipes(env, s', ServerOf(s.main.pre, s.main.c), ps, o) == s'
    decreases |ps|
  {
    if ps != [] {
      LaterRoundIsEmpty(env, s, o, s', ps[0]);
      LaterRoundsAreEmpty(env, s, o, s', ps[1..]);
    }
  }

  /** Draining pipelines serves a table call iff its pipeline is among them. */
  lemma {:induction false} RoundsServe(env: Env, s: Sys, ps: seq<nat>, o: seq<Option<Handle>>)
    requires Asked(env, s)
    ensures var s' := DrainPipes(env, s, ServerOf(s.main.pre, s.main.c), ps, o);
            if !IsThreadCall(s.main.c) && s.main.c.p in ps then Answered(env, s, o, s') else s' == s
    decreases |ps|
  {
    if ps != [] {
      if DstOf(s.main.c) == ToPipe(ps[0]) {
        PipeRoundServes(env, s, o);
        LaterRoundsAreEmpty(env, s, o, DrainPipe(env, s, ServerOf(s.main.pre, s.main.c), ps[0], o), ps[1..]);
      } else {
        OtherRoundIsEmpty(env, s, ps[0], o);
        RoundsServe(env, s, ps[1..], o);
      }
    }
  }

  lemma LaterOwnRoundIsEmpty(env: Env, s: Sys, o: seq<Option<Handle>>, s': Sys)
    requires Answered(env, s, o, s')
    ensures DrainThread(env, s', ServerOf(s.main.pre, s.main.c), o) == s'
  {
    AnsweredIs(env, s, o, s');
    NothingToAnswer(env, s', ServerOf(s.main.pre, s.main.c), o);
  }

  /** A pass at or after the deadline serves the call. */
  lemma PassServes(env: Env, s: Sys, w: Scheduler.World, time: nat, o: seq<Option<Handle>>)
    requires Asked(env, s) && Scheduler.Inv(w) && Reached(w, s.main.c, time)
    ensures Answered(env, s, o, Pass(env, s, ServerOf(s.main.pre, s.main.c), w.s, time, o))
  {
    var (c, t) := (s.main.c, ServerOf(s.main.pre, s.main.c));
    ReachedIsDrained(w, c, time);
    var due := Due(w.s.thr, w.s.thr.n, time);
    RoundsServe(env, s, due, o);
    var s1 := DrainPipes(env, s, t, due, o);
    if IsThreadCall(c) {
      OwnRoundServes(env, s, o);
    } else {
      LaterOwnRoundIsEmpty(env, s, o, s1);
    }
  }

  /** The server has the slot of the call, so that both its deadlines bound the wait. */
  lemma DeadlinesReach(env: Env, s: Sys, w: Scheduler.World, time: nat)
    requires Asked(env, s) && Scheduler.Inv(w) && w.s.timeNext <= time
    requires ServerOf(s.main.pre, s.main.c) < |s.core.thr|
    requires SameSlots(w.s.thr, s.core.thr[ServerOf(s.main.pre, s.main.c)].slots)
    requires !IsThreadCall(s.main.c) && FindSlot(w.s.thr, s.main.c.p) < w.s.thr.n ==>
               w.s.thr.pd[FindSlot(w.s.thr, s.main.c.p)].timeNext <= time
    ensures Reached(w, s.main.c, time)
  {
    AskedIs(env, s);
    ServerIsAThread(s.main.pre, s.main.c);
    SameSlotsFind(w.s.thr, s.core.thr[ServerOf(s.main.pre, s.main.c)].slots, s.main.c.p);
  }

  /** The main thread takes the answer and ends the call. */
  lemma AnsweredCallEnds(env: Env, s: Sys, o: seq<Option<Handle>>, s': Sys)
    requires Answered(env, s, o, s')
    ensures var (c, pre, end) := (s.main.c, s.main.pre, Try(env, Try(env, s', ERecv), EFinish));
            && end.main.Idle? && Inv(env, end) && Pending(pre, c) && (!IsThreadCall(c) ==> HasSlot(pre, c.p))
            && (end.core, end.ret) == Stopped(env, pre, c, SlotCtx(pre, c), o, s.clock)
  {
    assert Enabled(s', ERecv);
    RecvKeepsInv(env, s');
    FinishKeepsInv(env, Next(env, s', ERecv));
  }

  /**
   * A call that waits for a running thread ends by the first control check of that thread at or after
   * the deadline of its ring: the pass serves it, the main thread takes the answer, and the result and
   * the state are those of the direct call.
   */
  lemma PendingCallEndsAtDeadline(env: Env, s: Sys, w: Scheduler.World, time: nat, o: seq<Option<Handle>>)
    requires Asked(env, s) && Scheduler.Inv(w) && Reached(w, s.main.c, time)
    ensures var (c, pre) := (s.main.c, s.main.pre);
            var end := Try(env, Try(env, Pass(env, s, ServerOf(pre, c), w.s, time, o), ERecv), EFinish);
            && end.main.Idle? && Inv(env, end) && Pending(pre, c) && (!IsThreadCall(c) ==> HasSlot(pre, c.p))
            && (end.core, end.ret) == Stopped(env, pre, c, SlotCtx(pre, c), o, s.clock)
  {
    PassServes(env, s, w, time, o);
    AnsweredCallEnds(env, s, o, Pass(env, s, ServerOf(s.main.pre, s.main.c), w.s, time, o));
  }
}
