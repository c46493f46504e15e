/**
 * The cached-deadline polling of a data-plane thread over whole runs
 * (processing/dpdk_pipeline/thread.c:145-152, 298-301, 481-485, 3171-3219).
 * Besides the thread's own fields a run remembers which pipelines the last pass visited and, for
 * each pipeline, when it was enabled and serviced; no step reads these.
 */
module Scheduler {
  import opened Threads

  /** An entry of a pipeline's log: an enable, with gap 0, or a service, with the period of the pipeline. */
  datatype Mark = Mark(time: nat, gap: nat)

  /** `log[p]`: all enables and services of `p`, through any number of disables. */
  datatype World = World(s: Sched, clock: nat, scanned: set<nat>, log: map<nat, seq<Mark>>)

  function LogOf(log: map<nat, seq<Mark>>, p: nat): seq<Mark> { if p in log then log[p] else [] }

  /** `Check`: a control check of the running thread; `Direct`: a main-thread call while it is stopped. */
  datatype Event = Check(time: nat, reqs: seq<ThreadReq>) | Direct(req: ThreadReq)

  function Start(thr: Thr, period: nat, now: nat): World {
    World(Sched(thr, period, now + period, now + period), now, {}, map[])
  }

  predicate Live(t: Thr, p: nat)
    requires ThrOk(t)
  {
    FindSlot(t, p) < t.n
  }

  // ---- The step relation ----

  /** A pipeline is enabled only when it is not live, and not before the present. */
  predicate ReqMayRun(t: Thr, r: ThreadReq, clock: nat)
    requires ThrOk(t)
  {
    match r
    case ReqEnable(p, tabs, _, _, now) => |tabs| <= TABLES_MAX && !Live(t, p) && clock <= now
    case ReqDisable(_) => true
  }

  function AfterReq(w: World, r: ThreadReq): World
    requires ThrOk(w.s.thr) && ReqOk(r)
  {
    var thr' := HandleReq(w.s.thr, r);
    match r
    case ReqEnable(p, _, _, _, now) =>
      if w.s.thr.n >= PIPELINES_MAX then w
      else World(w.s.(thr := thr'), now, w.scanned - {p}, w.log[p := LogOf(w.log, p) + [Mark(now, 0)]])
    case ReqDisable(_) => w.(s := w.s.(thr := thr'))
  }

  predicate ReqsMayRun(w: World, rs: seq<ThreadReq>)
    requires ThrOk(w.s.thr)
    decreases |rs|
  {
    rs != [] ==> ReqMayRun(w.s.thr, rs[0], w.clock) && ReqsMayRun(AfterReq(w, rs[0]), rs[1..])
  }

  function AfterReqs(w: World, rs: seq<ThreadReq>): World
    requires ThrOk(w.s.thr) && ReqsMayRun(w, rs)
    decreases |rs|
  {
    if rs == [] then w else AfterReqs(AfterReq(w, rs[0]), rs[1..])
  }

  ghost function LiveSet(t: Thr): set<nat>
    requires ThrOk(t)
  {
    set i | 0 <= i < t.n :: t.pd[i].p
  }

  /** Every due pipeline gets a service at `time` appended to its log. */
  function Logged(t: Thr, log: map<nat, seq<Mark>>, time: nat): map<nat, seq<Mark>>
    requires ThrOk(t)
  {
    map p | p in log ::
      if Live(t, p) && t.pd[FindSlot(t, p)].timeNext <= time
      then log[p] + [Mark(time, t.pd[FindSlot(t, p)].period)]
      else log[p]
  }

  ghost function AfterScan(w: World, time: nat): World
    requires ThrOk(w.s.thr)
  {
    World(w.s.(thr := Scan(w.s.thr, time)), time, LiveSet(w.s.thr), Logged(w.s.thr, w.log, time))
  }

  predicate MayRun(w: World, e: Event)
    requires ThrOk(w.s.thr)
  {
    match e
    case Direct(r) => ReqMayRun(w.s.thr, r, w.clock)
    case Check(time, rs) => w.clock <= time
  }

  ghost predicate Step(w: World, e: Event, w': World) {
    ThrOk(w.s.thr) && MayRun(w, e) &&
    match e
    case Direct(r) => w' == AfterReq(w, r)
    case Check(time, rs) =>
      if time < w.s.timeNextMin then w' == w.(clock := time)
      else
        var mid := AfterScan(w, time);
        var m := MinNext(mid.s.thr, mid.s.thr.n);
        if w.s.timeNext <= time then
          && ReqsMayRun(mid, rs)
          && w' == AfterReqs(mid, rs).(s := Sched(AfterReqs(mid, rs).s.thr, w.s.timerPeriod, time + w.s.timerPeriod,
                                                  Min(m, time + w.s.timerPeriod)))
        else
          w' == mid.(s := mid.s.(timeNextMin := Min(m, w.s.timeNext)))
  }

  // ---- The invariant ----

  /** Every entry comes at least its gap after everything before it. */
  ghost predicate Spaced(l: seq<Mark>) {
    forall i, j :: 0 <= i < j < |l| ==> l[i].time + l[j].gap <= l[j].time
  }

  /** A log that may be continued from `clock` on. */
  ghost predicate LogOk(l: seq<Mark>, clock: nat) {
    l != [] && Spaced(l) && l[|l| - 1].time <= clock
  }

  ghost predicate LogsOk(log: map<nat, seq<Mark>>, clock: nat) {
    forall p :: p in log ==> LogOk(log[p], clock)
  }

  ghost predicate SlotLogged(w: World, s: Slot) {
    s.p in w.log && w.log[s.p] != [] && s.timeNext == w.log[s.p][|w.log[s.p]| - 1].time + s.period
  }

  ghost predicate OneSlotEach(t: Thr) {
    ThrOk(t) && forall i, j :: 0 <= i < j < t.n ==> t.pd[i].p != t.pd[j].p
  }

  /** Invariant of the slots and their logs, whatever the cached deadline is. */
  ghost predicate SlotsInv(w: World) {
    && OneSlotEach(w.s.thr)
    && LogsOk(w.log, w.clock)
    && forall i :: 0 <= i < w.s.thr.n ==> SlotLogged(w, w.s.thr.pd[i])
  }

  /** The cached deadline is not past any deadline that the last pass saw. */
  ghost predicate MinSound(w: World, min: nat) {
    ThrOk(w.s.thr) && forall i :: 0 <= i < w.s.thr.n && w.s.thr.pd[i].p in w.scanned ==> min <= w.s.thr.pd[i].timeNext
  }

  ghost predicate Inv(w: World) {
    && SlotsInv(w)
    && w.s.timeNextMin <= w.s.timeNext
    && MinSound(w, w.s.timeNextMin)
  }

  lemma FindIsIndex(t: Thr, i: nat)
    requires OneSlotEach(t) && i < t.n
    ensures FindSlot(t, t.pd[i].p) == i
  {
  }

  lemma SpacedSnoc(l: seq<Mark>, m: Mark)
    requires l != [] && Spaced(l) && l[|l| - 1].time + m.gap <= m.time
    ensures LogOk(l + [m], m.time)
  {
    forall x | 0 <= x < |l| ensures l[x].time + m.gap <= m.time {
      if x < |l| - 1 { assert l[x].time + l[|l| - 1].gap <= l[|l| - 1].time; }
    }
  }

  /** Time passes; at most the log of `p` has changed. */
  lemma LogsKept(log: map<nat, seq<Mark>>, clock: nat, log': map<nat, seq<Mark>>, clock': nat, p: nat)
    requires LogsOk(log, clock) && clock <= clock' && p in log' && LogOk(log'[p], clock')
    requires forall q :: q in log' && q != p ==> q in log && log'[q] == log[q]
    ensures LogsOk(log', clock')
  {
    forall q | q in log' ensures LogOk(log'[q], clock') {
      if q != p { assert LogOk(log[q], clock); }
    }
  }

  lemma EnableKeepsInv(w: World, r: ThreadReq, min: nat)
    requires r.ReqEnable? && w.s.thr.n < PIPELINES_MAX
    requires SlotsInv(w) && MinSound(w, min) && ReqMayRun(w.s.thr, r, w.clock)
    ensures SlotsInv(AfterReq(w, r)) && MinSound(AfterReq(w, r), min)
  {
    var w', t := AfterReq(w, r), w.s.thr;
    if r.p in w.log { SpacedSnoc(w.log[r.p], Mark(r.now, 0)); }
    LogsKept(w.log, w.clock, w'.log, r.now, r.p);
    forall i | 0 <= i < w'.s.thr.n ensures SlotLogged(w', w'.s.thr.pd[i]) {
      if i < t.n { assert SlotLogged(w, t.pd[i]) && t.pd[i].p != r.p; }
    }
  }

  lemma DisableKeepsInv(w: World, r: ThreadReq, min: nat)
    requires r.ReqDisable? && SlotsInv(w) && MinSound(w, min)
    ensures SlotsInv(AfterReq(w, r)) && MinSound(AfterReq(w, r), min)
  {
    var w', t := AfterReq(w, r), w.s.thr;
    forall i | 0 <= i < w'.s.thr.n ensures SlotLogged(w', w'.s.thr.pd[i]) {
      var k := if i == FindSlot(t, r.p) then t.n - 1 else i;
      assert w'.s.thr.pd[i] == t.pd[k] && SlotLogged(w, t.pd[k]);
    }
  }

  /** A request of the thread's queue, or a direct call, keeps the slot invariant and any sound minimum. */
  lemma ReqKeepsInv(w: World, r: ThreadReq, min: nat)
    requires SlotsInv(w) && MinSound(w, min) && ReqMayRun(w.s.thr, r, w.clock)
    ensures var w' := AfterReq(w, r);
            && SlotsInv(w') && MinSound(w', min) && w.clock <= w'.clock
            && w'.s == w.s.(thr := HandleReq(w.s.thr, r))
  {
    if r.ReqDisable? {
      DisableKeepsInv(w, r, min);
    } else if w.s.thr.n < PIPELINES_MAX {
      EnableKeepsInv(w, r, min);
    }
  }

  lemma {:induction false} ReqsKeepInv(w: World, rs: seq<ThreadReq>, min: nat)
    requires SlotsInv(w) && MinSound(w, min) && ReqsMayRun(w, rs)
    ensures var w' := AfterReqs(w, rs);
            SlotsInv(w') && MinSound(w', min) && w.clock <= w'.clock && w'.s == w.s.(thr := w'.s.thr)
    decreases |rs|
  {
    if rs != [] {
      ReqKeepsInv(w, rs[0], min);
      ReqsKeepInv(AfterReq(w, rs[0]), rs[1..], min);
    }
  }

  lemma {:induction false} MinNextIsMin(t: Thr, n: nat)
    requires ThrOk(t) && n <= t.n
    ensures forall i :: 0 <= i < n ==> MinNext(t, n) <= t.pd[i].timeNext
    decreases n
  {
    if n > 0 { MinNextIsMin(t, n - 1); }
  }


  lemma ServedIsLogged(w: World, time: nat, i: nat)
    requires SlotsInv(w) && w.clock <= time && i < w.s.thr.n
    ensures SlotLogged(AfterScan(w, time), Serve(w.s.thr.pd[i], time))
  {
    assert SlotLogged(w, w.s.thr.pd[i]);
    LoggedAt(w.s.thr, w.log, time, i);
  }

  lemma LoggedAt(t: Thr, log: map<nat, seq<Mark>>, time: nat, i: nat)
    requires OneSlotEach(t) && i < t.n && t.pd[i].p in log
    ensures var (s, log') := (t.pd[i], Logged(t, log, time));
            s.p in log' && log'[s.p] == if s.timeNext <= time then log[s.p] + [Mark(time, s.period)] else log[s.p]
  {
    FindIsIndex(t, i);
  }

  lemma LoggedIsOk(t: Thr, log: map<nat, seq<Mark>>, clock: nat, time: nat, p: nat)
    requires ThrOk(t) && p in log && LogOk(log[p], clock) && clock <= time
    requires Live(t, p) ==>
               var s := t.pd[FindSlot(t, p)]; s.timeNext == log[p][|log[p]| - 1].time + s.period
    ensures LogOk(Logged(t, log, time)[p], time)
  {
    if Live(t, p) && t.pd[FindSlot(t, p)].timeNext <= time {
      SpacedSnoc(log[p], Mark(time, t.pd[FindSlot(t, p)].period));
    }
  }

  lemma ScanKeepsLogs(w: World, time: nat)
    requires SlotsInv(w) && w.clock <= time
    ensures LogsOk(AfterScan(w, time).log, time)
  {
    var t := w.s.thr;
    forall p | p in w.log ensures LogOk(Logged(t, w.log, time)[p], time) {
      assert LogOk(w.log[p], w.clock);
      if Live(t, p) { assert SlotLogged(w, t.pd[FindSlot(t, p)]); }
      LoggedIsOk(t, w.log, w.clock, time, p);
    }
  }

  lemma ScanKeepsInv(w: World, time: nat)
    requires SlotsInv(w) && w.clock <= time
    ensures var mid := AfterScan(w, time);
            SlotsInv(mid) && MinSound(mid, MinNext(mid.s.thr, mid.s.thr.n))
  {
    var mid := AfterScan(w, time);
    MinNextIsMin(mid.s.thr, mid.s.thr.n);
    ScanKeepsLogs(w, time);
    ScanKeepsSlots(w, time);
  }

  lemma ScanKeepsSlots(w: World, time: nat)
    requires SlotsInv(w) && w.clock <= time
    ensures var mid := AfterScan(w, time);
            OneSlotEach(mid.s.thr) && forall i :: 0 <= i < mid.s.thr.n ==> SlotLogged(mid, mid.s.thr.pd[i])
  {
    var mid, t := AfterScan(w, time), w.s.thr;
    forall i | 0 <= i < t.n ensures SlotLogged(mid, mid.s.thr.pd[i]) {
      ServedIsLogged(w, time, i);
      assert mid.s.thr.pd[i] == Serve(t.pd[i], time);
    }
  }

  lemma StartInv(thr: Thr, period: nat, now: nat)
    requires ThrOk(thr) && thr.n == 0
    ensures Inv(Start(thr, period, now))
  {
  }

  /** A pass that is not skipped keeps whatever bound the scan established on the visited deadlines. */
  lemma FullPassKeepsBound(w: World, e: Event, w': World, bound: nat)
    requires SlotsInv(w) && Step(w, e, w') && e.Check? && w.s.timeNextMin <= e.time
    requires MinSound(AfterScan(w, e.time), bound)
    ensures SlotsInv(w') && MinSound(w', bound) && w.clock <= w'.clock
  {
    ScanKeepsInv(w, e.time);
    var mid := AfterScan(w, e.time);
    if w.s.timeNext <= e.time {
      ReqsKeepInv(mid, e.reqs, bound);
      SlotsInvOfThr(AfterReqs(mid, e.reqs), w');
    } else {
      SlotsInvOfThr(mid, w');
    }
  }

  /** What a pass that is not skipped leaves in the cached deadline. */
  lemma PassSetsMin(w: World, e: Event, w': World)
    requires Step(w, e, w') && e.Check? && w.s.timeNextMin <= e.time
    ensures var thr := Scan(w.s.thr, e.time);
            w'.s.timeNextMin <= w'.s.timeNext && w'.s.timeNextMin <= MinNext(thr, thr.n)
  {
  }

  lemma MinSoundBelow(w: World, bound: nat, min: nat)
    requires MinSound(w, bound) && min <= bound
    ensures MinSound(w, min)
  {
  }

  lemma PassKeepsInv(w: World, e: Event, w': World)
    requires SlotsInv(w) && Step(w, e, w') && e.Check? && w.s.timeNextMin <= e.time
    ensures Inv(w') && w.clock <= w'.clock
  {
    var thr := Scan(w.s.thr, e.time);
    var bound := MinNext(thr, thr.n);
    ScanKeepsInv(w, e.time);
    FullPassKeepsBound(w, e, w', bound);
    PassSetsMin(w, e, w');
    MinSoundBelow(w', bound, w'.s.timeNextMin);
  }

  lemma StepKeepsInv(w: World, e: Event, w': World)
    requires Inv(w) && Step(w, e, w')
    ensures Inv(w') && w.clock <= w'.clock
  {
    if e.Direct? {
      ReqKeepsInv(w, e.req, w.s.timeNextMin);
    } else if e.time < w.s.timeNextMin {
      LaterClockKeepsSlots(w, e.time);
    } else {
      PassKeepsInv(w, e, w');
    }
  }

  lemma LaterClockKeepsSlots(w: World, time: nat)
    requires SlotsInv(w) && w.clock <= time
    ensures SlotsInv(w.(clock := time))
  {
    forall i | 0 <= i < w.s.thr.n ensures SlotLogged(w.(clock := time), w.s.thr.pd[i]) {
      assert SlotLogged(w, w.s.thr.pd[i]);
    }
    forall p | p in w.log ensures LogOk(w.log[p], time) { assert LogOk(w.log[p], w.clock); }
  }

  lemma SlotsInvOfThr(w: World, w': World)
    requires SlotsInv(w) && w'.s.thr == w.s.thr && w'.clock == w.clock && w'.log == w.log
    ensures SlotsInv(w')
  {
    forall i | 0 <= i < w'.s.thr.n ensures SlotLogged(w', w'.s.thr.pd[i]) {
      assert SlotLogged(w, w.s.thr.pd[i]);
    }
  }

  ghost predicate IsRun(ws: seq<World>, es: seq<Event>) {
    && |ws| == |es| + 1
    && ThrOk(ws[0].s.thr) && ws[0].s.thr.n == 0
    && (exists period, now :: ws[0] == Start(ws[0].s.thr, period, now))
    && forall i :: 0 <= i < |es| ==> Step(ws[i], es[i], ws[i + 1])
  }

  /** The invariant holds in every state of every run. */
  lemma {:induction false} RunKeepsInv(ws: seq<World>, es: seq<Event>, k: nat)
    requires IsRun(ws, es) && k < |ws|
    ensures Inv(ws[k])
    decreases k
  {
    if k == 0 {
      var period, now :| ws[0] == Start(ws[0].s.thr, period, now);
      StartInv(ws[0].s.thr, period, now);
    } else {
      RunKeepsInv(ws, es, k - 1);
      StepKeepsInv(ws[k - 1], es[k - 1], ws[k]);
    }
  }

  // ---- What the invariant means ----

  /** The steps change the thread as `ControlPass`, the contract of the C loop, says. */
  lemma StepIsControlPass(w: World, e: Event, w': World)
    requires SlotsInv(w) && Step(w, e, w') && e.Check?
    requires forall r :: r in e.reqs ==> ReqOk(r)
    ensures w'.s == ControlPass(w.s, e.time, e.reqs)
  {
    if w.s.timeNextMin <= e.time && w.s.timeNext <= e.time {
      AfterReqsIsHandleReqs(AfterScan(w, e.time), e.reqs);
    }
  }

  lemma {:induction false} AfterReqsIsHandleReqs(w: World, rs: seq<ThreadReq>)
    requires ThrOk(w.s.thr) && ReqsMayRun(w, rs) && forall r :: r in rs ==> ReqOk(r)
    ensures AfterReqs(w, rs).s == w.s.(thr := HandleReqs(w.s.thr, rs))
    decreases |rs|
  {
    if rs != [] {
      AfterReqsIsHandleReqs(AfterReq(w, rs[0]), rs[1..]);
      HandleReqsFront(w.s.thr, rs);
    }
  }

  lemma {:induction false} HandleReqsFront(t: Thr, rs: seq<ThreadReq>)
    requires ThrOk(t) && rs != [] && forall r :: r in rs ==> ReqOk(r)
    ensures HandleReqs(t, rs) == HandleReqs(HandleReq(t, rs[0]), rs[1..])
    decreases |rs|
  {
    var n := |rs| - 1;
    if n == 0 {
      assert rs[..0] == [] && rs[1..] == [];
    } else {
      HandleReqsFront(t, rs[..n]);
      assert rs[..n][1..] == rs[1..][..n - 1];
    }
  }

  /** Skipping a pass is sound: nothing that the last pass saw is due, nor is the thread's own queue. */
  lemma {:induction false} SkipIsSound(w: World, time: nat)
    requires Inv(w) && time < w.s.timeNextMin
    ensures time < w.s.timeNext
    ensures forall p :: p in w.scanned ==> p !in Due(w.s.thr, w.s.thr.n, time)
  {
    forall p | p in w.scanned ensures p !in Due(w.s.thr, w.s.thr.n, time) {
      DueIsLiveAndDue(w.s.thr, w.s.thr.n, time, p);
    }
  }

  lemma {:induction false} DueIsLiveAndDue(t: Thr, n: nat, time: nat, p: nat)
    requires ThrOk(t) && n <= t.n
    ensures p in Due(t, n, time) <==> exists i :: 0 <= i < n && t.pd[i].p == p && t.pd[i].timeNext <= time
    decreases n
  {
    if n > 0 { DueIsLiveAndDue(t, n - 1, time, p); }
  }

  /** Even a pipeline that no pass has seen yet is serviced, if due, once the thread's own deadline has come. */
  lemma {:induction false} NewPipelineWaitsForThreadDeadline(w: World, time: nat, i: nat)
    requires Inv(w) && i < w.s.thr.n
    requires w.s.timeNext <= time && w.s.thr.pd[i].timeNext <= time
    ensures w.s.timeNextMin <= time
    ensures w.s.thr.pd[i].p in Due(w.s.thr, w.s.thr.n, time)
  {
    DueIsLiveAndDue(w.s.thr, w.s.thr.n, time, w.s.thr.pd[i].p);
  }

  ghost predicate PositivePeriods(t: Thr)
    requires ThrOk(t)
  {
    forall i :: 0 <= i < t.n ==> t.pd[i].period > 0
  }

  /** A pass leaves nothing due among the pipelines it visited, nor the thread's own queue. */
  lemma PassLeavesNothingDue(w: World, e: Event, w': World)
    requires Inv(w) && Step(w, e, w') && e.Check? && w.s.timeNextMin <= e.time
    requires PositivePeriods(w.s.thr) && w.s.timerPeriod > 0
    ensures e.time < w'.s.timeNext && ThrOk(w'.s.thr)
    ensures forall i :: 0 <= i < w'.s.thr.n && w'.s.thr.pd[i].p in w'.scanned ==> e.time < w'.s.thr.pd[i].timeNext
  {
    ScanLeavesNothingDue(w, e.time);
    FullPassKeepsBound(w, e, w', e.time + 1);
  }

  lemma ScanLeavesNothingDue(w: World, time: nat)
    requires SlotsInv(w) && PositivePeriods(w.s.thr)
    ensures MinSound(AfterScan(w, time), time + 1)
  {
  }

  /** With a zero period a serviced pipeline is due again at once: the periods must be positive. */
  lemma ZeroPeriodStaysDue(w: World, time: nat, i: nat)
    requires SlotsInv(w) && i < w.s.thr.n && w.s.thr.pd[i].timeNext <= time
    ensures Scan(w.s.thr, time).pd[i].timeNext <= time <==> w.s.thr.pd[i].period == 0
  {
  }

  /** The logs hold exactly the services: a scan appends its time for the pipelines it drains, no others. */
  lemma {:induction false} ScanLogsServices(w: World, time: nat, p: nat)
    requires SlotsInv(w) && p in w.log
    ensures p in AfterScan(w, time).log
    ensures p in Due(w.s.thr, w.s.thr.n, time) ==> FindSlot(w.s.thr, p) < w.s.thr.n
    ensures AfterScan(w, time).log[p] ==
            if p in Due(w.s.thr, w.s.thr.n, time) then w.log[p] + [Mark(time, w.s.thr.pd[FindSlot(w.s.thr, p)].period)]
            else w.log[p]
  {
    DueIsLiveAndDue(w.s.thr, w.s.thr.n, time, p);
    if p in Due(w.s.thr, w.s.thr.n, time) {
      var i :| 0 <= i < w.s.thr.n && w.s.thr.pd[i].p == p && w.s.thr.pd[i].timeNext <= time;
      FindIsIndex(w.s.thr, i);
    }
  }

  /**
   * In every run, every service of a pipeline comes at least its period after all earlier services, and
   * after all earlier enables, also across disables.
   */
  lemma ServicesAreAPeriodApart(ws: seq<World>, es: seq<Event>, k: nat, p: nat, i: nat, j: nat)
    requires IsRun(ws, es) && k < |ws| && p in ws[k].log && i < j < |ws[k].log[p]|
    ensures ws[k].log[p][i].time + ws[k].log[p][j].gap <= ws[k].log[p][j].time
  {
    RunKeepsInv(ws, es, k);
    assert LogOk(ws[k].log[p], ws[k].clock);
  }
}
