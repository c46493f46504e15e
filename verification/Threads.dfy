/**
 * A data-plane thread's slot arrays and its control pass
 * (processing/dpdk_pipeline/thread.c:51-75, 256-527, 3162-3222).
 * `Thr` is the abstract value of the arrays, `ThreadData` the C object that is updated in place.
 */
module Threads {
  import opened Prelude

  const PIPELINES_MAX := 256
  const TABLES_MAX := 64

  type TableData = s: seq<nat> | |s| == TABLES_MAX witness seq(TABLES_MAX, _ => 0)

  /** `struct pipeline_data`: `p` is the rte pipeline, `q` its ring pair, `tabs` the action contexts. */
  datatype Slot = Slot(p: nat, tabs: TableData, nTables: nat, q: nat, period: nat, timeNext: nat)

  /** `n_pipelines`, `p[]` and `pipeline_data[]`; what lies past `n` is left over from earlier use. */
  datatype Thr = Thr(n: nat, run: seq<nat>, pd: seq<Slot>)

  predicate ThrOk(t: Thr) {
    |t.run| == |t.pd| == PIPELINES_MAX && t.n <= PIPELINES_MAX
  }

  /** Writes the first entries, keeps what was behind them. */
  function Overlay(prev: TableData, tabs: seq<nat>): TableData
    requires |tabs| <= TABLES_MAX
  {
    tabs + prev[|tabs|..]
  }

  lemma OverlayStep(prev: TableData, tabs: seq<nat>, i: nat)
    requires i < |tabs| <= TABLES_MAX
    ensures Overlay(prev, tabs[..i])[i := tabs[i]] == Overlay(prev, tabs[..i + 1])
  {
  }

  /** The body of an enable, in the stopped path and in the message handler. */
  function EnableSlot(t: Thr, p: nat, tabs: seq<nat>, q: nat, period: nat, now: nat): Option<Thr>
    requires ThrOk(t) && |tabs| <= TABLES_MAX
  {
    if t.n >= PIPELINES_MAX then None
    else Some(Thr(t.n + 1, t.run[t.n := p],
                  t.pd[t.n := Slot(p, Overlay(t.pd[t.n].tabs, tabs), |tabs|, q, period, now + period)]))
  }

  /** First live slot of rte pipeline `p`, or `n`. */
  function FindSlot(t: Thr, p: nat): (i: nat)
    requires ThrOk(t)
    ensures i <= t.n
    ensures i < t.n ==> t.pd[i].p == p
    ensures forall k :: 0 <= k < i ==> t.pd[k].p != p
  {
    FindSlotFrom(t, p, 0)
  }

  function FindSlotFrom(t: Thr, p: nat, from: nat): (i: nat)
    requires ThrOk(t) && from <= t.n
    ensures from <= i <= t.n
    ensures i < t.n ==> t.pd[i].p == p
    ensures forall k :: from <= k < i ==> t.pd[k].p != p
    decreases t.n - from
  {
    if from == t.n || t.pd[from].p == p then from else FindSlotFrom(t, p, from + 1)
  }

  /** The body of a disable: the last live slot moves into the hole. */
  function DisableSlot(t: Thr, p: nat): Thr
    requires ThrOk(t)
  {
    var i := FindSlot(t, p);
    if i == t.n then t
    else if i < t.n - 1 then Thr(t.n - 1, t.run[i := t.run[t.n - 1]], t.pd[i := t.pd[t.n - 1]])
    else t.(n := t.n - 1)
  }

  datatype ThreadReq = ReqEnable(p: nat, tabs: seq<nat>, q: nat, period: nat, now: nat) | ReqDisable(p: nat)

  predicate ReqOk(r: ThreadReq) { r.ReqEnable? ==> |r.tabs| <= TABLES_MAX }

  /** One request of the thread's own message queue. */
  function HandleReq(t: Thr, r: ThreadReq): (t': Thr)
    requires ThrOk(t) && ReqOk(r)
    ensures ThrOk(t')
  {
    match r
    case ReqEnable(p, tabs, q, period, now) =>
      (match EnableSlot(t, p, tabs, q, period, now) case None => t case Some(t1) => t1)
    case ReqDisable(p) => DisableSlot(t, p)
  }

  function HandleReqs(t: Thr, rs: seq<ThreadReq>): (t': Thr)
    requires ThrOk(t) && forall r :: r in rs ==> ReqOk(r)
    ensures ThrOk(t')
  {
    if rs == [] then t else HandleReq(HandleReqs(t, rs[..|rs| - 1]), rs[|rs| - 1])
  }

  // ---- The control pass ----

  function Serve(s: Slot, time: nat): Slot {
    if s.timeNext <= time then s.(timeNext := time + s.period) else s
  }

  /** Every live slot visited once. */
  function Scan(t: Thr, time: nat): (t': Thr)
    requires ThrOk(t)
    ensures ThrOk(t') && t'.n == t.n && t'.run == t.run
    ensures forall i :: 0 <= i < |t.pd| ==> t'.pd[i] == if i < t.n then Serve(t.pd[i], time) else t.pd[i]
  {
    t.(pd := seq(|t.pd|, i requires 0 <= i < |t.pd| => if i < t.n then Serve(t.pd[i], time) else t.pd[i]))
  }

  /** The pipelines whose message queues a scan drains, in order. */
  function Due(t: Thr, n: nat, time: nat): seq<nat>
    requires ThrOk(t) && n <= t.n
  {
    if n == 0 then []
    else Due(t, n - 1, time) + if t.pd[n - 1].timeNext <= time then [t.pd[n - 1].p] else []
  }

  function Min(x: nat, y: nat): nat { if y < x then y else x }

  /** Earliest deadline among the first `n` slots, starting from `UINT64_MAX`. */
  function MinNext(t: Thr, n: nat): nat
    requires ThrOk(t) && n <= t.n
  {
    if n == 0 then UINT64_MAX else Min(MinNext(t, n - 1), t.pd[n - 1].timeNext)
  }

  datatype Sched = Sched(thr: Thr, timerPeriod: nat, timeNext: nat, timeNextMin: nat)

  /** One control check at `time`; `reqs` is what the thread's own queue holds. */
  function ControlPass(s: Sched, time: nat, reqs: seq<ThreadReq>): (s': Sched)
    requires ThrOk(s.thr) && forall r :: r in reqs ==> ReqOk(r)
    ensures ThrOk(s'.thr)
  {
    if time < s.timeNextMin then s
    else
      var scanned := Scan(s.thr, time);
      var m := MinNext(scanned, scanned.n);
      if s.timeNext <= time then
        Sched(HandleReqs(scanned, reqs), s.timerPeriod, time + s.timerPeriod, Min(m, time + s.timerPeriod))
      else
        Sched(scanned, s.timerPeriod, s.timeNext, Min(m, s.timeNext))
  }

  class ThreadData {
    const p: array<nat>
    const pipelineData: array<Slot>
    var nPipelines: nat
    var timerPeriod: nat
    var timeNext: nat
    var timeNextMin: nat

    ghost predicate Valid()
      reads this
    {
      p.Length == pipelineData.Length == PIPELINES_MAX && nPipelines <= PIPELINES_MAX
    }

    ghost function View(): Thr
      reads this, p, pipelineData
    {
      Thr(nPipelines, p[..], pipelineData[..])
    }

    ghost function State(): Sched
      reads this, p, pipelineData
    {
      Sched(View(), timerPeriod, timeNext, timeNextMin)
    }

    /** `thread_init`. */
    constructor (period: nat, now: nat)
      ensures Valid() && fresh(p) && fresh(pipelineData)
      ensures nPipelines == 0 && timerPeriod == period
      ensures timeNext == now + period && timeNextMin == timeNext
    {
      p := new nat[PIPELINES_MAX](_ => 0);
      pipelineData := new Slot[PIPELINES_MAX](_ => Slot(0, seq(TABLES_MAX, _ => 0), 0, 0, 0, 0));
      nPipelines := 0;
      timerPeriod, timeNext, timeNextMin := period, now + period, now + period;
    }

    /** The loop that copies the action contexts into slot `n`. */
    method CopyTableData(n: nat, tabs: seq<nat>)
      requires n < pipelineData.Length && |tabs| <= TABLES_MAX
      modifies pipelineData
      ensures pipelineData[..] ==
              old(pipelineData[..])[n := old(pipelineData[n]).(tabs := Overlay(old(pipelineData[n].tabs), tabs))]
    {
      ghost var s0 := pipelineData[n];
      var i := 0;
      assert Overlay(s0.tabs, tabs[..0]) == s0.tabs;
      while i < |tabs|
        invariant i <= |tabs|
        invariant pipelineData[..] == old(pipelineData[..])[n := s0.(tabs := Overlay(s0.tabs, tabs[..i]))]
      {
        var d := pipelineData[n].tabs;
        assert d == Overlay(s0.tabs, tabs[..i]);
        pipelineData[n] := pipelineData[n].(tabs := d[i := tabs[i]]);
        OverlayStep(s0.tabs, tabs, i);
        i := i + 1;
      }
      assert tabs[..i] == tabs;
    }

    method Enable(rte: nat, tabs: seq<nat>, q: nat, period: nat, now: nat) returns (ok: bool)
      requires Valid() && |tabs| <= TABLES_MAX
      modifies this`nPipelines, p, pipelineData
      ensures Valid()
      ensures match EnableSlot(old(View()), rte, tabs, q, period, now)
              case None => !ok && View() == old(View())
              case Some(t) => ok && View() == t
      ensures ok <==> old(nPipelines) < 256
      ensures ok ==>
                && nPipelines == old(nPipelines) + 1
                && var s := pipelineData[old(nPipelines)];
                   && s.p == rte && s.q == q && s.nTables == |tabs| && s.timeNext == now + s.period
                   && forall k :: 0 <= k < |tabs| ==> s.tabs[k] == tabs[k]
    {
      if nPipelines >= PIPELINES_MAX {
        return false;
      }
      var n := nPipelines;
      p[n] := rte;
      pipelineData[n] := pipelineData[n].(p := rte);
      CopyTableData(n, tabs);
      pipelineData[n] := pipelineData[n].(nTables := |tabs|, q := q, period := period, timeNext := now + period);
      nPipelines := n + 1;
      assert pipelineData[..] == old(pipelineData[..])[n := pipelineData[n]];
      ok := true;
    }

    method Disable(rte: nat) returns (found: bool)
      requires Valid()
      modifies this`nPipelines, p, pipelineData
      ensures Valid() && View() == DisableSlot(old(View()), rte)
      ensures found == (FindSlot(old(View()), rte) < old(nPipelines))
    {
      found := false;
      var i := 0;
      while i < nPipelines
        invariant i <= nPipelines
        invariant FindSlot(View(), rte) >= i
      {
        if pipelineData[i].p == rte {
          if i < nPipelines - 1 {
            p[i] := p[nPipelines - 1];
            pipelineData[i] := pipelineData[nPipelines - 1];
          }
          nPipelines := nPipelines - 1;
          return true;
        }
        i := i + 1;
      }
    }

    /** `thread_msg_handle`, on the requests that are in the queue. */
    method ThreadMsgHandle(reqs: seq<ThreadReq>)
      requires Valid() && forall r :: r in reqs ==> ReqOk(r)
      modifies this`nPipelines, p, pipelineData
      ensures Valid() && View() == HandleReqs(old(View()), reqs)
    {
      var k := 0;
      while k < |reqs|
        invariant k <= |reqs| && Valid()
        invariant View() == HandleReqs(old(View()), reqs[..k])
      {
        var r := reqs[k];
        assert ReqOk(r);
        match r {
          case ReqEnable(rte, tabs, q, period, now) => var _ := Enable(rte, tabs, q, period, now);
          case ReqDisable(rte) => var _ := Disable(rte);
        }
        assert reqs[..k + 1][..k] == reqs[..k];
        k := k + 1;
      }
      assert reqs[..k] == reqs;
    }

    /** The loop over the pipelines: drains those that are due and finds the earliest deadline. */
    method ScanSlots(time: nat) returns (served: seq<nat>, minNext: nat)
      requires Valid()
      modifies pipelineData
      ensures View() == Scan(old(View()), time)
      ensures served == Due(old(View()), nPipelines, time) && minNext == MinNext(View(), nPipelines)
    {
      served, minNext := [], UINT64_MAX;
      ghost var t0 := View();
      var j := 0;
      while j < nPipelines
        invariant j <= nPipelines
        invariant forall k :: 0 <= k < PIPELINES_MAX ==>
                  pipelineData[k] == if k < j then Serve(t0.pd[k], time) else t0.pd[k]
        invariant served == Due(t0, j, time)
        invariant minNext == MinNext(Scan(t0, time), j)
      {
        var next := pipelineData[j].timeNext;
        if next <= time {
          served := served + [pipelineData[j].p];
          next := time + pipelineData[j].period;
          pipelineData[j] := pipelineData[j].(timeNext := next);
        }
        if next < minNext {
          minNext := next;
        }
        j := j + 1;
      }
      assert pipelineData[..] == Scan(t0, time).pd;
    }

    /** The control-plane half of one iteration of `thread_main`; `served` lists the drained pipelines. */
    method Control(time: nat, reqs: seq<ThreadReq>) returns (served: seq<nat>)
      requires Valid() && forall r :: r in reqs ==> ReqOk(r)
      modifies this, p, pipelineData
      ensures Valid() && State() == ControlPass(old(State()), time, reqs)
      ensures served == if time < old(timeNextMin) then [] else Due(old(View()), old(nPipelines), time)
    {
      served := [];
      if time < timeNextMin {
        return;
      }
      var minNext;
      served, minNext := ScanSlots(time);
      var next := timeNext;
      if next <= time {
        ThreadMsgHandle(reqs);
        next := time + timerPeriod;
        timeNext := next;
      }
      if next < minNext {
        minNext := next;
      }
      timeNextMin := minNext;
    }
  }
}
