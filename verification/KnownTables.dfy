/**
 * In every run of the message system a running pipeline works with the action contexts of the tables
 * that it was enabled with (processing/dpdk_pipeline/thread.c:290-294, 473-477, 2800).
 */
module KnownTables {
  import opened Prelude
  import opened Rules
  import opened Tables
  import opened Control
  import opened Messages
  import opened MessageRuns
  import opened CallEffects

  /** At the boundaries of a call; during a call, in the state that it was made in. */
  ghost predicate KnownInv(s: Sys, p: nat, n: nat) {
    match s.main
    case Idle => Knows(s.core, p, n)
    case Sending(_, _, pre) => Knows(pre, p, n)
    case Waiting(_, _, pre) => Knows(pre, p, n)
    case Received(_, _, pre) => Knows(pre, p, n)
  }

  predicate IsOn(core: Core, p: nat) { p < |core.pipes| && core.pipes[p].enabled }

  lemma HandledKeepsPipes(env: Env, pre: Core, c: Call, o: seq<Option<Handle>>, now: nat)
    requires Pending(pre, c) && (!IsThreadCall(c) ==> HasSlot(pre, c.p))
    ensures Handled(env, pre, c, o, now).0.pipes == pre.pipes
  {
  }

  lemma SetupKeepsKnown(env: Env, s: Sys, e: Event, p: nat, n: nat)
    requires Inv(env, s) && Enabled(s, e) && s.main.Idle? && Knows(s.core, p, n)
    requires e.ECreate? || e.EPortIn? || e.EPortOut? || e.ETable? || e.ELaunch?
    ensures Knows(Next(env, s, e).core, p, n)
  {
    StepKeepsInv(env, s, e);
    var core' := Next(env, s, e).core;
    var t := s.core.pipes[p].tid;
    assert core'.thr[t].slots == s.core.thr[t].slots;
    assert core'.pipes[p].enabled && core'.pipes[p].tid == t;
  }

  lemma FinishKeepsKnown(env: Env, s: Sys, p: nat, n: nat)
    requires Inv(env, s) && s.main.Received? && KnownInv(s, p, n) && Enabled(s, EFinish)
    requires IsOn(Next(env, s, EFinish).core, p)
    ensures KnownInv(Next(env, s, EFinish), p, n)
  {
    var (c, m, pre) := (s.main.c, s.main.msg, s.main.pre);
    FinishKeepsInv(env, s);
    CallKeepsKnown(env, pre, c, SlotCtx(pre, c), m.o, m.now, p, n);
  }

  lemma StepKeepsKnown(env: Env, s: Sys, e: Event, p: nat, n: nat)
    requires Inv(env, s) && Enabled(s, e) && KnownInv(s, p, n)
    requires IsOn(Next(env, s, e).core, p)
    ensures KnownInv(Next(env, s, e), p, n)
  {
    match e
    case ECall(c, o) =>
      if Accepts(s.core, c) && !Running(s.core, c) {
        CallKeepsKnown(env, s.core, c, TableCtx(s.core, c), o, s.clock, p, n);
      }
    case EFinish => FinishKeepsKnown(env, s, p, n);
    case ECreate(_) => SetupKeepsKnown(env, s, e, p, n);
    case EPortIn(_) => SetupKeepsKnown(env, s, e, p, n);
    case EPortOut(_) => SetupKeepsKnown(env, s, e, p, n);
    case ETable(_, _, _, _) => SetupKeepsKnown(env, s, e, p, n);
    case ELaunch(_) => SetupKeepsKnown(env, s, e, p, n);
    case _ =>
  }

  /** Only an enable turns a pipeline on. */
  lemma OnlyEnableTurnsOn(env: Env, core: Core, c: Call, a: ActionCtx, o: seq<Option<Handle>>, now: nat, p: nat)
    requires SlotsAgree(core) && Accepts(core, c) && !IsOn(core, p)
    requires IsOn(Stopped(env, core, c, a, o, now).0, p)
    ensures c.CEnable? && c.p == p && p < |core.pipes| && Stopped(env, core, c, a, o, now).1.ok
  {
  }

  /** The step that turns a pipeline on leaves a slot that knows every table of the pipeline. */
  lemma TurningOnKnowsTables(env: Env, s: Sys, e: Event, p: nat)
    requires Inv(env, s) && Enabled(s, e)
    requires !IsOn(s.core, p) && IsOn(Next(env, s, e).core, p)
    ensures p < |s.core.pipes| && KnownInv(Next(env, s, e), p, |s.core.pipes[p].tables|)
  {
    match e
    case ECall(c, o) =>
      OnlyEnableTurnsOn(env, s.core, c, TableCtx(s.core, c), o, s.clock, p);
      EnableKnowsTables(env, s.core, c.t, p, TableCtx(s.core, c), o, s.clock);
    case EFinish =>
      var (c, m, pre) := (s.main.c, s.main.msg, s.main.pre);
      FinishKeepsInv(env, s);
      HandledKeepsPipes(env, pre, c, m.o, m.now);
      OnlyEnableTurnsOn(env, pre, c, SlotCtx(pre, c), m.o, m.now, p);
      EnableKnowsTables(env, pre, c.t, p, SlotCtx(pre, c), m.o, m.now);
    case EHandle(_, _) =>
      HandleIsHandled(env, s, e);
      HandledKeepsPipes(env, s.core, s.main.c, e.o, s.clock);
    case _ =>
  }

  /** Pipeline `p` is turned on by step `i` and stays on up to state `k`. */
  ghost predicate OnSince(ss: seq<Sys>, i: nat, k: nat, p: nat)
    requires i < k < |ss|
  {
    !IsOn(ss[i].core, p) && forall j :: i < j <= k ==> IsOn(ss[j].core, p)
  }

  lemma RunStep(env: Env, ss: seq<Sys>, es: seq<Event>, j: nat)
    requires IsRun(env, ss, es) && j < |es|
    ensures Inv(env, ss[j]) && Enabled(ss[j], es[j]) && ss[j + 1] == Next(env, ss[j], es[j])
  {
    RunKeepsInv(env, ss, es, j);
  }

  /** From state `j` to the next one, unless the pipeline is turned off. */
  ghost predicate KeptBy(ss: seq<Sys>, j: nat, p: nat, n: nat)
    requires j + 1 < |ss|
  {
    KnownInv(ss[j], p, n) && IsOn(ss[j + 1].core, p) ==> KnownInv(ss[j + 1], p, n)
  }

  lemma RunStepKeepsKnown(env: Env, ss: seq<Sys>, es: seq<Event>, j: nat, p: nat, n: nat)
    requires IsRun(env, ss, es) && j < |es|
    ensures KeptBy(ss, j, p, n)
  {
    RunStep(env, ss, es, j);
    var (s, e) := (ss[j], es[j]);
    if KnownInv(s, p, n) && IsOn(Next(env, s, e).core, p) { StepKeepsKnown(env, s, e, p, n); }
  }

  lemma RunStepTurnsOn(env: Env, ss: seq<Sys>, es: seq<Event>, j: nat, p: nat)
    requires IsRun(env, ss, es) && j < |es| && !IsOn(ss[j].core, p) && IsOn(ss[j + 1].core, p)
    ensures p < |ss[j].core.pipes| && KnownInv(ss[j + 1], p, |ss[j].core.pipes[p].tables|)
  {
    RunStep(env, ss, es, j);
    var (s, e) := (ss[j], es[j]);
    assert IsOn(Next(env, s, e).core, p);
    TurningOnKnowsTables(env, s, e, p);
  }

  lemma {:induction false} KnownSince(ss: seq<Sys>, i: nat, k: nat, p: nat, n: nat)
    requires i < k < |ss| && OnSince(ss, i, k, p) && KnownInv(ss[i + 1], p, n)
    requires forall j :: 0 <= j < |ss| - 1 ==> KeptBy(ss, j, p, n)
    ensures KnownInv(ss[k], p, n)
    decreases k
  {
    if k > i + 1 {
      KnownSince(ss, i, k - 1, p, n);
      assert IsOn(ss[k].core, p) && KeptBy(ss, k - 1, p, n);
    }
  }

  /** A call on a table of the running pipeline `p` finds the table known iff it is one of the first `n`. */
  ghost predicate KnownIffBefore(core: Core, p: nat, n: nat, c: Call)
    requires SlotsAgree(core)
  {
    !IsThreadCall(c) && c.p == p && InRange(core, c) ==>
      && HasSlot(core, p) && core.pipes[p].enabled
      && (TableKnown(core, c) <==> c.tb < n)
      && (c.tb < n ==> SlotCtx(core, c) == TableCtx(core, c))
  }

  lemma KnowsAreKnown(core: Core, p: nat, n: nat, c: Call)
    requires SlotsAgree(core) && Knows(core, p, n)
    ensures KnownIffBefore(core, p, n, c)
  {
    if !IsThreadCall(c) && c.p == p && InRange(core, c) {
      assert HasSlot(core, p);
      if c.tb < n { KnownTableHasItsContext(core, c, n); }
    }
  }

  /**
   * In every run, from the enable of a pipeline until its disable: the slot of the pipeline holds the
   * contexts of exactly the tables that existed at the enable, and every call on one of them that goes
   * through the rings works with the table's own context. Tables added later are not known.
   */
  lemma EnabledTablesStayKnown(env: Env, ss: seq<Sys>, es: seq<Event>, i: nat, k: nat, p: nat, c: Call)
    requires IsRun(env, ss, es) && i < k < |ss| && OnSince(ss, i, k, p) && ss[k].main.Idle?
    ensures p < |ss[i].core.pipes| && Knows(ss[k].core, p, |ss[i].core.pipes[p].tables|)
    ensures SlotsAgree(ss[k].core) && KnownIffBefore(ss[k].core, p, |ss[i].core.pipes[p].tables|, c)
  {
    RunStepTurnsOn(env, ss, es, i, p);
    var n := |ss[i].core.pipes[p].tables|;
    forall j | 0 <= j < |ss| - 1 ensures KeptBy(ss, j, p, n) { RunStepKeepsKnown(env, ss, es, j, p, n); }
    KnownSince(ss, i, k, p, n);
    RunKeepsInv(env, ss, es, k);
    KnowsAreKnown(ss[k].core, p, n, c);
  }
}
