/**
 * What an accepted add writes into the low-level table: one `rte_table_action_apply` after the other,
 * for the sections that the action has (processing/dpdk_pipeline/thread.c:2658-2780).
 */
module EntryData {
  import opened Prelude
  import opened Rules
  import opened RuleList
  import opened MatchConvert
  import opened Tables

  /** One step: nothing without the section, otherwise one apply on what the steps before it wrote. */
  function Step(env: Env, a: ActionCtx, act: Action, s: Section, d: Option<Data>): Option<Data> {
    if d.Some? && s in act.mask then env.apply(a, d.value, s, act) else d
  }

  /** The eleven steps in the order of the action bits, on a zeroed buffer. */
  function Written(env: Env, a: ActionCtx, act: Action): Option<Data> {
    var d := Step(env, a, act, SFwd, Some([]));
    var d := Step(env, a, act, SLb, d);
    var d := Step(env, a, act, SMtr, d);
    var d := Step(env, a, act, STm, d);
    var d := Step(env, a, act, SEncap, d);
    var d := Step(env, a, act, SNat, d);
    var d := Step(env, a, act, STtl, d);
    var d := Step(env, a, act, SStats, d);
    var d := Step(env, a, act, STime, d);
    var d := Step(env, a, act, STag, d);
    Step(env, a, act, SDecap, d)
  }

  lemma {:induction false} OneSection(env: Env, a: ActionCtx, act: Action, s: Section, rest: seq<Section>, d: Data)
    ensures ApplySections(env, a, act, [s] + rest, d) ==
            var d' := Step(env, a, act, s, Some(d));
            if d'.None? then None else ApplySections(env, a, act, rest, d'.value)
  {
    assert ([s] + rest)[1..] == rest;
  }

  /** From an optional buffer on. */
  function ApplyFrom(env: Env, a: ActionCtx, act: Action, sections: seq<Section>, d: Option<Data>): Option<Data> {
    if d.None? then None else ApplySections(env, a, act, sections, d.value)
  }

  lemma {:induction false} FromStep(env: Env, a: ActionCtx, act: Action, s: Section, rest: seq<Section>,
                                    d: Option<Data>)
    ensures ApplyFrom(env, a, act, [s] + rest, d) == ApplyFrom(env, a, act, rest, Step(env, a, act, s, d))
  {
    if d.Some? { OneSection(env, a, act, s, rest, d.value); }
  }

  lemma {:induction false} ConvertIsWritten(env: Env, a: ActionCtx, act: Action)
    ensures ActionConvert(env, a, act) == Written(env, a, act)
  {
    var d0: Option<Data> := Some([]);
    var r10: seq<Section> := [SDecap];
    var r9 := [STag] + r10;
    var r8 := [STime] + r9;
    var r7 := [SStats] + r8;
    var r6 := [STtl] + r7;
    var r5 := [SNat] + r6;
    var r4 := [SEncap] + r5;
    var r3 := [STm] + r4;
    var r2 := [SMtr] + r3;
    var r1 := [SLb] + r2;
    assert SECTIONS == [SFwd] + r1;
    assert r10 == [SDecap] + [];
    FromStep(env, a, act, SFwd, r1, d0);
    var d1 := Step(env, a, act, SFwd, d0);
    FromStep(env, a, act, SLb, r2, d1);
    var d2 := Step(env, a, act, SLb, d1);
    FromStep(env, a, act, SMtr, r3, d2);
    var d3 := Step(env, a, act, SMtr, d2);
    FromStep(env, a, act, STm, r4, d3);
    var d4 := Step(env, a, act, STm, d3);
    FromStep(env, a, act, SEncap, r5, d4);
    var d5 := Step(env, a, act, SEncap, d4);
    FromStep(env, a, act, SNat, r6, d5);
    var d6 := Step(env, a, act, SNat, d5);
    FromStep(env, a, act, STtl, r7, d6);
    var d7 := Step(env, a, act, STtl, d6);
    FromStep(env, a, act, SStats, r8, d7);
    var d8 := Step(env, a, act, SStats, d7);
    FromStep(env, a, act, STime, r9, d8);
    var d9 := Step(env, a, act, STime, d8);
    FromStep(env, a, act, STag, r10, d9);
    var d10 := Step(env, a, act, STag, d9);
    FromStep(env, a, act, SDecap, [], d10);
  }

  /** A match fails to convert only with an IPv6 access rule whose prefix is longer than an address. */
  predicate Convertible(m: Match) {
    m.MAcl? && m.addr.AclV6? ==> m.saDepth <= 128 && m.daDepth <= 128
  }

  lemma ConvertsIff(m: Match, add: bool)
    ensures Convert(m, add).Some? <==> Convertible(m)
  {
  }

  /**
   * A single add takes effect exactly when the match converts, no apply of the chain fails, and the
   * low-level table accepts the entry. Then it writes the data of the chain and the handle that the
   * table returned under the key of the match, puts the rule with this handle into the shadow list, and
   * changes nothing else; without effect it changes nothing.
   */
  lemma AddWrites(env: Env, a: ActionCtx, t: Pair, m: Match, act: Action, o: Option<Handle>)
    ensures var (t', ok) := AddEffect(env, a, t, m, act, o);
            && (ok <==> Convertible(m) && Written(env, a, act).Some? && o.Some?)
            && (if ok then
                  && KeyOf(t.low.params, m).Some?
                  && t' == Pair(Put(t.rules, Rule(m, act, o.value)), t.dflt,
                                LowTable(t.low.params,
                                         t.low.entries[KeyOf(t.low.params, m).value :=
                                                       Entry(o.value, Written(env, a, act).value)],
                                         t.low.dflt))
                else t' == t)
  {
    ConvertsIff(m, true);
    ConvertIsWritten(env, a, act);
  }

  /** What the message handler of an add does to the table is the same. */
  lemma LowAddWrites(env: Env, a: ActionCtx, low: LowTable, m: Match, act: Action, o: Option<Handle>)
    ensures var (low', h) := LowAdd(env, a, low, m, act, o);
            && h == (if Convertible(m) && Written(env, a, act).Some? then o else None)
            && (if h.Some? then
                  && KeyOf(low.params, m).Some?
                  && low' == LowTable(low.params,
                                      low.entries[KeyOf(low.params, m).value :=
                                                  Entry(h.value, Written(env, a, act).value)],
                                      low.dflt)
                else low' == low)
  {
    ConvertsIff(m, true);
    ConvertIsWritten(env, a, act);
  }

  // ---- A recording environment shows which sections are applied, with which context ----

  /** Every apply succeeds and leaves a mark of its context and its section. */
  function Recorder(mark: (ActionCtx, Section) -> nat): Env {
    Env((a, d, s, act) => Some(d + [mark(a, s)]))
  }

  function If(c: bool, x: nat): Data { if c then [x] else [] }

  lemma RecorderStep(mark: (ActionCtx, Section) -> nat, a: ActionCtx, act: Action, s: Section, d: Data)
    ensures Step(Recorder(mark), a, act, s, Some(d)) == Some(d + If(s in act.mask, mark(a, s)))
  {
    assert d + [] == d;
  }

  /** The data of an entry: one mark for each section of the action, in order, all with the table's context. */
  lemma WrittenListsSections(mark: (ActionCtx, Section) -> nat, a: ActionCtx, act: Action)
    ensures Written(Recorder(mark), a, act) ==
            Some(If(SFwd in act.mask, mark(a, SFwd)) + If(SLb in act.mask, mark(a, SLb))
                 + If(SMtr in act.mask, mark(a, SMtr)) + If(STm in act.mask, mark(a, STm))
                 + If(SEncap in act.mask, mark(a, SEncap)) + If(SNat in act.mask, mark(a, SNat))
                 + If(STtl in act.mask, mark(a, STtl)) + If(SStats in act.mask, mark(a, SStats))
                 + If(STime in act.mask, mark(a, STime)) + If(STag in act.mask, mark(a, STag))
                 + If(SDecap in act.mask, mark(a, SDecap)))
  {
    var d1 := If(SFwd in act.mask, mark(a, SFwd));
    assert [] + d1 == d1;
    RecorderStep(mark, a, act, SFwd, []);
    var d2 := d1 + If(SLb in act.mask, mark(a, SLb));
    RecorderStep(mark, a, act, SLb, d1);
    var d3 := d2 + If(SMtr in act.mask, mark(a, SMtr));
    RecorderStep(mark, a, act, SMtr, d2);
    var d4 := d3 + If(STm in act.mask, mark(a, STm));
    RecorderStep(mark, a, act, STm, d3);
    var d5 := d4 + If(SEncap in act.mask, mark(a, SEncap));
    RecorderStep(mark, a, act, SEncap, d4);
    var d6 := d5 + If(SNat in act.mask, mark(a, SNat));
    RecorderStep(mark, a, act, SNat, d5);
    var d7 := d6 + If(STtl in act.mask, mark(a, STtl));
    RecorderStep(mark, a, act, STtl, d6);
    var d8 := d7 + If(SStats in act.mask, mark(a, SStats));
    RecorderStep(mark, a, act, SStats, d7);
    var d9 := d8 + If(STime in act.mask, mark(a, STime));
    RecorderStep(mark, a, act, STime, d8);
    var d10 := d9 + If(STag in act.mask, mark(a, STag));
    RecorderStep(mark, a, act, STag, d9);
    RecorderStep(mark, a, act, SDecap, d10);
  }

  // ---- Bulk ----

  predicate AllConvert(env: Env, a: ActionCtx, list: seq<Rule>) {
    forall i :: 0 <= i < |list| ==> Convertible(list[i].m) && Written(env, a, list[i].act).Some?
  }

  lemma {:induction false} ConvertAllIs(env: Env, a: ActionCtx, p: MatchParams, list: seq<Rule>)
    ensures ConvertAll(env, a, p, list).Some? <==> AllConvert(env, a, list)
    ensures ConvertAll(env, a, p, list).Some? ==>
              var kds := ConvertAll(env, a, p, list).value;
              && |kds| == |list|
              && forall i :: 0 <= i < |list| ==>
                               && KeyOf(p, list[i].m) == Some(kds[i].0)
                               && Written(env, a, list[i].act) == Some(kds[i].1)
  {
    if list != [] {
      ConvertsIff(list[0].m, true);
      ConvertIsWritten(env, a, list[0].act);
      ConvertAllIs(env, a, p, list[1..]);
      assert forall i :: 0 < i < |list| ==> list[i] == list[1..][i - 1];
    }
  }

  /** How many adds go in: up to the first that the table refuses, at most `max`. */
  function Leading(o: seq<Option<Handle>>, max: nat): (n: nat)
    ensures n <= max && n <= |o| && (forall i :: 0 <= i < n ==> o[i].Some?)
    ensures n < max && n < |o| ==> o[n].None?
  {
    if max == 0 || o == [] || o[0].None? then 0 else 1 + Leading(o[1..], max - 1)
  }

  /** Entries after some writes: of two writes to one key the later one counts. */
  function After(entries: map<Key, Entry>, ws: seq<(Key, Entry)>): map<Key, Entry> {
    if ws == [] then entries
    else var (k, e) := ws[|ws| - 1]; After(entries, ws[..|ws| - 1])[k := e]
  }

  lemma {:induction false} AfterCons(entries: map<Key, Entry>, k: Key, e: Entry, ws: seq<(Key, Entry)>)
    ensures After(entries[k := e], ws) == After(entries, [(k, e)] + ws)
  {
    var (n, all) := (|ws|, [(k, e)] + ws);
    if n == 0 {
      assert all[..0] == [];
    } else {
      AfterCons(entries, k, e, ws[..n - 1]);
      assert all[..n] == [(k, e)] + ws[..n - 1] && all[n] == ws[n - 1];
    }
  }

  function Writes(kds: seq<(Key, Data)>, hs: seq<Handle>): (ws: seq<(Key, Entry)>)
    requires |hs| <= |kds|
    ensures |ws| == |hs| && forall i :: 0 <= i < |hs| ==> ws[i] == (kds[i].0, Entry(hs[i], kds[i].1))
  {
    seq(|hs|, i requires 0 <= i < |hs| => (kds[i].0, Entry(hs[i], kds[i].1)))
  }

  lemma {:induction false} AddManyHandles(low: LowTable, kds: seq<(Key, Data)>, o: seq<Option<Handle>>)
    ensures var hs := AddMany(low, kds, o).1;
            |hs| == Leading(o, |kds|) && forall i :: 0 <= i < |hs| ==> hs[i] == o[i].value
    decreases |kds|
  {
    if !(kds == [] || o == [] || o[0].None?) {
      AddManyHandles(low.(entries := low.entries[kds[0].0 := Entry(o[0].value, kds[0].1)]), kds[1..], o[1..]);
    }
  }

  lemma WritesCons(kds: seq<(Key, Data)>, h: Handle, hs: seq<Handle>)
    requires |hs| < |kds|
    ensures Writes(kds, [h] + hs) == [(kds[0].0, Entry(h, kds[0].1))] + Writes(kds[1..], hs)
  {
  }

  lemma {:induction false} AddManyWrites(low: LowTable, kds: seq<(Key, Data)>, o: seq<Option<Handle>>)
    ensures var (low', hs) := AddMany(low, kds, o); low'.entries == After(low.entries, Writes(kds, hs))
    decreases |kds|
  {
    if !(kds == [] || o == [] || o[0].None?) {
      var (k, e) := (kds[0].0, Entry(o[0].value, kds[0].1));
      var low1 := low.(entries := low.entries[k := e]);
      AddManyWrites(low1, kds[1..], o[1..]);
      var hs := AddMany(low1, kds[1..], o[1..]).1;
      AfterCons(low.entries, k, e, Writes(kds[1..], hs));
      WritesCons(kds, o[0].value, hs);
    }
  }

  /** The key and the entry of each of the first `n` rules of a list that converts. */
  function RuleWrites(env: Env, a: ActionCtx, p: MatchParams, list: seq<Rule>, o: seq<Option<Handle>>, n: nat)
    : (ws: seq<(Key, Entry)>)
    requires n <= |list| && n <= |o|
    requires forall i :: 0 <= i < n ==> o[i].Some? && KeyOf(p, list[i].m).Some? && Written(env, a, list[i].act).Some?
  {
    seq(n, i requires 0 <= i < n =>
          (KeyOf(p, list[i].m).value, Entry(o[i].value, Written(env, a, list[i].act).value)))
  }

  lemma KeysOfConvertible(env: Env, a: ActionCtx, p: MatchParams, list: seq<Rule>)
    requires AllConvert(env, a, list)
    ensures forall i :: 0 <= i < |list| ==> KeyOf(p, list[i].m).Some?
  {
    forall i | 0 <= i < |list| ensures KeyOf(p, list[i].m).Some? { ConvertsIff(list[i].m, true); }
  }

  /**
   * A bulk add takes effect exactly when every match converts, no apply of any chain fails, and the table
   * accepts at least one entry (every entry, with bulk support). Then the rules up to the first that the
   * table refuses are written one after the other, each under its key with the data of its chain and its
   * handle, and nothing else changes in the table.
   */
  lemma {:induction false} BulkWrites(env: Env, a: ActionCtx, t: Pair, list: seq<Rule>, bulk: bool,
                                      o: seq<Option<Handle>>)
    requires list != []
    ensures var (t', ok, added, rest) := BulkEffect(env, a, t, list, bulk, o);
            var n := Leading(o, |list|);
            && (ok <==> AllConvert(env, a, list) && (if bulk then n == |list| else n > 0))
            && (if ok then
                  && (forall i :: 0 <= i < |list| ==> KeyOf(t.low.params, list[i].m).Some?)
                  && added == n && rest == |list| - n && t'.dflt == t.dflt
                  && t'.low == LowTable(t.low.params,
                                        After(t.low.entries, RuleWrites(env, a, t.low.params, list, o, n)),
                                        t.low.dflt)
                else t' == t)
  {
    ConvertAllIs(env, a, t.low.params, list);
    var all := ConvertAll(env, a, t.low.params, list);
    if all.Some? {
      KeysOfConvertible(env, a, t.low.params, list);
      AddManyWrites(t.low, all.value, o);
      AddManyHandles(t.low, all.value, o);
      AddManyKeepsDefault(t.low, all.value, o);
      var hs := AddMany(t.low, all.value, o).1;
      assert Writes(all.value, hs) == RuleWrites(env, a, t.low.params, list, o, |hs|);
    }
  }
}
