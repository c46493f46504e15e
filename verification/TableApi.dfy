/**
 * The rule operations as the C code performs them, on a shadow table object and a low-level table
 * object (processing/dpdk_pipeline/thread.c:1210-1323, 1325-1719, 2789-2942). Every method is tied
 * to the effect functions of module Tables.
 */
module TableApi {
  import opened Prelude
  import opened Rules
  import opened RuleList
  import opened MatchConvert
  import opened Tables
  import opened EntryData

  /** The contract of `rte_pipeline_table_*` for one table; `o` and `ok` are its own decisions. */
  class LowTableObject {
    const params: MatchParams
    var entries: map<Key, Entry>
    var dflt: Option<Entry>

    constructor (params: MatchParams)
      ensures this.params == params && Value() == EmptyLow(params)
    {
      this.params, entries, dflt := params, map[], None;
    }

    function Value(): LowTable
      reads this
    {
      LowTable(params, entries, dflt)
    }

    method EntryAdd(k: Key, d: Data, o: Option<Handle>) returns (r: Option<Handle>)
      modifies this
      ensures r == o && dflt == old(dflt)
      ensures entries == if o.Some? then old(entries)[k := Entry(o.value, d)] else old(entries)
    {
      if o.Some? { entries := entries[k := Entry(o.value, d)]; }
      r := o;
    }

    /** All or nothing. */
    method EntryAddBulk(kds: seq<(Key, Data)>, o: seq<Option<Handle>>) returns (r: Option<seq<Handle>>)
      modifies this
      ensures var (low, hs) := AddMany(old(Value()), kds, o);
              if |hs| == |kds| then r == Some(hs) && Value() == low else r == None && Value() == old(Value())
    {
      var (low, hs) := AddMany(Value(), kds, o);
      if |hs| == |kds| {
        entries := low.entries;
        AddManyKeepsDefault(old(Value()), kds, o);
        r := Some(hs);
      } else {
        r := None;
      }
    }

    method EntryDelete(k: Key, ok: bool) returns (done: bool)
      modifies this
      ensures done == ok && dflt == old(dflt)
      ensures entries == if ok then old(entries) - {k} else old(entries)
    {
      if ok { entries := entries - {k}; }
      done := ok;
    }

    method DefaultEntryAdd(d: Data, o: Option<Handle>) returns (r: Option<Handle>)
      modifies this
      ensures r == o && entries == old(entries)
      ensures dflt == if o.Some? then Some(Entry(o.value, d)) else old(dflt)
    {
      if o.Some? { dflt := Some(Entry(o.value, d)); }
      r := o;
    }

    method DefaultEntryDelete(ok: bool) returns (done: bool)
      modifies this
      ensures done == ok && entries == old(entries)
      ensures dflt == if ok then None else old(dflt)
    {
      if ok { dflt := None; }
      done := ok;
    }
  }

  ghost function PairOf(table: Table, low: LowTableObject): Pair
    reads table, low
  {
    Pair(table.rules, table.ruleDefault, low.Value())
  }

  lemma EntryIsConverted(env: Env, a: ActionCtx, p: MatchParams, m: Match, act: Action)
    ensures var (low, data) := (Convert(m, true), ActionConvert(env, a, act));
            RuleEntry(env, a, p, m, act) ==
            if low.None? || data.None? then None else Some((TableKey(p, low.value), data.value))
  {
  }

  /** What has been converted, and then the rest. */
  ghost function Prepended(kds: seq<(Key, Data)>, rest: Option<seq<(Key, Data)>>): Option<seq<(Key, Data)>> {
    if rest.None? then None else Some(kds + rest.value)
  }

  lemma NothingPrepended(all: Option<seq<(Key, Data)>>)
    ensures Prepended([], all) == all
  {
    if all.Some? { assert [] + all.value == all.value; }
  }

  /** One turn of the conversion loop. */
  lemma {:induction false} ConvertStep(env: Env, a: ActionCtx, p: MatchParams, list: seq<Rule>, i: nat,
                                       kds: seq<(Key, Data)>)
    requires i < |list|
    ensures var e := RuleEntry(env, a, p, list[i].m, list[i].act);
            Prepended(kds, ConvertAll(env, a, p, list[i..])) ==
            if e.None? then None else Prepended(kds + [e.value], ConvertAll(env, a, p, list[i + 1..]))
  {
    var (e, rest) := (RuleEntry(env, a, p, list[i].m, list[i].act), ConvertAll(env, a, p, list[i + 1..]));
    assert list[i..][0] == list[i] && list[i..][1..] == list[i + 1..];
    if e.Some? && rest.Some? { assert kds + ([e.value] + rest.value) == kds + [e.value] + rest.value; }
  }

  /** The conversion loop of `table_rule_add_bulk_ll`. */
  method ConvertRules(env: Env, a: ActionCtx, p: MatchParams, list: seq<Rule>) returns (r: Option<seq<(Key, Data)>>)
    ensures r == ConvertAll(env, a, p, list)
    ensures r.Some? <==> AllConvert(env, a, list)
    ensures r.Some? ==>
              && |r.value| == |list|
              && forall i :: 0 <= i < |list| ==>
                               && KeyOf(p, list[i].m) == Some(r.value[i].0)
                               && Written(env, a, list[i].act) == Some(r.value[i].1)
  {
    ConvertAllIs(env, a, p, list);
    var kds: seq<(Key, Data)> := [];
    var i := 0;
    NothingPrepended(ConvertAll(env, a, p, list));
    assert list[0..] == list;
    while i < |list|
      invariant i <= |list|
      invariant ConvertAll(env, a, p, list) == Prepended(kds, ConvertAll(env, a, p, list[i..]))
    {
      var low, data := Convert(list[i].m, true), ActionConvert(env, a, list[i].act);
      EntryIsConverted(env, a, p, list[i].m, list[i].act);
      ConvertStep(env, a, p, list, i, kds);
      if low.None? || data.None? {
        return None;
      }
      kds := kds + [(TableKey(p, low.value), data.value)];
      i := i + 1;
    }
    assert list[i..] == [];
    assert kds + [] == kds;
    r := Some(kds);
  }

  /**
   * `table_rule_add_bulk_ll`: converts every rule, then adds in one go or one by one, keeping what
   * went in before a failure unless nothing did. Returns the list with the handles written back.
   */
  method TableRuleAddBulkLl(env: Env, a: ActionCtx, low: LowTableObject, list: seq<Rule>, bulk: bool,
                            o: seq<Option<Handle>>) returns (ok: bool, n: nat, list': seq<Rule>)
    modifies low
    ensures match LowBulk(env, a, old(low.Value()), list, bulk, o)
            case None => !ok && low.Value() == old(low.Value())
            case Some((low', hs)) =>
              ok && low.Value() == low' && n == |hs| && list' == WithData(list, hs) + list[|hs|..]
  {
    n, list' := 0, list;
    ConvertAllLength(env, a, low.params, list);
    var kds := ConvertRules(env, a, low.params, list);
    if kds.None? {
      return false, 0, list;
    }
    var hs: seq<Handle> := [];
    if bulk {
      var r := low.EntryAddBulk(kds.value, o);
      if r.None? {
        return false, 0, list;
      }
      hs := r.value;
    } else {
      hs := AddOneByOne(low, kds.value, o);
      if hs == [] && list != [] {
        AddManyNothing(old(low.Value()), kds.value, o);
        return false, 0, list;
      }
    }
    n := |hs|;
    list' := WriteBack(list, hs);
    ok := true;
  }

  lemma {:induction false} AddManyNothing(low: LowTable, kds: seq<(Key, Data)>, o: seq<Option<Handle>>)
    requires AddMany(low, kds, o).1 == []
    ensures AddMany(low, kds, o).0 == low
  {
  }

  method AddOneByOne(low: LowTableObject, kds: seq<(Key, Data)>, o: seq<Option<Handle>>) returns (hs: seq<Handle>)
    modifies low
    ensures (low.Value(), hs) == AddMany(old(low.Value()), kds, o)
  {
    hs := [];
    var i := 0;
    assert kds[0..] == kds && o[0..] == o && [] + AddMany(low.Value(), kds, o).1 == AddMany(low.Value(), kds, o).1;
    while i < |kds|
      invariant i <= |kds| && i == |hs| && i <= |o|
      invariant var (l, rest) := AddMany(low.Value(), kds[i..], o[i..]);
                AddMany(old(low.Value()), kds, o) == (l, hs + rest)
    {
      var out := if i < |o| then o[i] else None;
      assert kds[i..][1..] == kds[i + 1..];
      assert i < |o| ==> o[i..][0] == o[i] && o[i..][1..] == o[i + 1..];
      ghost var before := low.Value();
      var r := low.EntryAdd(kds[i].0, kds[i].1, out);
      if r.None? {
        assert hs + [] == hs;
        return;
      }
      ghost var rest := AddMany(low.Value(), kds[i + 1..], o[i + 1..]).1;
      assert hs + ([r.value] + rest) == hs + [r.value] + rest;
      hs := hs + [r.value];
      i := i + 1;
    }
    assert kds[i..] == [];
    assert hs + [] == hs;
  }

  /** The write-back loop: `rule->data = entries_ptr[i]` for the rules that went in. */
  method WriteBack(list: seq<Rule>, hs: seq<Handle>) returns (list': seq<Rule>)
    requires |hs| <= |list|
    ensures list' == WithData(list, hs) + list[|hs|..]
  {
    list' := list;
    var i := 0;
    while i < |hs|
      invariant i <= |hs| && |list'| == |list|
      invariant forall k :: 0 <= k < |list| ==> list'[k] == if k < i then list[k].(data := hs[k]) else list[k]
    {
      list' := list'[i := list'[i].(data := hs[i])];
      i := i + 1;
    }
  }

  /** `pipeline_table_rule_add` on a stopped pipeline. */
  method RuleAddStopped(env: Env, a: ActionCtx, table: Table, low: LowTableObject, m: Match, act: Action,
                        o: Option<Handle>) returns (ok: bool)
    modifies table, low
    ensures (PairOf(table, low), ok) == AddEffect(env, a, old(PairOf(table, low)), m, act, o)
    ensures ok <==> Convertible(m) && Written(env, a, act).Some? && o.Some?
    ensures ok ==>
              && KeyOf(low.params, m).Some?
              && low.entries ==
                 old(low.entries)[KeyOf(low.params, m).value := Entry(o.value, Written(env, a, act).value)]
  {
    AddWrites(env, a, PairOf(table, low), m, act, o);
    var lm := Convert(m, true);
    if lm.None? { return false; }
    var data := ActionConvert(env, a, act);
    if data.None? { return false; }
    var h := low.EntryAdd(TableKey(low.params, lm.value), data.value, o);
    if h.None? { return false; }
    table.Add(Rule(m, act, h.value));
    ok := true;
  }

  /** `pipeline_table_rule_add_bulk` on a stopped pipeline: the rest of the list is freed and counted. */
  method RuleAddBulkStopped(env: Env, a: ActionCtx, table: Table, low: LowTableObject, list: seq<Rule>, bulk: bool,
                            o: seq<Option<Handle>>) returns (ok: bool, added: nat, notAdded: nat)
    modifies table, low
    ensures (PairOf(table, low), ok, added, notAdded) == BulkEffect(env, a, old(PairOf(table, low)), list, bulk, o)
  {
    var list';
    ok, added, list' := TableRuleAddBulkLl(env, a, low, list, bulk, o);
    if !ok { return false, 0, 0; }
    ghost var hs := LowBulk(env, a, old(low.Value()), list, bulk, o).value.1;
    assert list'[..added] == WithData(list, hs);
    var rest := table.AddBulk(list', added);
    notAdded := |rest|;
  }

  /** `pipeline_table_rule_delete` on a stopped pipeline. */
  method RuleDeleteStopped(table: Table, low: LowTableObject, m: Match, lowOk: bool) returns (ok: bool)
    modifies table, low
    ensures (PairOf(table, low), ok) == DeleteEffect(old(PairOf(table, low)), m, lowOk)
  {
    var lm := Convert(m, false);
    if lm.None? { return false; }
    ok := low.EntryDelete(TableKey(low.params, lm.value), lowOk);
    if ok { table.Delete(m); }
  }

  /** `pipeline_table_rule_add_default` on a stopped pipeline; `m0` is the zeroed match of the rule. */
  method DefaultAddStopped(table: Table, low: LowTableObject, act: Action, o: Option<Handle>, m0: Match)
    returns (ok: bool)
    modifies table, low
    ensures (PairOf(table, low), ok) == DefaultAddEffect(old(PairOf(table, low)), act, o, m0)
  {
    var h := low.DefaultEntryAdd(DefaultData(act.fwd), o);
    if h.None? { return false; }
    table.DefaultAdd(Rule(m0, act, h.value));
    ok := true;
  }

  /** `pipeline_table_rule_delete_default` on a stopped pipeline. */
  method DefaultDeleteStopped(table: Table, low: LowTableObject, lowOk: bool) returns (ok: bool)
    modifies table, low
    ensures (PairOf(table, low), ok) == DefaultDeleteEffect(old(PairOf(table, low)), lowOk)
  {
    ok := low.DefaultEntryDelete(lowOk);
    if ok { table.DefaultDelete(); }
  }

  /** The data-plane half of a rule add: the handler answers with the handle, or fails without effect. */
  method HandleRuleAdd(env: Env, a: ActionCtx, low: LowTableObject, m: Match, act: Action, o: Option<Handle>)
    returns (h: Option<Handle>)
    modifies low
    ensures (low.Value(), h) == LowAdd(env, a, old(low.Value()), m, act, o)
    ensures h == if Convertible(m) && Written(env, a, act).Some? then o else None
    ensures h.Some? ==>
              && KeyOf(low.params, m).Some?
              && low.entries ==
                 old(low.entries)[KeyOf(low.params, m).value := Entry(h.value, Written(env, a, act).value)]
  {
    LowAddWrites(env, a, low.Value(), m, act, o);
    var lm := Convert(m, true);
    if lm.None? { return None; }
    var data := ActionConvert(env, a, act);
    if data.None? { return None; }
    h := low.EntryAdd(TableKey(low.params, lm.value), data.value, o);
  }

  /** The data-plane half of a rule delete. */
  method HandleRuleDelete(low: LowTableObject, m: Match, lowOk: bool) returns (ok: bool)
    modifies low
    ensures (low.Value(), ok) == LowDelete(old(low.Value()), m, lowOk)
  {
    var lm := Convert(m, false);
    if lm.None? { return false; }
    ok := low.EntryDelete(TableKey(low.params, lm.value), lowOk);
  }

  /** The data-plane half of a bulk add; the handles go into the caller's list. */
  method HandleRuleAddBulk(env: Env, a: ActionCtx, low: LowTableObject, list: seq<Rule>, bulk: bool,
                           o: seq<Option<Handle>>) returns (ok: bool, n: nat, list': seq<Rule>)
    modifies low
    ensures match LowBulk(env, a, old(low.Value()), list, bulk, o)
            case None => !ok && n == 0 && low.Value() == old(low.Value())
            case Some((low', hs)) =>
              ok && low.Value() == low' && n == |hs| && list' == WithData(list, hs) + list[|hs|..]
  {
    ok, n, list' := TableRuleAddBulkLl(env, a, low, list, bulk, o);
    if !ok { n := 0; }
  }

  /** The data-plane half of a default add. */
  method HandleDefaultAdd(low: LowTableObject, act: Action, o: Option<Handle>) returns (h: Option<Handle>)
    modifies low
    ensures h == o
    ensures low.Value() ==
            if o.None? then old(low.Value())
            else old(low.Value()).(dflt := Some(Entry(o.value, DefaultData(act.fwd))))
  {
    h := low.DefaultEntryAdd(DefaultData(act.fwd), o);
  }

  /** The data-plane half of a default delete. */
  method HandleDefaultDelete(low: LowTableObject, lowOk: bool) returns (ok: bool)
    modifies low
    ensures ok == lowOk
    ensures low.Value() == if ok then old(low.Value()).(dflt := None) else old(low.Value())
  {
    ok := low.DefaultEntryDelete(lowOk);
  }
}
