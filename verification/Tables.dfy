/**
 * One table seen from both sides: the shadow list that the main thread keeps and the low-level
 * table that forwards packets (processing/dpdk_pipeline/thread.c:1156-1775, 2658-2949).
 *
 * The low-level table is foreign code. It is a map from keys to entries; an add may fail without
 * effect or return a handle of its choice, a bulk add is all or nothing, a delete may fail without
 * effect. Each operation therefore takes the foreign outcome as an argument.
 */
module Tables {
  import opened Prelude
  import opened Rules
  import opened RuleList
  import opened MatchConvert

  type ActionCtx = nat
  type Data = seq<nat>

  /** `rte_table_action_apply`: writes one section of an action into an entry, or fails. */
  datatype Env = Env(apply: (ActionCtx, Data, Section, Action) -> Option<Data>)

  datatype Entry = Entry(h: Handle, data: Data)
  /** `params` are those that the table was created with; they decide which keys it can tell apart. */
  datatype LowTable = LowTable(params: MatchParams, entries: map<Key, Entry>, dflt: Option<Entry>)

  function EmptyLow(params: MatchParams): LowTable { LowTable(params, map[], None) }

  datatype Pair = Pair(rules: seq<Rule>, dflt: Option<Rule>, low: LowTable)

  // ---- Action conversion ----

  function ApplySections(env: Env, a: ActionCtx, act: Action, sections: seq<Section>, data: Data): Option<Data> {
    if sections == [] then Some(data)
    else if sections[0] !in act.mask then ApplySections(env, a, act, sections[1..], data)
    else match env.apply(a, data, sections[0], act)
      case None => None
      case Some(data') => ApplySections(env, a, act, sections[1..], data')
  }

  /** `action_convert` into a zeroed buffer. */
  function ActionConvert(env: Env, a: ActionCtx, act: Action): Option<Data> {
    ApplySections(env, a, act, SECTIONS, [])
  }

  /** The entry written for a default rule: only the forwarding decision counts. */
  function DefaultData(fwd: Fwd): Data {
    match fwd
    case Drop => [0, 0]
    case Port(id) => [1, id]
    case PortMeta => [2, 0]
    case ToTable(id) => [3, id]
  }

  // ---- What each operation does to the low-level table ----

  function RuleEntry(env: Env, a: ActionCtx, p: MatchParams, m: Match, act: Action): Option<(Key, Data)> {
    match KeyOf(p, m)
    case None => None
    case Some(k) =>
      match ActionConvert(env, a, act)
      case None => None
      case Some(d) => Some((k, d))
  }

  function LowAdd(env: Env, a: ActionCtx, low: LowTable, m: Match, act: Action,
                  o: Option<Handle>): (LowTable, Option<Handle>)
  {
    match RuleEntry(env, a, low.params, m, act)
    case None => (low, None)
    case Some((k, d)) =>
      if o.None? then (low, None)
      else (low.(entries := low.entries[k := Entry(o.value, d)]), o)
  }

  function LowDelete(low: LowTable, m: Match, ok: bool): (LowTable, bool) {
    match Convert(m, false)
    case None => (low, false)
    case Some(lm) => if ok then (low.(entries := low.entries - {TableKey(low.params, lm)}), true) else (low, false)
  }

  function ConvertAll(env: Env, a: ActionCtx, p: MatchParams, list: seq<Rule>): Option<seq<(Key, Data)>> {
    if list == [] then Some([])
    else match RuleEntry(env, a, p, list[0].m, list[0].act)
      case None => None
      case Some(kd) =>
        match ConvertAll(env, a, p, list[1..])
        case None => None
        case Some(rest) => Some([kd] + rest)
  }

  /** Adds one after the other up to the first failure; returns the handles of those that went in. */
  function AddMany(low: LowTable, kds: seq<(Key, Data)>, o: seq<Option<Handle>>): (r: (LowTable, seq<Handle>))
    ensures |r.1| <= |kds|
    decreases |kds|
  {
    if kds == [] || o == [] || o[0].None? then (low, [])
    else
      var low1 := low.(entries := low.entries[kds[0].0 := Entry(o[0].value, kds[0].1)]);
      var (low2, hs) := AddMany(low1, kds[1..], o[1..]);
      (low2, [o[0].value] + hs)
  }

  lemma {:induction false} AddManyKeepsDefault(low: LowTable, kds: seq<(Key, Data)>, o: seq<Option<Handle>>)
    ensures AddMany(low, kds, o).0.dflt == low.dflt && AddMany(low, kds, o).0.params == low.params
    decreases |kds|
  {
    if !(kds == [] || o == [] || o[0].None?) {
      AddManyKeepsDefault(low.(entries := low.entries[kds[0].0 := Entry(o[0].value, kds[0].1)]), kds[1..], o[1..]);
    }
  }

  /** The table and the handles of the rules that went in, or None for a failure without effect. */
  type BulkOutcome = Option<(LowTable, seq<Handle>)>

  /** `table_rule_add_bulk_ll`. */
  function LowBulk(env: Env, a: ActionCtx, low: LowTable, list: seq<Rule>, bulk: bool,
                   o: seq<Option<Handle>>): (r: BulkOutcome)
    ensures r.Some? ==> |r.value.1| <= |list|
  {
    match ConvertAll(env, a, low.params, list)
    case None => None
    case Some(kds) =>
      ConvertAllLength(env, a, low.params, list);
      var (low', hs) := AddMany(low, kds, o);
      if (if bulk then |hs| < |list| else list != [] && hs == []) then None else Some((low', hs))
  }

  lemma {:induction false} ConvertAllLength(env: Env, a: ActionCtx, p: MatchParams, list: seq<Rule>)
    ensures var c := ConvertAll(env, a, p, list); c.Some? ==> |c.value| == |list|
  {
    if list != [] { ConvertAllLength(env, a, p, list[1..]); }
  }

  // ---- What each API call does to the pair when the pipeline is not running ----

  function AddEffect(env: Env, a: ActionCtx, t: Pair, m: Match, act: Action, o: Option<Handle>): (Pair, bool) {
    var (low, h) := LowAdd(env, a, t.low, m, act, o);
    if h.None? then (t, false)
    else (t.(rules := Put(t.rules, Rule(m, act, h.value)), low := low), true)
  }

  function DeleteEffect(t: Pair, m: Match, ok: bool): (Pair, bool) {
    var (low, done) := LowDelete(t.low, m, ok);
    if done then (t.(rules := Remove(t.rules, m), low := low), true) else (t, false)
  }

  function WithData(list: seq<Rule>, hs: seq<Handle>): (r: seq<Rule>)
    requires |hs| <= |list|
    ensures |r| == |hs| && forall i :: 0 <= i < |hs| ==> r[i] == list[i].(data := hs[i])
  {
    if hs == [] then [] else [list[0].(data := hs[0])] + WithData(list[1..], hs[1..])
  }

  /** The new pair, success, and the numbers of rules added and not added. */
  function BulkEffect(env: Env, a: ActionCtx, t: Pair, list: seq<Rule>, bulk: bool,
                      o: seq<Option<Handle>>): (Pair, bool, nat, nat)
  {
    match LowBulk(env, a, t.low, list, bulk, o)
    case None => (t, false, 0, 0)
    case Some((low, hs)) =>
      (t.(rules := PutAll(t.rules, WithData(list, hs)), low := low), true, |hs|, |list| - |hs|)
  }

  function DefaultAddEffect(t: Pair, act: Action, o: Option<Handle>, m0: Match): (Pair, bool) {
    if o.None? then (t, false)
    else (t.(dflt := Some(Rule(m0, act, o.value)),
             low := t.low.(dflt := Some(Entry(o.value, DefaultData(act.fwd))))), true)
  }

  function DefaultDeleteEffect(t: Pair, ok: bool): (Pair, bool) {
    if ok then (t.(dflt := None, low := t.low.(dflt := None)), true) else (t, false)
  }

  // ---- Agreement of the two sides ----

  ghost predicate Installed(key: Match -> Option<Key>, good: (Rule, Entry) -> bool, r: Rule, entries: map<Key, Entry>) {
    key(r.m).Some? && key(r.m).value in entries && good(r, entries[key(r.m).value])
  }

  ghost predicate OneRulePerKey(key: Match -> Option<Key>, rules: seq<Rule>) {
    forall i, j :: 0 <= i < j < |rules| ==> key(rules[i].m) != key(rules[j].m)
  }

  ghost predicate Claimed(key: Match -> Option<Key>, rules: seq<Rule>, k: Key) {
    exists i :: 0 <= i < |rules| && key(rules[i].m) == Some(k)
  }

  /** Every rule is installed, no key is claimed twice, no entry is without a rule. */
  ghost predicate OneToOne(key: Match -> Option<Key>, good: (Rule, Entry) -> bool, rules: seq<Rule>,
                           entries: map<Key, Entry>)
  {
    && (forall i :: 0 <= i < |rules| ==> Installed(key, good, rules[i], entries))
    && OneRulePerKey(key, rules)
    && (forall k :: k in entries ==> Claimed(key, rules, k))
  }

  ghost predicate DefaultAgrees(dflt: Option<Rule>, low: Option<Entry>) {
    match dflt
    case None => low.None?
    case Some(r) => low == Some(Entry(r.data, DefaultData(r.act.fwd)))
  }

  /** An entry carries the handle and the converted action of its rule. */
  ghost predicate Mirrors(env: Env, a: ActionCtx, r: Rule, e: Entry) {
    e.h == r.data && ActionConvert(env, a, r.act) == Some(e.data)
  }

  /** The shadow list and the low-level table hold the same rules, and the same default rule. */
  ghost predicate Agree(env: Env, a: ActionCtx, t: Pair) {
    && OneToOne(KeyIn(t.low.params), (r, e) => Mirrors(env, a, r, e), t.rules, t.low.entries)
    && DefaultAgrees(t.dflt, t.low.dflt)
  }

  /** No rule of the list that the table would confuse with `m`, other than `m` itself. */
  predicate AliasFree(key: Match -> Option<Key>, rules: seq<Rule>, m: Match) {
    forall i :: 0 <= i < |rules| && key(rules[i].m) == key(m) ==> rules[i].m == m
  }

  lemma PutKeepsOneToOne(key: Match -> Option<Key>, good: (Rule, Entry) -> bool, rules: seq<Rule>,
                         entries: map<Key, Entry>, r: Rule, e: Entry)
    requires OneToOne(key, good, rules, entries)
    requires key(r.m).Some? && good(r, e) && AliasFree(key, rules, r.m)
    ensures OneToOne(key, good, Put(rules, r), entries[key(r.m).value := e])
  {
    var out, entries' := Put(rules, r), entries[key(r.m).value := e];
    var i := FindIdx(rules, r.m);
    forall j | 0 <= j < |out| ensures Installed(key, good, out[j], entries') {
      if j != i { assert Installed(key, good, rules[j], entries); }
    }
    forall k | k in entries' ensures Claimed(key, out, k) {
      if Some(k) == key(r.m) {
        assert out[i] == r;
      } else {
        assert Claimed(key, rules, k);
        var j :| 0 <= j < |rules| && key(rules[j].m) == Some(k);
        assert out[j] == rules[j];
      }
    }
  }

  lemma PutAliasIsSeen(key: Match -> Option<Key>, rules: seq<Rule>, r: Rule)
    requires !AliasFree(key, rules, r.m)
    ensures !OneRulePerKey(key, Put(rules, r))
  {
    var out, i := Put(rules, r), FindIdx(rules, r.m);
    var j :| 0 <= j < |rules| && key(rules[j].m) == key(r.m) && rules[j].m != r.m;
    assert out[j] == rules[j] && out[i] == r;
    assert key(out[if i < j then i else j].m) == key(out[if i < j then j else i].m);
  }

  lemma RemoveKeepsClaim(key: Match -> Option<Key>, rules: seq<Rule>, m: Match, q: Key)
    requires Claimed(key, rules, q) && key(m) != Some(q)
    ensures Claimed(key, Remove(rules, m), q)
  {
    var j :| 0 <= j < |rules| && key(rules[j].m) == Some(q);
    var i := FindIdx(rules, m);
    if i < |rules| {
      assert Remove(rules, m)[if j < i then j else j - 1] == rules[j];
    }
  }

  lemma RemoveKeepsOneToOne(key: Match -> Option<Key>, good: (Rule, Entry) -> bool, rules: seq<Rule>,
                            entries: map<Key, Entry>, m: Match)
    requires OneToOne(key, good, rules, entries)
    requires key(m).Some? && AliasFree(key, rules, m)
    ensures OneToOne(key, good, Remove(rules, m), entries - {key(m).value})
  {
    var out, entries' := Remove(rules, m), entries - {key(m).value};
    if FindIdx(rules, m) == |rules| {
      assert key(m).value !in entries;
      assert entries' == entries;
    } else {
      forall j | 0 <= j < |out| ensures Installed(key, good, out[j], entries') {
        RemoveKeepsInstalled(key, good, rules, entries, m, j);
      }
      RemoveKeepsKeys(key, rules, m);
      forall q | q in entries' ensures Claimed(key, out, q) {
        assert Claimed(key, rules, q);
        RemoveKeepsClaim(key, rules, m, q);
      }
    }
  }

  /** Where a rule that stays was before. */
  lemma {:induction false} RemoveAt(rules: seq<Rule>, m: Match, j: nat)
    requires FindIdx(rules, m) < |rules| && j < |rules| - 1
    ensures |Remove(rules, m)| == |rules| - 1
    ensures Remove(rules, m)[j] == rules[if j < FindIdx(rules, m) then j else j + 1]
  {
    WithoutAt(rules, FindIdx(rules, m), j);
  }

  lemma WithoutAt(rules: seq<Rule>, i: nat, j: nat)
    requires i < |rules| && j < |rules| - 1
    ensures |rules[..i] + rules[i + 1..]| == |rules| - 1
    ensures (rules[..i] + rules[i + 1..])[j] == rules[if j < i then j else j + 1]
  {
  }

  lemma {:induction false} RemoveKeepsInstalled(key: Match -> Option<Key>, good: (Rule, Entry) -> bool,
                                                rules: seq<Rule>, entries: map<Key, Entry>, m: Match, j: nat)
    requires OneToOne(key, good, rules, entries)
    requires FindIdx(rules, m) < |rules| && j < |Remove(rules, m)| && key(m).Some?
    ensures Installed(key, good, Remove(rules, m)[j], entries - {key(m).value})
  {
    var i := FindIdx(rules, m);
    var j0 := if j < i then j else j + 1;
    RemoveAt(rules, m, j);
    assert Installed(key, good, rules[j0], entries) && key(rules[j0].m) != key(rules[i].m);
  }

  lemma {:induction false} RemoveKeepsKeys(key: Match -> Option<Key>, rules: seq<Rule>, m: Match)
    requires OneRulePerKey(key, rules) && FindIdx(rules, m) < |rules|
    ensures OneRulePerKey(key, Remove(rules, m))
  {
    var out := Remove(rules, m);
    forall x, y | 0 <= x < y < |out| ensures key(out[x].m) != key(out[y].m) {
      RemoveAt(rules, m, x);
      RemoveAt(rules, m, y);
    }
  }

  lemma RemoveAliasIsSeen(key: Match -> Option<Key>, good: (Rule, Entry) -> bool, rules: seq<Rule>,
                          entries: map<Key, Entry>, m: Match)
    requires key(m).Some? && !AliasFree(key, rules, m)
    ensures !OneToOne(key, good, Remove(rules, m), entries - {key(m).value})
  {
    var out, entries' := Remove(rules, m), entries - {key(m).value};
    var i := FindIdx(rules, m);
    var j :| 0 <= j < |rules| && key(rules[j].m) == key(m) && rules[j].m != m;
    var j' := if i < j then j - 1 else j;
    assert out[j'] == rules[j];
    assert !Installed(key, good, out[j'], entries');
  }

  /** An add that goes in keeps the two sides in agreement exactly when it has no alias in the list. */
  lemma AddKeepsAgreementIff(env: Env, a: ActionCtx, t: Pair, m: Match, act: Action, o: Option<Handle>)
    requires Agree(env, a, t)
    ensures var (t', ok) := AddEffect(env, a, t, m, act, o);
            if ok then Agree(env, a, t') <==> AliasFree(KeyIn(t.low.params), t.rules, m) else t' == t
  {
    var (t', ok) := AddEffect(env, a, t, m, act, o);
    if ok {
      var r, e := Rule(m, act, o.value), Entry(o.value, ActionConvert(env, a, act).value);
      var good := (r, e) => Mirrors(env, a, r, e);
      if AliasFree(KeyIn(t.low.params), t.rules, m) {
        PutKeepsOneToOne(KeyIn(t.low.params), good, t.rules, t.low.entries, r, e);
      } else {
        PutAliasIsSeen(KeyIn(t.low.params), t.rules, r);
      }
    }
  }

  /** The same for a delete that the low-level table carries out. */
  lemma DeleteKeepsAgreementIff(env: Env, a: ActionCtx, t: Pair, m: Match, ok: bool)
    requires Agree(env, a, t) && DepthsOk(m)
    ensures var (t', done) := DeleteEffect(t, m, ok);
            && done == ok
            && (if ok then Agree(env, a, t') <==> AliasFree(KeyIn(t.low.params), t.rules, m) else t' == t)
  {
    DeleteFindsWhatAddMade(t.low.params, m);
    if ok {
      var good := (r, e) => Mirrors(env, a, r, e);
      if AliasFree(KeyIn(t.low.params), t.rules, m) {
        RemoveKeepsOneToOne(KeyIn(t.low.params), good, t.rules, t.low.entries, m);
      } else {
        RemoveAliasIsSeen(KeyIn(t.low.params), good, t.rules, t.low.entries, m);
      }
    }
  }

  lemma DefaultKeepsAgreement(env: Env, a: ActionCtx, t: Pair, act: Action, o: Option<Handle>, m0: Match, ok: bool)
    requires Agree(env, a, t)
    ensures Agree(env, a, DefaultAddEffect(t, act, o, m0).0)
    ensures Agree(env, a, DefaultDeleteEffect(t, ok).0)
  {
  }

  // ---- A bulk add is single adds up to the first failure ----

  function Singles(env: Env, a: ActionCtx, t: Pair, list: seq<Rule>, o: seq<Option<Handle>>): (Pair, nat)
    decreases |list|
  {
    if list == [] || o == [] then (t, 0)
    else
      var (t1, ok) := AddEffect(env, a, t, list[0].m, list[0].act, o[0]);
      if !ok then (t, 0)
      else
        var (t2, n) := Singles(env, a, t1, list[1..], o[1..]);
        (t2, n + 1)
  }

  lemma {:induction false} SinglesAreAddMany(env: Env, a: ActionCtx, t: Pair, list: seq<Rule>, o: seq<Option<Handle>>)
    requires ConvertAll(env, a, t.low.params, list).Some?
    ensures var kds := ConvertAll(env, a, t.low.params, list).value;
            var (low, hs) := AddMany(t.low, kds, o);
            && |kds| == |list|
            && Singles(env, a, t, list, o) ==
               (t.(rules := PutAll(t.rules, WithData(list, hs)), low := low), |hs|)
    decreases |list|
  {
    ConvertAllLength(env, a, t.low.params, list);
    if list != [] && o != [] && o[0].Some? {
      var kds := ConvertAll(env, a, t.low.params, list).value;
      assert kds[1..] == ConvertAll(env, a, t.low.params, list[1..]).value;
      var t1 := AddEffect(env, a, t, list[0].m, list[0].act, o[0]).0;
      SinglesAreAddMany(env, a, t1, list[1..], o[1..]);
      var (low, hs) := AddMany(t.low, kds, o);
      var (_, hs1) := AddMany(t1.low, kds[1..], o[1..]);
      assert hs == [o[0].value] + hs1;
      assert hs[1..] == hs1;
      assert WithData(list, hs)[1..] == WithData(list[1..], hs1);
    }
  }

  /**
   * A bulk add to a table without bulk support is the single adds repeated until the first failure:
   * same shadow list, same handles, same entries. It reports failure exactly when nothing went in,
   * and the two counts add up. A rule whose action does not convert stops the whole list.
   */
  lemma {:induction false} BulkIsRepeatedAdd(env: Env, a: ActionCtx, t: Pair, list: seq<Rule>, o: seq<Option<Handle>>)
    requires list != []
    ensures var (t', ok, added, rest) := BulkEffect(env, a, t, list, false, o);
            var (s, n) := Singles(env, a, t, list, o);
            if ConvertAll(env, a, t.low.params, list).None? then !ok && t' == t
            else t' == s && added == n && (ok <==> n > 0) && (ok ==> added + rest == |list|)
  {
    if ConvertAll(env, a, t.low.params, list).Some? {
      SinglesAreAddMany(env, a, t, list, o);
      var (low, hs) := AddMany(t.low, ConvertAll(env, a, t.low.params, list).value, o);
      if hs == [] {
        assert WithData(list, hs) == [];
      }
    }
  }

  /** On a table with bulk support either every rule goes in, as by single adds, or none does. */
  lemma {:induction false} BulkAllOrNothing(env: Env, a: ActionCtx, t: Pair, list: seq<Rule>, o: seq<Option<Handle>>)
    ensures var (t', ok, added, rest) := BulkEffect(env, a, t, list, true, o);
            if ok then added == |list| && rest == 0 && (t', |list|) == Singles(env, a, t, list, o)
            else t' == t && added == 0
    ensures BulkEffect(env, a, t, list, true, o).1 <==> Singles(env, a, t, list, o).1 == |list|
  {
    if ConvertAll(env, a, t.low.params, list).Some? {
      SinglesAreAddMany(env, a, t, list, o);
    } else {
      SinglesStopBefore(env, a, t, list, o);
    }
  }

  lemma {:induction false} SinglesStopBefore(env: Env, a: ActionCtx, t: Pair, list: seq<Rule>, o: seq<Option<Handle>>)
    requires ConvertAll(env, a, t.low.params, list).None?
    ensures Singles(env, a, t, list, o).1 < |list|
    decreases |list|
  {
    if o != [] && o[0].Some? && RuleEntry(env, a, t.low.params, list[0].m, list[0].act).Some? {
      SinglesStopBefore(env, a, AddEffect(env, a, t, list[0].m, list[0].act, o[0]).0, list[1..], o[1..]);
    }
  }

  /** No two different matches among the shadow rules and the new ones share a key. */
  predicate BulkAliasFree(key: Match -> Option<Key>, rules: seq<Rule>, list: seq<Rule>) {
    && (forall j :: 0 <= j < |list| ==> AliasFree(key, rules, list[j].m))
    && (forall j, k :: 0 <= j < |list| && 0 <= k < |list| && key(list[j].m) == key(list[k].m)
          ==> list[j].m == list[k].m)
  }

  lemma AliasFreeAfterPut(key: Match -> Option<Key>, rules: seq<Rule>, r: Rule, m: Match)
    ensures AliasFree(key, Put(rules, r), m) <==> AliasFree(key, rules, m) && (key(r.m) == key(m) ==> r.m == m)
  {
    var i, out := FindIdx(rules, r.m), Put(rules, r);
    assert out[i] == r;
    if AliasFree(key, out, m) {
      forall j | 0 <= j < |rules| && key(rules[j].m) == key(m) ensures rules[j].m == m {
        assert out[j].m == rules[j].m;
      }
    }
  }

  lemma BulkAliasFreeStep(key: Match -> Option<Key>, rules: seq<Rule>, list: seq<Rule>, r: Rule)
    requires list != [] && list[0].m == r.m && AliasFree(key, rules, r.m)
    ensures BulkAliasFree(key, rules, list) <==> BulkAliasFree(key, Put(rules, r), list[1..])
  {
    forall j | 0 <= j < |list|
      ensures AliasFree(key, Put(rules, r), list[j].m) <==>
              AliasFree(key, rules, list[j].m) && (key(r.m) == key(list[j].m) ==> r.m == list[j].m)
    {
      AliasFreeAfterPut(key, rules, r, list[j].m);
    }
    if BulkAliasFree(key, Put(rules, r), list[1..]) {
      assert forall j :: 0 < j < |list| ==> list[j] == list[1..][j - 1];
    }
  }

  lemma BulkAliasFreePrefix(key: Match -> Option<Key>, rules: seq<Rule>, list: seq<Rule>, n: nat, r: Rule)
    requires 0 < n <= |list| && list[0].m == r.m && AliasFree(key, rules, r.m)
    ensures BulkAliasFree(key, rules, list[..n]) <==> BulkAliasFree(key, Put(rules, r), list[1..][..n - 1])
  {
    BulkAliasFreeStep(key, rules, list[..n], r);
    assert list[..n][1..] == list[1..][..n - 1];
  }

  lemma {:induction false} SinglesCount(env: Env, a: ActionCtx, t: Pair, list: seq<Rule>, o: seq<Option<Handle>>)
    ensures Singles(env, a, t, list, o).1 <= |list|
    decreases |list|
  {
    if list != [] && o != [] {
      SinglesCount(env, a, AddEffect(env, a, t, list[0].m, list[0].act, o[0]).0, list[1..], o[1..]);
    }
  }

  lemma PutKeepsClash(key: Match -> Option<Key>, rules: seq<Rule>, r: Rule)
    requires !OneRulePerKey(key, rules)
    ensures !OneRulePerKey(key, Put(rules, r))
  {
    var i, j :| 0 <= i < j < |rules| && key(rules[i].m) == key(rules[j].m);
    var out := Put(rules, r);
    assert out[i].m == rules[i].m && out[j].m == rules[j].m;
  }

  /** Two rules under one key stay: later adds never repair the list. */
  lemma {:induction false} SinglesNeverRepair(env: Env, a: ActionCtx, t: Pair, list: seq<Rule>, o: seq<Option<Handle>>)
    requires !OneRulePerKey(KeyIn(t.low.params), t.rules)
    ensures !OneRulePerKey(KeyIn(t.low.params), Singles(env, a, t, list, o).0.rules)
    decreases |list|
  {
    if list != [] && o != [] {
      var (t1, ok) := AddEffect(env, a, t, list[0].m, list[0].act, o[0]);
      if ok {
        PutKeepsClash(KeyIn(t.low.params), t.rules, Rule(list[0].m, list[0].act, o[0].value));
        SinglesNeverRepair(env, a, t1, list[1..], o[1..]);
      }
    }
  }

  /** The single adds keep agreement exactly when the rules that went in alias nothing. */
  lemma {:induction false} SinglesKeepAgreementIff(env: Env, a: ActionCtx, t: Pair, list: seq<Rule>,
                                                   o: seq<Option<Handle>>)
    requires Agree(env, a, t)
    ensures var (t', n) := Singles(env, a, t, list, o);
            n <= |list| && (Agree(env, a, t') <==> BulkAliasFree(KeyIn(t.low.params), t.rules, list[..n]))
    decreases |list|
  {
    SinglesCount(env, a, t, list, o);
    var n := Singles(env, a, t, list, o).1;
    if n > 0 {
      var r := list[0];
      if AliasFree(KeyIn(t.low.params), t.rules, r.m) {
        var t1 := AddEffect(env, a, t, r.m, r.act, o[0]).0;
        var added := Rule(r.m, r.act, o[0].value);
        AddKeepsAgreementIff(env, a, t, r.m, r.act, o[0]);
        SinglesKeepAgreementIff(env, a, t1, list[1..], o[1..]);
        BulkAliasFreePrefix(KeyIn(t.low.params), t.rules, list, n, added);
      } else {
        assert list[..n][0] == r;
        FirstAliasIsSeen(env, a, t, list, o);
      }
    }
  }

  lemma {:induction false} SinglesKeepParams(env: Env, a: ActionCtx, t: Pair, list: seq<Rule>, o: seq<Option<Handle>>)
    ensures Singles(env, a, t, list, o).0.low.params == t.low.params
    decreases |list|
  {
    if list != [] && o != [] {
      SinglesKeepParams(env, a, AddEffect(env, a, t, list[0].m, list[0].act, o[0]).0, list[1..], o[1..]);
    }
  }

  lemma {:induction false} FirstAliasIsSeen(env: Env, a: ActionCtx, t: Pair, list: seq<Rule>, o: seq<Option<Handle>>)
    requires Singles(env, a, t, list, o).1 > 0 && !AliasFree(KeyIn(t.low.params), t.rules, list[0].m)
    ensures !Agree(env, a, Singles(env, a, t, list, o).0)
  {
    var t1 := AddEffect(env, a, t, list[0].m, list[0].act, o[0]).0;
    PutAliasIsSeen(KeyIn(t.low.params), t.rules, Rule(list[0].m, list[0].act, o[0].value));
    SinglesNeverRepair(env, a, t1, list[1..], o[1..]);
    SinglesKeepParams(env, a, t, list, o);
  }

  /** A bulk add, either kind, keeps agreement exactly when the rules it added alias nothing. */
  lemma BulkKeepsAgreementIff(env: Env, a: ActionCtx, t: Pair, list: seq<Rule>, bulk: bool, o: seq<Option<Handle>>)
    requires Agree(env, a, t) && list != []
    ensures var (t', ok, added, _) := BulkEffect(env, a, t, list, bulk, o);
            added <= |list| &&
            if ok then Agree(env, a, t') <==> BulkAliasFree(KeyIn(t.low.params), t.rules, list[..added]) else t' == t
  {
    SinglesKeepAgreementIff(env, a, t, list, o);
    if bulk { BulkAllOrNothing(env, a, t, list, o); } else { BulkIsRepeatedAdd(env, a, t, list, o); }
  }
}
