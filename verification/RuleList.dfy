/**
 * The shadow rule list of a table (processing/dpdk_pipeline/pipeline.c:1733-1816).
 * `Table` is the C object: its methods find, insert and remove nodes in place. `Put` and
 * `Remove` say what they do to the list, and the lemmas say what that means: the list is an
 * insertion-ordered map from matches to rules.
 */
module RuleList {
  import opened Prelude
  import opened Rules

  /** Position of the first rule with match `m`, or the length of the list. */
  function FindIdx(rules: seq<Rule>, m: Match): (i: nat)
    ensures i <= |rules|
    ensures i < |rules| ==> rules[i].m == m
    ensures forall k :: 0 <= k < i ==> rules[k].m != m
  {
    if rules == [] || rules[0].m == m then 0 else 1 + FindIdx(rules[1..], m)
  }

  function Put(rules: seq<Rule>, r: Rule): seq<Rule> {
    var i := FindIdx(rules, r.m);
    if i < |rules| then rules[i := r] else rules + [r]
  }

  function Remove(rules: seq<Rule>, m: Match): seq<Rule> {
    var i := FindIdx(rules, m);
    if i < |rules| then rules[..i] + rules[i + 1..] else rules
  }

  function PutAll(rules: seq<Rule>, list: seq<Rule>): seq<Rule>
    decreases |list|
  {
    if list == [] then rules else PutAll(Put(rules, list[0]), list[1..])
  }

  /** `struct table`: the rule list and the default rule. */
  class Table {
    var rules: seq<Rule>
    var ruleDefault: Option<Rule>

    constructor ()
      ensures rules == [] && ruleDefault == None
    {
      rules, ruleDefault := [], None;
    }

    method Find(m: Match) returns (i: nat)
      ensures i == FindIdx(rules, m)
    {
      i := 0;
      while i < |rules| && rules[i].m != m
        invariant i <= |rules|
        invariant forall k :: 0 <= k < i ==> rules[k].m != m
      {
        i := i + 1;
      }
    }

    method Add(r: Rule)
      modifies this
      ensures rules == Put(old(rules), r) && ruleDefault == old(ruleDefault)
    {
      var i := Find(r.m);
      if i == |rules| {
        rules := rules + [r];
      } else {
        rules := rules[..i + 1] + [r] + rules[i + 1..];
        rules := rules[..i] + rules[i + 1..];
      }
    }

    /** Moves the first `n` rules of `list` into the table; `rest` is what stays in `list`. */
    method AddBulk(list: seq<Rule>, n: nat) returns (rest: seq<Rule>)
      modifies this
      ensures var k := if n <= |list| then n else |list|;
              rules == PutAll(old(rules), list[..k]) && rest == list[k..]
      ensures ruleDefault == old(ruleDefault)
    {
      rest := list;
      var i := 0;
      while i < n && rest != []
        invariant i <= n && i <= |list| && rest == list[i..]
        invariant rules == PutAll(old(rules), list[..i]) && ruleDefault == old(ruleDefault)
      {
        var r := rest[0];
        rest := rest[1..];
        Add(r);
        PutAllSnoc(old(rules), list[..i], r);
        assert list[..i] + [r] == list[..i + 1];
        i := i + 1;
      }
    }

    method Delete(m: Match)
      modifies this
      ensures rules == Remove(old(rules), m) && ruleDefault == old(ruleDefault)
    {
      var i := Find(m);
      if i < |rules| {
        rules := rules[..i] + rules[i + 1..];
      }
    }

    method DefaultAdd(r: Rule)
      modifies this
      ensures ruleDefault == Some(r) && rules == old(rules)
    {
      ruleDefault := Some(r);
    }

    method DefaultDelete()
      modifies this
      ensures ruleDefault == None && rules == old(rules)
    {
      ruleDefault := None;
    }
  }

  lemma {:induction false} PutAllSnoc(rules: seq<Rule>, list: seq<Rule>, r: Rule)
    ensures PutAll(rules, list + [r]) == Put(PutAll(rules, list), r)
    decreases |list|
  {
    if list == [] {
      assert [r][1..] == [];
      assert PutAll(rules, [r]) == PutAll(Put(rules, r), []);
    } else {
      assert (list + [r])[1..] == list[1..] + [r];
      PutAllSnoc(Put(rules, list[0]), list[1..], r);
    }
  }

  // ---- The list as an insertion-ordered map ----

  ghost predicate Distinct(rules: seq<Rule>) {
    forall i, j :: 0 <= i < j < |rules| ==> rules[i].m != rules[j].m
  }

  /** The matches in list order. */
  function Order(rules: seq<Rule>): (o: seq<Match>)
    ensures |o| == |rules| && forall i :: 0 <= i < |rules| ==> o[i] == rules[i].m
  {
    if rules == [] then [] else [rules[0].m] + Order(rules[1..])
  }

  /** What a lookup of each match returns. */
  function AsMap(rules: seq<Rule>): map<Match, Rule> {
    if rules == [] then map[] else AsMap(rules[1..])[rules[0].m := rules[0]]
  }

  lemma {:induction false} Lookup(rules: seq<Rule>, m: Match)
    ensures m in AsMap(rules) <==> FindIdx(rules, m) < |rules|
    ensures m in AsMap(rules) ==> AsMap(rules)[m] == rules[FindIdx(rules, m)]
  {
    if rules != [] && rules[0].m != m {
      Lookup(rules[1..], m);
    }
  }

  lemma {:induction false} IdxIs(rules: seq<Rule>, m: Match, i: nat)
    requires i <= |rules| && (forall k :: 0 <= k < i ==> rules[k].m != m)
    requires i < |rules| ==> rules[i].m == m
    ensures FindIdx(rules, m) == i
  {
  }

  /** An existing match is replaced at its old position, a new one goes last. */
  lemma {:induction false} PutRefinesMap(rules: seq<Rule>, r: Rule)
    requires Distinct(rules)
    ensures Distinct(Put(rules, r))
    ensures AsMap(Put(rules, r)) == AsMap(rules)[r.m := r]
    ensures Order(Put(rules, r)) ==
            if r.m in AsMap(rules) then Order(rules) else Order(rules) + [r.m]
  {
    var i, out := FindIdx(rules, r.m), Put(rules, r);
    Lookup(rules, r.m);
    forall m
      ensures m in AsMap(out) <==> m in AsMap(rules)[r.m := r]
      ensures m in AsMap(out) ==> AsMap(out)[m] == AsMap(rules)[r.m := r][m]
    {
      Lookup(rules, m);
      Lookup(out, m);
      var k := FindIdx(rules, m);
      IdxIs(out, m, if m == r.m then i else if k == |rules| then |out| else k);
    }
  }

  /** Where a lookup lands after the rule at the position of `m` is gone. */
  lemma {:induction false} RemoveLookup(rules: seq<Rule>, m: Match, q: Match)
    requires Distinct(rules) && FindIdx(rules, m) < |rules|
    ensures var out, i, k := Remove(rules, m), FindIdx(rules, m), FindIdx(rules, q);
            FindIdx(out, q) == if q == m || k == |rules| then |out| else if k < i then k else k - 1
  {
    var out, i, k := Remove(rules, m), FindIdx(rules, m), FindIdx(rules, q);
    WithoutIs(rules, i);
    IdxIs(out, q, if q == m || k == |rules| then |out| else if k < i then k else k - 1);
  }

  lemma WithoutIs(rules: seq<Rule>, i: nat)
    requires i < |rules|
    ensures var out := rules[..i] + rules[i + 1..];
            |out| == |rules| - 1 && forall j :: 0 <= j < |out| ==> out[j] == rules[if j < i then j else j + 1]
  {
  }

  /** A delete takes out exactly one key. */
  lemma {:induction false} RemoveRefinesMap(rules: seq<Rule>, m: Match)
    requires Distinct(rules)
    ensures AsMap(Remove(rules, m)) == AsMap(rules) - {m}
  {
    var i, out := FindIdx(rules, m), Remove(rules, m);
    Lookup(rules, m);
    forall q
      ensures q in AsMap(out) <==> q in AsMap(rules) && q != m
      ensures q in AsMap(out) ==> AsMap(out)[q] == AsMap(rules)[q]
    {
      Lookup(rules, q);
      Lookup(out, q);
      if i < |rules| { RemoveLookup(rules, m, q); }
    }
  }

  /** The rules that a delete leaves stay distinct and in the same order. */
  lemma {:induction false} RemoveKeepsOrder(rules: seq<Rule>, m: Match)
    requires Distinct(rules)
    ensures Distinct(Remove(rules, m))
    ensures var i := FindIdx(rules, m);
            Order(Remove(rules, m)) ==
            if i < |rules| then Order(rules)[..i] + Order(rules)[i + 1..] else Order(rules)
  {
    var i, out := FindIdx(rules, m), Remove(rules, m);
    if i < |rules| {
      forall a, b | 0 <= a < b < |out| ensures out[a].m != out[b].m {
        var a', b' := if a < i then a else a + 1, if b < i then b else b + 1;
        assert rules[a'].m != rules[b'].m;
      }
      RemoveOrderAt(rules, i);
    }
  }

  lemma {:induction false} RemoveOrderAt(rules: seq<Rule>, i: nat)
    requires i < |rules|
    ensures Order(rules[..i] + rules[i + 1..]) == Order(rules)[..i] + Order(rules)[i + 1..]
  {
    var lhs, rhs := Order(rules[..i] + rules[i + 1..]), Order(rules)[..i] + Order(rules)[i + 1..];
    assert |lhs| == |rhs|;
    forall k | 0 <= k < |lhs| ensures lhs[k] == rhs[k] {
      if k < i { assert rhs[k] == rules[k].m; } else { assert rhs[k] == rules[k + 1].m; }
    }
  }
}
