/**
 * Showing a table and loading the file again (processing/dpdk_pipeline/cli.c:4864-5163, 6811-6967):
 * which tables survive, what they load as, and at which line loading stops for the others.
 */
module RuleReload {
  import opened Prelude
  import opened Rules
  import opened Lexer
  import opened RuleParser
  import opened RuleShow
  import opened RuleFile
  import opened Checks

  // ---- Texts made of words ----

  /** `s` tokenises to `ws`, may be extended by another text, and stays on one line. */
  ghost predicate Spells(s: string, ws: seq<string>) {
    && Tokens(s) == ws
    && (s == [] || IsSpace(s[|s| - 1]))
    && (forall i :: 0 <= i < |s| ==> s[i] != '\n')
  }

  lemma SpellsConcat(s: string, t: string, vs: seq<string>, ws: seq<string>)
    requires Spells(s, vs) && Spells(t, ws)
    ensures Spells(s + t, vs + ws)
  {
    TokensAppend(s, t);
  }

  lemma {:induction false} LineStaysOnLine(ts: seq<string>)
    requires AllClean(ts)
    ensures forall i :: 0 <= i < |Line(ts)| ==> Line(ts)[i] != '\n'
  {
    if ts != [] {
      LineStaysOnLine(ts[1..]);
      assert Clean(ts[0]);
    }
  }

  lemma {:induction false} LineSpells(ts: seq<string>)
    requires AllClean(ts)
    ensures Spells(Line(ts), ts)
  {
    TokensOfLine(ts);
    LineEndsInSpace(ts);
    LineStaysOnLine(ts);
  }

  lemma GappedSpells(xs: seq<string>, ys: seq<string>)
    requires AllClean(xs) && AllClean(ys)
    ensures Spells(Gapped(xs, ys), xs + ys)
  {
    LineSpells(xs);
    LineSpells(ys);
    assert Tokens(" ") == [] by { assert Tokens(" ") == Tokens(" "[1..]); }
    SpellsConcat(Line(xs), " ", xs, []);
    SpellsConcat(Line(xs) + " ", Line(ys), xs + [], ys);
    assert xs + [] == xs;
  }

  lemma SectionSpells(pr: Print, s: Section, act: Action)
    requires CleanPrint(pr)
    ensures Spells(SectionText(pr, s, act), SectionWords(pr, s, act))
  {
    var (ws, g) := (SectionWords(pr, s, act), GapAfter(s, act));
    SectionIsClean(pr, s, act);
    if g == 0 || g > |ws| {
      LineSpells(ws);
    } else {
      CutSpells(ws[..g], ws[g..], ws);
    }
  }

  lemma CutSpells(xs: seq<string>, ys: seq<string>, ws: seq<string>)
    requires AllClean(ws) && xs + ys == ws
    ensures Spells(Gapped(xs, ys), ws)
  {
    forall i | 0 <= i < |xs| ensures Clean(xs[i]) { assert ws[i] == xs[i]; }
    forall i | 0 <= i < |ys| ensures Clean(ys[i]) { assert ws[|xs| + i] == ys[i]; }
    GappedSpells(xs, ys);
  }

  lemma {:induction false} SectionsSpell(pr: Print, secs: seq<Section>, act: Action)
    requires CleanPrint(pr)
    ensures Spells(SectionsText(pr, secs, act), ActWords(pr, secs, act))
    decreases |secs|
  {
    if secs != [] {
      var (t, ws) := (SectionsText(pr, secs[1..], act), ActWords(pr, secs[1..], act));
      SectionsSpell(pr, secs[1..], act);
      if secs[0] in act.mask {
        SectionSpells(pr, secs[0], act);
        SpellsConcat(SectionText(pr, secs[0], act), t, SectionWords(pr, secs[0], act), ws);
      } else {
        assert SectionsText(pr, secs, act) == t && ActWords(pr, secs, act) == ws;
      }
    }
  }

  lemma RuleSpells(pr: Print, secs: seq<Section>, m: Match, act: Action, ks: nat)
    requires CleanPrint(pr) && 1 <= ks <= MATCH_SIZE_MAX
    ensures Spells(RuleTextBy(pr, secs, m, act, ks), RuleWordsBy(pr, secs, m, act, ks))
  {
    var (mw, aw) := (MatchWords(pr, m, ks), ActWords(pr, secs, act));
    MatchIsClean(pr, m, ks);
    LineSpells(mw);
    LineSpells(["action"]);
    SectionsSpell(pr, secs, act);
    SpellsThree(Line(mw), Line(["action"]), SectionsText(pr, secs, act), mw, ["action"], aw);
  }

  lemma SpellsThree(s: string, t: string, u: string, xs: seq<string>, ys: seq<string>, zs: seq<string>)
    requires Spells(s, xs) && Spells(t, ys) && Spells(u, zs)
    ensures Spells(s + t + u, xs + (ys + zs))
  {
    SpellsConcat(s, t, xs, ys);
    SpellsConcat(s + t, u, xs + ys, zs);
    assert xs + ys + zs == xs + (ys + zs);
  }

  lemma RuleStarts(pr: Print, secs: seq<Section>, m: Match, act: Action, ks: nat)
    requires 1 <= ks <= MATCH_SIZE_MAX
    ensures var t := RuleTextBy(pr, secs, m, act, ks); |t| >= 2 && t[0] == 'm'
  {
    var mw := MatchWords(pr, m, ks);
    assert mw[0] == "match" && Line(mw) == mw[0] + " " + Line(mw[1..]);
  }

  // ---- Sizes ----

  function Sum(f: Section -> nat, secs: seq<Section>): nat {
    if secs == [] then 0 else f(secs[0]) + Sum(f, secs[1..])
  }

  /** Bounds on the words and the characters of a section other than the meter. */
  function WordMax(s: Section): nat {
    match s
    case SLb => 9
    case STm => 5
    case SEncap => 21
    case SMtr => 0
    case _ => 4
  }

  function TextMax(s: Section): nat {
    match s
    case SFwd => 23
    case SLb => 96
    case SMtr => 0
    case STm => 49
    case SEncap => 195
    case SNat => 58
    case STtl => 10
    case SStats => 6
    case STime => 5
    case STag => 15
    case SDecap => 12
  }

  ghost predicate ShortNumbers(pr: Print) {
    && (forall n: u32 :: |pr.dec(n)| <= 10)
    && (forall n: u16 :: |pr.dec(n)| <= 5)
    && (forall n: nat :: n <= 0xFFFFF ==> |pr.dec(n)| <= 7)
  }

  ghost predicate ShortAddresses(pr: Print) {
    && (forall m: Mac :: |pr.mac(m)| <= 17)
    && (forall a: u32 :: |pr.ip4(a)| <= 40)
    && (forall a: Ip6 :: |pr.ip6(a)| <= 40)
    && (forall bs: seq<u8> :: |pr.hex(bs)| <= 2 * |bs|)
  }

  ghost predicate ShortPrint(pr: Print) { ShortNumbers(pr) && ShortAddresses(pr) }

  function Pow10(k: nat): nat { if k == 0 then 1 else 10 * Pow10(k - 1) }

  lemma {:induction false} DecLength(n: nat, k: nat)
    requires k >= 1 && n < Pow10(k)
    ensures |Dec(n)| <= k
    decreases k
  {
    if n >= 10 {
      assert k > 1;
      DecLength(n / 10, k - 1);
    }
  }

  lemma {:induction false} DecLengths(n: nat)
    ensures (n < 0x1_0000_0000 ==> |Dec(n)| <= 10) && (n <= 0xFFFFF ==> |Dec(n)| <= 7) &&
            (n < 0x1_0000 ==> |Dec(n)| <= 5)
  {
    assert Pow10(5) == 100_000 && Pow10(7) == 10_000_000 && Pow10(10) == 10_000_000_000;
    if n < 10_000_000_000 { DecLength(n, 10); }
    if n < 10_000_000 { DecLength(n, 7); }
    if n < 100_000 { DecLength(n, 5); }
  }

  lemma PrintIsShort()
    ensures ShortPrint(PrintOf())
  {
    NumbersAreShort();
    AddressesAreShort();
  }

  lemma NumbersAreShort()
    ensures ShortNumbers(PrintOf())
  {
    var pr := PrintOf();
    forall n: u32 ensures |pr.dec(n)| <= 10 { DecLengths(n); }
    forall n: u16 ensures |pr.dec(n)| <= 5 { DecLengths(n); }
    forall n: nat | n <= 0xFFFFF ensures |pr.dec(n)| <= 7 { DecLengths(n); }
  }

  lemma AddressesAreShort()
    ensures ShortAddresses(PrintOf())
  {
    var pr := PrintOf();
    forall m: Mac ensures |pr.mac(m)| <= 17 { MacLength(m); }
    forall a: u32 ensures |pr.ip4(a)| <= 40 { ParseIp4ReadsBack(a); }
    forall a: Ip6 ensures |pr.ip6(a)| <= 40 { Ip6StringEnds(a); }
  }

  /** What the proofs need of the lexical readers and printers. */
  ghost predicate Ready(lx: Lex, pr: Print) { ReadsBack(lx, pr) && CleanPrint(pr) && ShortPrint(pr) }

  /** The readers and printers of module Lexer have it. */
  lemma LexIsReady(pton6: string -> Option<Ip6>)
    requires RejectsTrailingColon(pton6)
    ensures Ready(LexOf(pton6), PrintOf())
  {
    LexReadsBack(pton6);
    PrintIsClean();
    PrintIsShort();
  }

  lemma {:induction false} ColonsLength(gs: seq<string>)
    requires gs != [] && forall i :: 0 <= i < |gs| ==> |gs[i]| == 2
    ensures |Colons(gs)| == 3 * |gs| - 1
  {
    if |gs| > 1 { ColonsLength(gs[1..]); }
  }

  lemma MacLength(m: Mac)
    ensures |MacString(m)| == 17
  {
    ColonsLength([Hex2(m[0]), Hex2(m[1]), Hex2(m[2]), Hex2(m[3]), Hex2(m[4]), Hex2(m[5])]);
  }

  ghost predicate WordsUpTo(ws: seq<string>, k: nat) { forall i :: 0 <= i < |ws| ==> |ws[i]| <= k }

  lemma {:induction false} LineAppend(xs: seq<string>, ys: seq<string>)
    ensures Line(xs + ys) == Line(xs) + Line(ys)
  {
    if xs == [] {
      assert xs + ys == ys;
    } else {
      LineAppend(xs[1..], ys);
      assert (xs + ys)[1..] == xs[1..] + ys;
    }
  }

  lemma {:induction false} LineAtMost(ws: seq<string>, k: nat)
    requires WordsUpTo(ws, k)
    ensures |Line(ws)| <= |ws| * (k + 1)
  {
    if ws != [] {
      assert WordsUpTo(ws[1..], k);
      LineAtMost(ws[1..], k);
      assert |ws[1..]| * (k + 1) + (k + 1) == |ws| * (k + 1);
    }
  }

  lemma {:induction false} TwoParts(xs: seq<string>, ys: seq<string>, k: nat, l: nat)
    requires WordsUpTo(xs, k) && WordsUpTo(ys, l)
    ensures |Line(xs + ys)| <= |xs| * (k + 1) + |ys| * (l + 1)
  {
    LineAppend(xs, ys);
    LineAtMost(xs, k);
    LineAtMost(ys, l);
  }

  lemma FwdFits(pr: Print, f: Fwd)
    requires ShortPrint(pr)
    ensures |Line(FwdWords(pr, f))| <= TextMax(SFwd) && |FwdWords(pr, f)| <= 3
  {
    var ws := FwdWords(pr, f);
    TwoParts(ws[..2], ws[2..], 5, 10);
    assert ws[..2] + ws[2..] == ws;
  }

  lemma LbFits(pr: Print, act: Action)
    requires ShortPrint(pr)
    ensures |Line(SectionWords(pr, SLb, act))| <= TextMax(SLb) && |SectionWords(pr, SLb, act)| <= 9
  {
    TwoParts(["balance"], Decs(pr, act.lb), 7, 10);
  }

  lemma TmFits(pr: Print, act: Action)
    requires ShortPrint(pr)
    ensures |Line(SectionWords(pr, STm, act))| <= TextMax(STm) && |SectionWords(pr, STm, act)| == 5
  {
    var ws := SectionWords(pr, STm, act);
    TwoParts(ws[..2], ws[2..], 7, 10);
    assert ws[..2] + ws[2..] == ws;
  }

  lemma {:induction false} LabelsFit(pr: Print, ls: seq<Mpls>, k: nat)
    requires ShortPrint(pr) && k + |ls| <= 4 && forall i :: 0 <= i < |ls| ==> LabelOk(ls[i])
    ensures |LabelWords(pr, ls, k)| == 4 * |ls| && WordsUpTo(LabelWords(pr, ls, k), 7)
    decreases |ls|
  {
    if ls != [] {
      LabelsFit(pr, ls[1..], k + 1);
      assert LabelOk(ls[0]);
    }
  }

  lemma MplsFits(pr: Print, e: Encap)
    requires ShortPrint(pr) && e.MplsHdr? && LabelsMade(e)
    ensures var ws := EncapWords(pr, e);
            5 <= |ws| <= 21 && |Gapped(ws[..3], ws[3..])| <= TextMax(SEncap)
  {
    var (ws, lw) := (EncapWords(pr, e), LabelWords(pr, e.labels, 0));
    LabelsFit(pr, e.labels, 0);
    assert ws[..3] == ["encap", "mpls", if e.unicast then "unicast" else "multicast"];
    assert ws[3..] == [pr.mac(e.da), pr.mac(e.sa)] + lw;
    LineAtMost(ws[..3], 9);
    TwoParts([pr.mac(e.da), pr.mac(e.sa)], lw, 17, 7);
  }

  lemma EncapFits(pr: Print, e: Encap)
    requires ShortPrint(pr) && !e.MplsHdr?
    ensures |Line(EncapWords(pr, e))| <= TextMax(SEncap) && |EncapWords(pr, e)| <= 21
  {
    var ws := EncapWords(pr, e);
    match e
    case Ether(_, _) => LineAtMost(ws, 17);
    case Vlan(_, _, v) => TwoParts(["encap", "vlan", pr.mac(e.da), pr.mac(e.sa)], Tag1QWords(pr, v), 17, 10);
    case QinQ(_, _, sv, cv) => QinQFits(pr, e);
    case QinQPppoe(_, _, _, _, _) => LineAtMost(ws, 7);
    case Pppoe(_, _, _) => LineAtMost(ws, 17);
  }

  lemma QinQFits(pr: Print, e: Encap)
    requires ShortPrint(pr) && e.QinQ?
    ensures |Line(EncapWords(pr, e))| <= TextMax(SEncap) && |EncapWords(pr, e)| == 16
  {
    var (head, sv, cv) :=
      (["encap", "qinq", pr.mac(e.da), pr.mac(e.sa)], Tag1QWords(pr, e.svlan), Tag1QWords(pr, e.cvlan));
    TwoParts(head[..2], head[2..], 5, 17);
    assert head[..2] + head[2..] == head;
    LineAtMost(sv, 10);
    LineAtMost(cv, 10);
    LineAppend(head, sv);
    LineAppend(head + sv, cv);
  }

  lemma NatFits(pr: Print, n: Nat)
    requires ShortPrint(pr)
    ensures var ws := NatWords(pr, n); |ws| == 4 && |Gapped(ws[..2], ws[2..])| <= TextMax(SNat)
  {
    var ws := NatWords(pr, n);
    LineAtMost(ws[..2], 4);
    TwoParts([ws[2]], [ws[3]], 40, 5);
    assert [ws[2]] + [ws[3]] == ws[2..];
  }

  lemma SmallFits(pr: Print, s: Section, act: Action)
    requires ShortPrint(pr) && (s == STtl || s == SStats || s == STime || s == STag || s == SDecap)
    ensures |Line(SectionWords(pr, s, act))| <= TextMax(s) && |SectionWords(pr, s, act)| <= 2
  {
    var ws := SectionWords(pr, s, act);
    TwoParts(ws[..1], ws[1..], |ws[0]|, if s == SDecap then 5 else if s == STag then 10 else 4);
    assert ws[..1] + ws[1..] == ws;
  }

  lemma SectionFits(pr: Print, s: Section, act: Action)
    requires ShortPrint(pr) && LabelsMade(act.encap) && s != SMtr
    ensures |SectionText(pr, s, act)| <= TextMax(s) && |SectionWords(pr, s, act)| <= WordMax(s)
  {
    match s
    case SFwd => FwdFits(pr, act.fwd);
    case SLb => LbFits(pr, act);
    case STm => TmFits(pr, act);
    case SEncap => if act.encap.MplsHdr? { MplsFits(pr, act.encap); } else { EncapFits(pr, act.encap); }
    case SNat => NatFits(pr, act.nat_);
    case _ => SmallFits(pr, s, act);
  }

  lemma {:induction false} SectionsFit(pr: Print, secs: seq<Section>, act: Action)
    requires ShortPrint(pr) && LabelsMade(act.encap) && (SMtr in secs ==> SMtr !in act.mask)
    ensures |SectionsText(pr, secs, act)| <= Sum(TextMax, secs) && |ActWords(pr, secs, act)| <= Sum(WordMax, secs)
    decreases |secs|
  {
    if secs != [] {
      SectionsFit(pr, secs[1..], act);
      if secs[0] in act.mask { SectionFits(pr, secs[0], act); }
    }
  }

  lemma MatchFits(pr: Print, m: Match, ks: nat)
    requires ShortPrint(pr) && ks <= MATCH_SIZE_MAX
    ensures |Line(MatchWords(pr, m, ks))| <= 531 && |MatchWords(pr, m, ks)| <= 10
  {
    var ws := MatchWords(pr, m, ks);
    match m
    case MAcl(_, _, _, _, _, _, _, _, _, _) => AclFits(pr, m, ks);
    case MArray(pos) => LineAtMost(ws, 10);
    case MHash(key) =>
      TwoParts(ws[..3], ws[3..], 5, 512);
      assert ws[..3] + ws[3..] == ws;
    case MLpm(_, _) => LineAtMost(ws, 50);
  }

  lemma AclFits(pr: Print, m: Match, ks: nat)
    requires ShortPrint(pr) && m.MAcl? && ks <= MATCH_SIZE_MAX
    ensures |Line(MatchWords(pr, m, ks))| <= 531 && |MatchWords(pr, m, ks)| == 10
  {
    var ws := MatchWords(pr, m, ks);
    assert |ws[5]| <= 110;
    LineAtMost(ws[..5], 10);
    LineAppend(ws[..5], [ws[5]]);
    LineAtMost([ws[5]], 110);
    LineAppend(ws[..6], ws[6..]);
    LineAtMost(ws[6..], 10);
    assert ws[..5] + [ws[5]] == ws[..6] && ws[..6] + ws[6..] == ws;
  }

  /** The line of a rule without meter, or the part of a line before the meter. */
  lemma {:induction false} RuleFits(pr: Print, secs: seq<Section>, m: Match, act: Action, ks: nat)
    requires ShortPrint(pr) && LabelsMade(act.encap) && (SMtr in secs ==> SMtr !in act.mask) && ks <= MATCH_SIZE_MAX
    ensures |RuleTextBy(pr, secs, m, act, ks)| <= 538 + Sum(TextMax, secs)
    ensures |RuleWordsBy(pr, secs, m, act, ks)| <= 11 + Sum(WordMax, secs)
  {
    MatchFits(pr, m, ks);
    SectionsFit(pr, secs, act);
    LineAtMost(["action"], 6);
  }

  lemma SumOfSections()
    ensures Sum(TextMax, SECTIONS) == 469 && Sum(WordMax, SECTIONS) == 63
    ensures Sum(TextMax, BEFORE_METER) == 119
  {
    SumOfEleven(TextMax);
    SumOfEleven(WordMax);
    SumCons(TextMax, SLb, []);
    SumCons(TextMax, SFwd, [SLb]);
  }

  lemma {:induction false} SumCons(f: Section -> nat, s: Section, secs: seq<Section>)
    ensures Sum(f, [s] + secs) == f(s) + Sum(f, secs)
  {
    assert ([s] + secs)[1..] == secs;
  }

  lemma {:induction false} SumAppend(f: Section -> nat, xs: seq<Section>, ys: seq<Section>)
    ensures Sum(f, xs + ys) == Sum(f, xs) + Sum(f, ys)
  {
    if xs == [] {
      assert xs + ys == ys;
    } else {
      SumAppend(f, xs[1..], ys);
      assert (xs + ys)[1..] == xs[1..] + ys;
    }
  }

  lemma {:induction false} SumOfTwo(f: Section -> nat, a: Section, b: Section)
    ensures Sum(f, [a, b]) == f(a) + f(b)
  {
    SumCons(f, b, []);
    SumCons(f, a, [b]);
    assert [a, b] == [a] + [b] && [b] == [b] + [];
  }

  lemma {:induction false} SumOfFour(f: Section -> nat, a: Section, b: Section, c: Section, d: Section)
    ensures Sum(f, [a, b, c, d]) == f(a) + f(b) + f(c) + f(d)
  {
    SumOfTwo(f, a, b);
    SumOfTwo(f, c, d);
    SumAppend(f, [a, b], [c, d]);
    assert [a, b, c, d] == [a, b] + [c, d];
  }

  lemma {:induction false} SumOfEleven(f: Section -> nat)
    ensures Sum(f, SECTIONS) == f(SFwd) + f(SLb) + f(SMtr) + f(STm) + f(SEncap) + f(SNat) + f(STtl) + f(SStats)
                                + f(STime) + f(STag) + f(SDecap)
  {
    SumOfFour(f, SFwd, SLb, SMtr, STm);
    SumOfFour(f, SEncap, SNat, STtl, SStats);
    SumOfTwo(f, STime, STag);
    var (xs, ys) := ([SFwd, SLb, SMtr, STm], [SEncap, SNat, STtl, SStats]);
    SumAppend(f, xs, ys);
    SumAppend(f, xs + ys, [STime, STag]);
    SumAppend(f, xs + ys + [STime, STag], [SDecap]);
    SumCons(f, SDecap, []);
    assert [SDecap] == [SDecap] + [];
    assert SECTIONS == xs + ys + [STime, STag] + [SDecap];
  }

  const BEFORE_METER: seq<Section> := [SFwd, SLb]
  const AFTER_METER: seq<Section> := [STm, SEncap, SNat, STtl, SStats, STime, STag, SDecap]

  // ---- One line of the file ----

  lemma {:induction false} LineLenWhole(t: string, rest: string, max: nat)
    requires (forall i :: 0 <= i < |t| ==> t[i] != '\n') && |t| < max
    ensures LineLen(t + "\n" + rest, max) == |t| + 1
    decreases |t|
  {
    if t != [] {
      assert (t + "\n" + rest)[1..] == t[1..] + "\n" + rest;
      LineLenWhole(t[1..], rest, max - 1);
    }
  }

  lemma {:induction false} LineLenAtLeast(t: string, rest: string, max: nat)
    requires (forall i :: 0 <= i < |t| ==> t[i] != '\n') && |t| <= max
    ensures LineLen(t + rest, max) >= |t|
    decreases |t|
  {
    if t != [] {
      assert (t + rest)[1..] == t[1..] + rest;
      LineLenAtLeast(t[1..], rest, max - 1);
    }
  }

  /** Reading a file that starts with the line `text` makes `res` of its first line. */
  ghost predicate Takes(rl: LineReader, max: nat, line: nat, text: string, res: LineResult) {
    forall rest ::
      var s := text + "\n" + rest;
      var n := LineLen(s, max);
      rl(line, s[..n]) == res && (res != Bad ==> n == |text| + 1)
  }

  /** What one line of words does, whatever reads the rule. */
  lemma WordsTake(lx: Lex, tsc: nat, text: string, ws: seq<string>)
    requires Spells(text, ws) && 1 <= |ws| <= CMD_MAX_TOKENS && text != [] && text[0] == 'm'
    ensures ReadLine(lx, tsc, text + "\n") ==
            match ReadRule(lx, tsc, ws) { case None => Bad case Some((m, a)) => Parsed(m, a) }
  {
    TokensAppend(text, "\n");
    assert Tokens("\n") == [] by { assert Tokens("\n") == Tokens("\n"[1..]); }
    assert ws + [] == ws;
    MIsNoComment(text + "\n");
  }

  lemma MIsNoComment(s: string)
    requires s != [] && s[0] == 'm'
    ensures !IsComment(s)
  {
    if |s| >= 2 { assert s[..2][0] == 'm'; }
  }

  /** A line whose words, once cut after a prefix, are rejected whatever follows. */
  lemma PrefixRejects(lx: Lex, tsc: nat, a: string, ws: seq<string>, b: string)
    requires Spells(a, ws) && ws != [] && a != [] && a[0] == 'm'
    requires forall us :: ReadRule(lx, tsc, ws + us) == None
    ensures ReadLine(lx, tsc, a + b) == Bad
  {
    TokensAppend(a, b);
    assert ReadRule(lx, tsc, ws + Tokens(b)) == None;
    MIsNoComment(a + b);
  }

  /** A rule without a meter fits into a line. */
  lemma PlainRuleTakes(lx: Lex, pr: Print, tscs: nat -> nat, r: Rule, ks: nat, line: nat)
    requires Ready(lx, pr)
    requires 1 <= ks <= MATCH_SIZE_MAX && ParserMade(r.act) && SMtr !in r.act.mask
    ensures Takes(LinesOf(lx, tscs), LINE_LEN_MAX, line, RuleText(pr, r, ks),
                  Expected(Surviving(ks), AsLoaded(tscs, ks), line, r))
  {
    var (text, ws) := (RuleText(pr, r, ks), RuleWords(pr, r.m, r.act, ks));
    RuleSpells(pr, SECTIONS, r.m, r.act, ks);
    RuleStarts(pr, SECTIONS, r.m, r.act, ks);
    RuleFits(pr, SECTIONS, r.m, r.act, ks);
    SumOfSections();
    RuleReadsBack(lx, pr, tscs(line), r.m, r.act, ks);
    PlainTakes(lx, tscs, text, ws, line, Expected(Surviving(ks), AsLoaded(tscs, ks), line, r));
  }

  lemma PlainTakes(lx: Lex, tscs: nat -> nat, text: string, ws: seq<string>, line: nat, res: LineResult)
    requires Spells(text, ws) && 1 <= |ws| <= CMD_MAX_TOKENS && text != [] && text[0] == 'm' && |text| < LINE_LEN_MAX
    requires res == match ReadRule(lx, tscs(line), ws) { case None => Bad case Some((m, a)) => Parsed(m, a) }
    ensures Takes(LinesOf(lx, tscs), LINE_LEN_MAX, line, text, res)
  {
    var rl := LinesOf(lx, tscs);
    forall rest
      ensures var s := text + "\n" + rest; var n := LineLen(s, LINE_LEN_MAX); rl(line, s[..n]) == res && n == |text| + 1
    {
      LineLenWhole(text, rest, LINE_LEN_MAX);
      WordsTake(lx, tscs(line), text, ws);
      assert (text + "\n" + rest)[..|text| + 1] == text + "\n";
    }
  }

  predicate Survives(r: Rule, ks: nat) { CoveredMatch(r.m, ks) && CoveredAction(r.act) }

  function Surviving(ks: nat): Rule -> bool { (r: Rule) => Survives(r, ks) }

  /** A rule as it is loaded from a line: with its hash key cut and the time stamp of the reading. */
  function AsLoaded(tscs: nat -> nat, ks: nat): (nat, Rule) -> (Match, Action)
    requires ks <= MATCH_SIZE_MAX
  {
    (line: nat, r: Rule) => (CutKey(r.m, ks), Restamp(r.act, tscs(line)))
  }

  /** What loading makes of the line of a rule. */
  function Expected(sv: Rule -> bool, back: (nat, Rule) -> (Match, Action), line: nat, r: Rule): LineResult {
    if sv(r) then Parsed(back(line, r).0, back(line, r).1) else Bad
  }

  // ---- Rules with a meter ----

  lemma TextsRegroup(a: string, b: string, c: string)
    ensures a + (b + c) == a + b + c
  {
  }

  lemma {:induction false} JoinedAppend(show: Section -> string, pre: seq<Section>, post: seq<Section>,
                                        mask: set<Section>)
    ensures Joined(show, pre + post, mask) == Joined(show, pre, mask) + Joined(show, post, mask)
    decreases |pre|
  {
    if pre == [] {
      assert pre + post == post;
    } else {
      var first := if pre[0] in mask then show(pre[0]) else [];
      JoinedAppend(show, pre[1..], post, mask);
      assert (pre + post)[0] == pre[0] && (pre + post)[1..] == pre[1..] + post;
      TextsRegroup(first, Joined(show, pre[1..], mask), Joined(show, post, mask));
    }
  }

  lemma {:induction false} JoinedCons(show: Section -> string, s: Section, post: seq<Section>, mask: set<Section>)
    requires s in mask
    ensures Joined(show, [s] + post, mask) == show(s) + Joined(show, post, mask)
  {
    assert ([s] + post)[1..] == post;
  }

  lemma {:induction false} LineCons(w: string, ws: seq<string>)
    ensures Line([w] + ws) == w + " " + Line(ws)
  {
    assert ([w] + ws)[1..] == ws;
  }

  lemma UngappedText(pr: Print, s: Section, act: Action)
    requires GapAfter(s, act) == 0
    ensures SectionText(pr, s, act) == Line(SectionWords(pr, s, act))
  {
  }

  lemma {:induction false} MeterSectionText(pr: Print, act: Action)
    ensures SectionText(pr, SMtr, act) == "mtr " + Line(MtrWords(pr, act.mtr, 0))
  {
    UngappedText(pr, SMtr, act);
    LineCons("mtr", MtrWords(pr, act.mtr, 0));
    assert "mtr" + " " == "mtr ";
  }

  /** What follows the word that opens the meter. */
  function AfterMeter(pr: Print, post: seq<Section>, act: Action): string {
    Line(MtrWords(pr, act.mtr, 0)) + SectionsText(pr, post, act)
  }

  lemma {:induction false} JoinedThree(show: Section -> string, pre: seq<Section>, s: Section, post: seq<Section>,
                                       mask: set<Section>, a: string, b: string)
    requires s in mask && show(s) == a + b
    ensures Joined(show, pre + ([s] + post), mask) == Joined(show, pre, mask) + (a + (b + Joined(show, post, mask)))
  {
    JoinedAppend(show, pre, [s] + post, mask);
    JoinedCons(show, s, post, mask);
    assert a + b + Joined(show, post, mask) == a + (b + Joined(show, post, mask));
  }

  lemma {:induction false} MeterSectionsText(pr: Print, pre: seq<Section>, post: seq<Section>, act: Action)
    requires SMtr in act.mask
    ensures SectionsText(pr, pre + ([SMtr] + post), act) ==
            SectionsText(pr, pre, act) + ("mtr " + AfterMeter(pr, post, act))
  {
    MeterSectionText(pr, act);
    JoinedThree(SectionShower(pr, act), pre, SMtr, post, act.mask, "mtr ", Line(MtrWords(pr, act.mtr, 0)));
  }

  lemma Regroup(x: string, t: string, u: string, v: string)
    ensures x + (t + (u + v)) == x + t + u + v
  {
  }

  lemma {:induction false} MeterText(pr: Print, pre: seq<Section>, post: seq<Section>, m: Match, act: Action, ks: nat)
    requires ks <= MATCH_SIZE_MAX && SMtr in act.mask
    ensures RuleTextBy(pr, pre + ([SMtr] + post), m, act, ks) ==
            RuleTextBy(pr, pre, m, act, ks) + "mtr " + AfterMeter(pr, post, act)
  {
    MeterSectionsText(pr, pre, post, act);
    Regroup(Line(MatchWords(pr, m, ks)) + Line(["action"]), SectionsText(pr, pre, act), "mtr ",
            AfterMeter(pr, post, act));
  }

  lemma PrefixTakes(lx: Lex, tscs: nat -> nat, a: string, ws: seq<string>, b: string, line: nat)
    requires Spells(a, ws) && ws != [] && a != [] && a[0] == 'm' && |a| <= LINE_LEN_MAX
    requires forall us :: ReadRule(lx, tscs(line), ws + us) == None
    ensures Takes(LinesOf(lx, tscs), LINE_LEN_MAX, line, a + b, Bad)
  {
    var rl := LinesOf(lx, tscs);
    forall rest
      ensures var s := a + b + "\n" + rest; rl(line, s[..LineLen(s, LINE_LEN_MAX)]) == Bad
    {
      var s := a + b + "\n" + rest;
      var n := LineLen(s, LINE_LEN_MAX);
      assert s == a + (b + "\n" + rest);
      LineLenAtLeast(a, b + "\n" + rest, LINE_LEN_MAX);
      assert s[..n] == a + (b + "\n" + rest)[..n - |a|];
      PrefixRejects(lx, tscs(line), a, ws, (b + "\n" + rest)[..n - |a|]);
    }
  }

  lemma MeterRejects(lx: Lex, pr: Print, tsc: nat, m: Match, act: Action, ks: nat)
    requires ReadsBack(lx, pr) && 1 <= ks <= MATCH_SIZE_MAX && ParserMade(act)
    ensures forall us :: ReadRule(lx, tsc, RuleWordsBy(pr, BEFORE_METER, m, act, ks) + ["mtr"] + us) == None
  {
    var ws := RuleWordsBy(pr, BEFORE_METER, m, act, ks) + ["mtr"];
    forall us ensures ReadRule(lx, tsc, ws + us) == None {
      MeterRejectsOne(lx, pr, tsc, m, act, ks, us);
    }
  }

  lemma WordsRegroup(a: seq<string>, b: seq<string>, c: seq<string>)
    ensures a + (b + c) == a + b + c
  {
  }

  lemma MeterRejectsOne(lx: Lex, pr: Print, tsc: nat, m: Match, act: Action, ks: nat, us: seq<string>)
    requires ReadsBack(lx, pr) && 1 <= ks <= MATCH_SIZE_MAX && ParserMade(act)
    ensures ReadRule(lx, tsc, RuleWordsBy(pr, BEFORE_METER, m, act, ks) + ["mtr"] + us) == None
  {
    var (rd, ws) := (SectionReader(lx, tsc), RuleWordsBy(pr, BEFORE_METER, m, act, ks));
    SectionReaderReadsSections(lx, pr, tsc, act);
    SplitAtMeter();
    MeterIsRejectedBy(lx, pr, tsc, m, act, ks, rd, BEFORE_METER, [SMtr] + AFTER_METER, ["mtr"] + us);
    WordsRegroup(ws, ["mtr"], us);
    assert ActionReader(rd, BEFORE_METER + ([SMtr] + AFTER_METER)) == ActionReader(rd, SECTIONS);
  }

  lemma SplitAtMeter()
    ensures BEFORE_METER + ([SMtr] + AFTER_METER) == SECTIONS && DistinctSections(BEFORE_METER) && SMtr !in BEFORE_METER
  {
  }

  /** A rule with a meter fails to load, also when its line is too long and is read in parts. */
  lemma MeterRuleTakes(lx: Lex, pr: Print, tscs: nat -> nat, r: Rule, ks: nat, line: nat)
    requires Ready(lx, pr)
    requires 1 <= ks <= MATCH_SIZE_MAX && ParserMade(r.act) && SMtr in r.act.mask
    ensures Takes(LinesOf(lx, tscs), LINE_LEN_MAX, line, RuleText(pr, r, ks), Bad)
  {
    SplitAtMeter();
    MeterText(pr, BEFORE_METER, AFTER_METER, r.m, r.act, ks);
    var (t, ws) := (RuleTextBy(pr, BEFORE_METER, r.m, r.act, ks), RuleWordsBy(pr, BEFORE_METER, r.m, r.act, ks));
    RuleSpells(pr, BEFORE_METER, r.m, r.act, ks);
    RuleStarts(pr, BEFORE_METER, r.m, r.act, ks);
    RuleFits(pr, BEFORE_METER, r.m, r.act, ks);
    SumOfSections();
    MeterRejects(lx, pr, tscs(line), r.m, r.act, ks);
    MeterWordSpells();
    SpellsConcat(t, "mtr ", ws, ["mtr"]);
    PrefixTakes(lx, tscs, t + "mtr ", ws + ["mtr"], AfterMeter(pr, AFTER_METER, r.act), line);
  }

  lemma MeterWordSpells()
    ensures Spells("mtr ", ["mtr"])
  {
    TokensOfWord("mtr");
    assert "mtr " == "mtr" + " ";
  }

  lemma RuleTakes(lx: Lex, pr: Print, tscs: nat -> nat, r: Rule, ks: nat, line: nat)
    requires Ready(lx, pr)
    requires 1 <= ks <= MATCH_SIZE_MAX && ParserMade(r.act)
    ensures Takes(LinesOf(lx, tscs), LINE_LEN_MAX, line, Shower(pr, ks)(r),
                  Expected(Surviving(ks), AsLoaded(tscs, ks), line, r))
  {
    if SMtr in r.act.mask {
      MeterRuleTakes(lx, pr, tscs, r, ks, line);
      assert !CoveredSection(SMtr, r.act);
    } else {
      PlainRuleTakes(lx, pr, tscs, r, ks, line);
    }
  }

  /** The default rule is a comment. */
  lemma DefaultIsSkipped(lx: Lex, pr: Print, tscs: nat -> nat, default_: Option<Action>, line: nat)
    requires CleanPrint(pr) && ShortPrint(pr)
    ensures Takes(LinesOf(lx, tscs), LINE_LEN_MAX, line, DefaultText(pr, default_), Skip)
  {
    var f := if default_.None? then Drop else default_.value.fwd;
    var text := DefaultText(pr, default_);
    FwdIsClean(pr, f);
    FwdFits(pr, f);
    LineStaysOnLine(FwdWords(pr, f));
    HashText(Line(FwdWords(pr, f)));
    var rl := LinesOf(lx, tscs);
    forall rest
      ensures var s := text + "\n" + rest; var n := LineLen(s, LINE_LEN_MAX);
              rl(line, s[..n]) == Skip && n == |text| + 1
    {
      LineLenWhole(text, rest, LINE_LEN_MAX);
      assert (text + "\n" + rest)[..|text| + 1] == text + "\n";
      assert rl(line, text + "\n") == ReadLine(lx, tscs(line), text + "\n");
    }
  }

  lemma HashText(t: string)
    requires forall i :: 0 <= i < |t| ==> t[i] != '\n'
    ensures var s := "# match default action " + t;
            IsComment(s + "\n") && forall i :: 0 <= i < |s| ==> s[i] != '\n'
  {
  }

  // ---- The whole file ----

  /** How many rules stand before the first that does not survive. */
  function Survivors(sv: Rule -> bool, rules: seq<Rule>): (n: nat)
    ensures n <= |rules| && (n < |rules| ==> !sv(rules[n]))
    ensures forall i :: 0 <= i < n ==> sv(rules[i])
  {
    if rules == [] || !sv(rules[0]) then 0 else 1 + Survivors(sv, rules[1..])
  }

  /** The rules as loaded from line `line` on. */
  function Reloaded(back: (nat, Rule) -> (Match, Action), rules: seq<Rule>, line: nat): (r: seq<(Match, Action)>)
    ensures |r| == |rules|
  {
    if rules == [] then [] else [back(line, rules[0])] + Reloaded(back, rules[1..], line + 1)
  }

  lemma {:induction false} ReloadedAt(back: (nat, Rule) -> (Match, Action), rules: seq<Rule>, line: nat, i: nat)
    requires i < |rules|
    ensures Reloaded(back, rules, line)[i] == back(line + i, rules[i])
  {
    if i > 0 { ReloadedAt(back, rules[1..], line + 1, i - 1); }
  }

  function Outcome(sv: Rule -> bool, back: (nat, Rule) -> (Match, Action), rules: seq<Rule>, line: nat,
                   list: seq<(Match, Action)>): FileResult
  {
    var n := Survivors(sv, rules);
    if n == |rules| then Loaded(list + Reloaded(back, rules, line), |list| + n, line + n + 1)
    else Failed(|list| + n, line + n)
  }

  lemma {:induction false} ReadFirst(rl: LineReader, max: nat, line: nat, text: string, rest: string, res: LineResult,
                                     list: seq<(Match, Action)>)
    requires max > 0 && Takes(rl, max, line, text, res)
    ensures ReadLines(rl, max, text + "\n" + rest, line, list) ==
            match res
            case Skip => ReadLines(rl, max, rest, line + 1, list)
            case Bad => Failed(|list|, line)
            case Parsed(m, a) => ReadLines(rl, max, rest, line + 1, list + [(m, a)])
  {
    var s := text + "\n" + rest;
    var n := LineLen(s, max);
    assert rl(line, s[..n]) == res;
    if res != Bad { assert s[n..] == rest; }
  }

  /** The line loop on what it makes of each line. */
  function Fold(res: seq<LineResult>, line: nat, list: seq<(Match, Action)>): FileResult {
    if res == [] then Loaded(list, |list|, line)
    else match res[0]
      case Skip => Fold(res[1..], line + 1, list)
      case Bad => Failed(|list|, line)
      case Parsed(m, a) => Fold(res[1..], line + 1, list + [(m, a)])
  }

  lemma {:induction false} LoadLines(rl: LineReader, max: nat, ls: seq<string>, res: seq<LineResult>, line: nat,
                                     list: seq<(Match, Action)>)
    requires max > 0 && |ls| == |res| && forall i :: 0 <= i < |ls| ==> Takes(rl, max, line + i, ls[i], res[i])
    ensures ReadLines(rl, max, Lines(ls), line, list) == Fold(res, line, list)
    decreases |ls|
  {
    if ls != [] {
      var (tail, r) := (Lines(ls[1..]), res[0]);
      assert Takes(rl, max, line + 0, ls[0], res[0]);
      ReadFirst(rl, max, line, ls[0], tail, r, list);
      if r != Bad {
        forall i | 0 <= i < |ls[1..]| ensures Takes(rl, max, line + 1 + i, ls[1..][i], res[1..][i]) {
          assert ls[1..][i] == ls[i + 1] && res[1..][i] == res[i + 1] && line + 1 + i == line + (i + 1);
        }
        LoadLines(rl, max, ls[1..], res[1..], line + 1, if r.Skip? then list else list + [(r.m, r.act)]);
      }
    }
  }

  /** What the lines of the rules are taken for, and then the comment. */
  function Expectations(sv: Rule -> bool, back: (nat, Rule) -> (Match, Action), rules: seq<Rule>, line: nat)
    : (r: seq<LineResult>)
    ensures |r| == |rules| + 1 && r[|rules|] == Skip
  {
    if rules == [] then [Skip] else [Expected(sv, back, line, rules[0])] + Expectations(sv, back, rules[1..], line + 1)
  }

  lemma {:induction false} ExpectationsAt(sv: Rule -> bool, back: (nat, Rule) -> (Match, Action), rules: seq<Rule>,
                                          line: nat, i: nat)
    requires i < |rules|
    ensures Expectations(sv, back, rules, line)[i] == Expected(sv, back, line + i, rules[i])
  {
    if i > 0 { ExpectationsAt(sv, back, rules[1..], line + 1, i - 1); }
  }

  lemma {:induction false} FoldExpectations(sv: Rule -> bool, back: (nat, Rule) -> (Match, Action), rules: seq<Rule>,
                                            line: nat, list: seq<(Match, Action)>)
    ensures Fold(Expectations(sv, back, rules, line), line, list) == Outcome(sv, back, rules, line, list)
    decreases |rules|
  {
    var res := Expectations(sv, back, rules, line);
    if rules == [] {
      assert res[1..] == [] && list + [] == list;
    } else {
      assert res[1..] == Expectations(sv, back, rules[1..], line + 1);
      if sv(rules[0]) {
        var first := back(line, rules[0]);
        FoldExpectations(sv, back, rules[1..], line + 1, list + [first]);
        assert list + [first] + Reloaded(back, rules[1..], line + 1) == list + Reloaded(back, rules, line);
      }
    }
  }

  ghost predicate AllTaken(rl: LineReader, max: nat, line: nat, ls: seq<string>, res: seq<LineResult>) {
    |ls| == |res| && forall i :: 0 <= i < |ls| ==> Takes(rl, max, line + i, ls[i], res[i])
  }

  ghost predicate RulesTaken(rl: LineReader, max: nat, show: Rule -> string, sv: Rule -> bool,
                             back: (nat, Rule) -> (Match, Action), rules: seq<Rule>, line: nat)
  {
    forall i :: 0 <= i < |rules| ==> Takes(rl, max, line + i, show(rules[i]), Expected(sv, back, line + i, rules[i]))
  }

  lemma {:induction false} ShownIsTaken(rl: LineReader, max: nat, show: Rule -> string, last: string, sv: Rule -> bool,
                     back: (nat, Rule) -> (Match, Action), rules: seq<Rule>, line: nat)
    requires RulesTaken(rl, max, show, sv, back, rules, line) && Takes(rl, max, line + |rules|, last, Skip)
    ensures AllTaken(rl, max, line, Shown(show, rules) + [last], Expectations(sv, back, rules, line))
  {
    var (ls, res) := (Shown(show, rules) + [last], Expectations(sv, back, rules, line));
    forall i | 0 <= i < |ls| ensures Takes(rl, max, line + i, ls[i], res[i]) {
      if i < |rules| { ExpectationsAt(sv, back, rules, line, i); }
    }
  }

  lemma {:induction false} LoadShown(rl: LineReader, max: nat, sv: Rule -> bool,
                  back: (nat, Rule) -> (Match, Action), rules: seq<Rule>, line: nat, ls: seq<string>)
    requires max > 0 && AllTaken(rl, max, line, ls, Expectations(sv, back, rules, line))
    ensures ReadLines(rl, max, Lines(ls), line, []) == Outcome(sv, back, rules, line, [])
  {
    LoadLines(rl, max, ls, Expectations(sv, back, rules, line), line, []);
    FoldExpectations(sv, back, rules, line, []);
  }

  lemma {:induction false} ShownReloads(rl: LineReader, max: nat, show: Rule -> string, last: string, sv: Rule -> bool,
                     back: (nat, Rule) -> (Match, Action), rules: seq<Rule>)
    requires max > 0 && Takes(rl, max, 1 + |rules|, last, Skip) && RulesTaken(rl, max, show, sv, back, rules, 1)
    ensures var n := Survivors(sv, rules);
            ReadLines(rl, max, Lines(Shown(show, rules) + [last]), 1, []) ==
            if n == |rules| then Loaded(Reloaded(back, rules, 1), |rules|, |rules| + 2) else Failed(n, n + 1)
  {
    ShownIsTaken(rl, max, show, last, sv, back, rules, 1);
    LoadShown(rl, max, sv, back, rules, 1, Shown(show, rules) + [last]);
    assert [] + Reloaded(back, rules, 1) == Reloaded(back, rules, 1);
  }

  /** A table whose actions the parser made. */
  ghost predicate TableMade(rules: seq<Rule>) {
    forall i :: 0 <= i < |rules| ==> ParserMade(rules[i].act)
  }

  lemma LinesAreTaken(lx: Lex, pr: Print, tscs: nat -> nat, rules: seq<Rule>, default_: Option<Action>, ks: nat)
    requires Ready(lx, pr)
    requires 1 <= ks <= MATCH_SIZE_MAX && TableMade(rules)
    ensures RulesTaken(LinesOf(lx, tscs), LINE_LEN_MAX, Shower(pr, ks), Surviving(ks), AsLoaded(tscs, ks), rules, 1)
    ensures Takes(LinesOf(lx, tscs), LINE_LEN_MAX, 1 + |rules|, DefaultText(pr, default_), Skip)
  {
    RuleLinesAreTaken(lx, pr, tscs, rules, ks, LinesOf(lx, tscs), Shower(pr, ks), Surviving(ks), AsLoaded(tscs, ks));
    DefaultIsSkipped(lx, pr, tscs, default_, 1 + |rules|);
  }

  lemma RuleLinesAreTaken(lx: Lex, pr: Print, tscs: nat -> nat, rules: seq<Rule>, ks: nat, rl: LineReader,
                          show: Rule -> string, sv: Rule -> bool, back: (nat, Rule) -> (Match, Action))
    requires Ready(lx, pr) && 1 <= ks <= MATCH_SIZE_MAX && TableMade(rules)
    requires rl == LinesOf(lx, tscs) && show == Shower(pr, ks) && sv == Surviving(ks) && back == AsLoaded(tscs, ks)
    ensures RulesTaken(rl, LINE_LEN_MAX, show, sv, back, rules, 1)
  {
    forall i | 0 <= i < |rules|
      ensures Takes(rl, LINE_LEN_MAX, 1 + i, show(rules[i]), Expected(sv, back, 1 + i, rules[i]))
    {
      RuleTakes(lx, pr, tscs, rules[i], ks, 1 + i);
    }
  }

  lemma {:induction false} TakenTableReloads(lx: Lex, pr: Print, tscs: nat -> nat, rules: seq<Rule>,
                                             default_: Option<Action>, ks: nat)
    requires ks <= MATCH_SIZE_MAX
    requires RulesTaken(LinesOf(lx, tscs), LINE_LEN_MAX, Shower(pr, ks), Surviving(ks), AsLoaded(tscs, ks), rules, 1)
    requires Takes(LinesOf(lx, tscs), LINE_LEN_MAX, 1 + |rules|, DefaultText(pr, default_), Skip)
    ensures var r := ReadLines(LinesOf(lx, tscs), LINE_LEN_MAX, TableText(pr, rules, default_, ks), 1, []);
            var n := Survivors(Surviving(ks), rules);
            r == if n == |rules| then Loaded(Reloaded(AsLoaded(tscs, ks), rules, 1), |rules|, |rules| + 2)
                 else Failed(n, n + 1)
  {
    ShownReloads(LinesOf(lx, tscs), LINE_LEN_MAX, Shower(pr, ks), DefaultText(pr, default_), Surviving(ks),
                 AsLoaded(tscs, ks), rules);
  }

  /** What loading the file makes of a shown table. */
  function Reload(pton6: string -> Option<Ip6>, tscs: nat -> nat, rules: seq<Rule>, default_: Option<Action>,
                  ks: nat): FileResult
    requires ks <= MATCH_SIZE_MAX
  {
    ReadLines(LinesOf(LexOf(pton6), tscs), LINE_LEN_MAX, TableText(PrintOf(), rules, default_, ks), 1, [])
  }

  /** All rules, as loaded, if all survive; otherwise a failure at the line of the first that does not. */
  ghost predicate LoadsSurvivors(r: FileResult, tscs: nat -> nat, rules: seq<Rule>, ks: nat)
    requires ks <= MATCH_SIZE_MAX
  {
    var n := Survivors(Surviving(ks), rules);
    r == if n == |rules| then Loaded(Reloaded(AsLoaded(tscs, ks), rules, 1), |rules|, |rules| + 2) else Failed(n, n + 1)
  }

  /**
   * Showing a table and loading the file. When every rule survives, the same matches and actions come
   * back in the same order, with new time stamps; otherwise loading fails at the line of the first
   * rule that does not survive, after the rules before it.
   */
  lemma {:induction false} ShownTableReloads(pton6: string -> Option<Ip6>, tscs: nat -> nat, rules: seq<Rule>,
                                             default_: Option<Action>, ks: nat)
    requires RejectsTrailingColon(pton6) && 1 <= ks <= MATCH_SIZE_MAX && TableMade(rules)
    ensures LoadsSurvivors(Reload(pton6, tscs, rules, default_, ks), tscs, rules, ks)
  {
    LexIsReady(pton6);
    LinesAreTaken(LexOf(pton6), PrintOf(), tscs, rules, default_, ks);
    TakenTableReloads(LexOf(pton6), PrintOf(), tscs, rules, default_, ks);
  }

  /** A table that loads comes back with the same matches exactly when no hash key is longer than the key size. */
  lemma {:induction false} SameMatchesIff(tscs: nat -> nat, rules: seq<Rule>, ks: nat)
    requires ks <= MATCH_SIZE_MAX
    ensures var back := Reloaded(AsLoaded(tscs, ks), rules, 1);
            (forall i :: 0 <= i < |rules| ==> back[i].0 == rules[i].m) <==>
            (forall i :: 0 <= i < |rules| ==> KeyFits(rules[i].m, ks))
  {
    forall i | 0 <= i < |rules|
      ensures Reloaded(AsLoaded(tscs, ks), rules, 1)[i].0 == rules[i].m <==> KeyFits(rules[i].m, ks)
    {
      ReloadedAt(AsLoaded(tscs, ks), rules, 1, i);
      CutKeyIsSameIff(rules[i].m, ks);
    }
  }

  /** The key size with which the printer shows the rules of a table; it looks at it for hash tables only. */
  function KeySizeOf(p: MatchParams): nat { if p.PHash? then |p.keyMask| else 8 }

  /** All rules passed the check of their table. */
  ghost predicate TableChecked(rules: seq<Rule>, p: MatchParams) {
    forall i :: 0 <= i < |rules| ==> MatchOk(rules[i].m, p)
  }

  /** In a table that can be created, whether a match is taken again depends on the kind of table only. */
  lemma CreatableCovers(m: Match, p: MatchParams)
    requires Creatable(p) && MatchOk(m, p)
    ensures 1 <= KeySizeOf(p) <= 64
    ensures CoveredMatch(m, KeySizeOf(p)) <==> p.PArray? || p.PHash?
  {
  }

  /** What a table that can be created loads as: its rules, the same ones if all keys fit, or a failure. */
  ghost predicate LoadsAs(r: FileResult, tscs: nat -> nat, rules: seq<Rule>, p: MatchParams)
    requires 1 <= KeySizeOf(p) <= 64
  {
    var ks := KeySizeOf(p);
    if rules == [] then r == Loaded([], 0, 2)
    else if !(p.PArray? || p.PHash?) then r == Failed(0, 1)
    else if exists i :: 0 <= i < |rules| && !CoveredAction(rules[i].act) then r.Failed?
    else
      && r == Loaded(Reloaded(AsLoaded(tscs, ks), rules, 1), |rules|, |rules| + 2)
      && ((forall i :: 0 <= i < |rules| ==> r.rules[i].0 == rules[i].m) <==>
          (forall i :: 0 <= i < |rules| ==> KeyFits(rules[i].m, ks)))
  }

  lemma {:induction false} OutcomeIs(r: FileResult, tscs: nat -> nat, rules: seq<Rule>, p: MatchParams)
    requires Creatable(p) && TableChecked(rules, p) && 1 <= KeySizeOf(p) <= 64
    requires LoadsSurvivors(r, tscs, rules, KeySizeOf(p))
    ensures LoadsAs(r, tscs, rules, p)
  {
    var ks := KeySizeOf(p);
    forall i | 0 <= i < |rules|
      ensures Surviving(ks)(rules[i]) <==> (p.PArray? || p.PHash?) && CoveredAction(rules[i].act)
    {
      CreatableCovers(rules[i].m, p);
    }
    SameMatchesIff(tscs, rules, ks);
  }

  /**
   * Every table that can be created and whose rules passed the check: an array or hash table loads
   * exactly when all its actions are covered, and then with the same matches exactly when no hash key is
   * longer than the key size; an ACL or LPM table with a rule fails at its first line.
   */
  lemma {:induction false} CreatedTableReloads(pton6: string -> Option<Ip6>, tscs: nat -> nat, rules: seq<Rule>,
                                               default_: Option<Action>, p: MatchParams)
    requires RejectsTrailingColon(pton6) && Creatable(p) && TableMade(rules) && TableChecked(rules, p)
    ensures 1 <= KeySizeOf(p) <= 64
    ensures LoadsAs(Reload(pton6, tscs, rules, default_, KeySizeOf(p)), tscs, rules, p)
  {
    ShownTableReloads(pton6, tscs, rules, default_, KeySizeOf(p));
    OutcomeIs(Reload(pton6, tscs, rules, default_, KeySizeOf(p)), tscs, rules, p);
  }

  /** A line with more words than the token array holds is an error, unless it is a comment. */
  lemma {:induction false} TooManyWords(lx: Lex, tsc: nat, ts: seq<string>)
    requires AllClean(ts) && |ts| > 256 && !IsComment(Line(ts))
    ensures ReadLine(lx, tsc, Line(ts)) == Bad
  {
    TokenizeWords(ts, CMD_MAX_TOKENS);
  }

  // ---- Lines that hold no rule ----

  /** A line that begins with a comment mark. */
  predicate Comment(text: string) {
    || (|text| >= 1 && (text[0] == '!' || text[0] == '#' || text[0] == '%' || text[0] == ';'))
    || (|text| >= 2 && text[0] == text[1] == '/')
    || (|text| >= 2 && text[0] == text[1] == '-')
  }

  lemma CommentIs(s: string)
    ensures IsComment(s) <==> Comment(s)
  {
    if |s| >= 2 {
      assert s[..2] == "//" <==> s[0] == '/' && s[1] == '/' by { TwoCharacters(s, '/'); }
      assert s[..2] == "--" <==> s[0] == '-' && s[1] == '-' by { TwoCharacters(s, '-'); }
    }
  }

  lemma TwoCharacters(s: string, c: char)
    requires |s| >= 2
    ensures s[..2] == [c, c] <==> s[0] == c && s[1] == c
  {
  }

  lemma {:induction false} BlankHasNoTokens(s: string)
    requires Blank(s)
    ensures Tokens(s) == []
  {
    if s != [] { BlankHasNoTokens(s[1..]); }
  }

  lemma SkippedText(lx: Lex, tsc: nat, text: string)
    requires Comment(text) || Blank(text)
    ensures ReadLine(lx, tsc, text) == Skip
  {
    CommentIs(text);
    if Blank(text) { BlankHasNoTokens(text); }
  }

  /** A comment or a blank line changes neither the rules nor the outcome, it only counts as a line. */
  lemma {:induction false} NoRuleInLine(lx: Lex, tscs: nat -> nat, max: nat, text: string, rest: string, line: nat,
                                        list: seq<(Match, Action)>)
    requires (Comment(text) || Blank(text)) && |text| < max && forall i :: 0 <= i < |text| ==> text[i] != '\n'
    ensures ReadLines(LinesOf(lx, tscs), max, text + "\n" + rest, line, list) ==
            ReadLines(LinesOf(lx, tscs), max, rest, line + 1, list)
  {
    var (s, rl) := (text + "\n" + rest, LinesOf(lx, tscs));
    LineLenWhole(text, rest, max);
    assert s[..|text| + 1] == text + "\n" && s[|text| + 1..] == rest;
    SkippedText(lx, tscs(line), text + "\n");
    assert rl(line, text + "\n") == Skip;
  }

  lemma {:induction false} LineLenCut(t: string, rest: string, max: nat)
    requires (forall i :: 0 <= i < |t| ==> t[i] != '\n') && max <= |t|
    ensures LineLen(t + rest, max) == max
    decreases |t|
  {
    if max > 0 {
      assert (t + rest)[1..] == t[1..] + rest;
      LineLenCut(t[1..], rest, max - 1);
    }
  }

  /** Only the part of a comment that fits into the line buffer is skipped: the rest is read as a line of its own. */
  lemma {:induction false} LongCommentIsCut(lx: Lex, tscs: nat -> nat, max: nat, text: string, rest: string, line: nat,
                                            list: seq<(Match, Action)>)
    requires Comment(text) && 2 <= max <= |text| && forall i :: 0 <= i < |text| ==> text[i] != '\n'
    ensures ReadLines(LinesOf(lx, tscs), max, text + "\n" + rest, line, list) ==
            ReadLines(LinesOf(lx, tscs), max, text[max..] + "\n" + rest, line + 1, list)
  {
    var (s, rl) := (text + "\n" + rest, LinesOf(lx, tscs));
    assert s == text + ("\n" + rest);
    LineLenCut(text, "\n" + rest, max);
    assert s[..max] == text[..max] && s[max..] == text[max..] + "\n" + rest;
    SkippedText(lx, tscs(line), text[..max]);
    assert rl(line, text[..max]) == Skip;
  }

  /** When every line gets the same time stamp, where reading starts shows only in the line number. */
  lemma {:induction false} LaterByOne(rl: LineReader, max: nat, s: string, line: nat, list: seq<(Match, Action)>)
    requires max > 0 && forall l: nat, t :: rl(l + 1, t) == rl(l, t)
    ensures ReadLines(rl, max, s, line + 1, list) ==
            match ReadLines(rl, max, s, line, list)
            case Loaded(rules, n, at) => Loaded(rules, n, at + 1)
            case Failed(n, at) => Failed(n, at + 1)
    decreases |s|
  {
    if s != [] {
      var n := LineLen(s, max);
      assert rl(line + 1, s[..n]) == rl(line, s[..n]);
      match rl(line, s[..n])
      case Skip => LaterByOne(rl, max, s[n..], line + 1, list);
      case Bad =>
      case Parsed(m, a) => LaterByOne(rl, max, s[n..], line + 1, list + [(m, a)]);
    }
  }
}
