/**
 * A table written to a file by `table_rule_show` (processing/dpdk_pipeline/cli.c:4864-5163) and a
 * rule file read by `cli_rule_file_process` (cli.c:6811-6967): what a shown table loads as.
 */
module RuleFile {
  import opened Prelude
  import opened Rules
  import opened Lexer
  import opened RuleParser
  import opened RuleShow

  const LINE_LEN_MAX := 1024
  const CMD_MAX_TOKENS := 256

  // ---- The text of a shown table ----

  /** Two lists of words with one space too many between them. */
  function Gapped(xs: seq<string>, ys: seq<string>): string { Line(xs) + " " + Line(ys) }

  /** The format strings of `mpls` and `nat` print a second space after the word that selects the kind. */
  function GapAfter(s: Section, act: Action): nat {
    if s == SEncap && act.encap.MplsHdr? then 3 else if s == SNat then 2 else 0
  }

  function SectionText(pr: Print, s: Section, act: Action): string
  {
    var (ws, g) := (SectionWords(pr, s, act), GapAfter(s, act));
    if g == 0 || g > |ws| then Line(ws) else Gapped(ws[..g], ws[g..])
  }

  function SectionShower(pr: Print, act: Action): Section -> string { s => SectionText(pr, s, act) }

  /** The texts of the sections in the mask, one after the other. */
  function Joined(show: Section -> string, secs: seq<Section>, mask: set<Section>): string
    decreases |secs|, mask
  {
    if secs == [] then []
    else (if secs[0] in mask then show(secs[0]) else []) + Joined(show, secs[1..], mask)
  }

  function SectionsText(pr: Print, secs: seq<Section>, act: Action): string {
    Joined(SectionShower(pr, act), secs, act.mask)
  }

  function RuleTextBy(pr: Print, secs: seq<Section>, m: Match, act: Action, ks: nat): string
    requires ks <= MATCH_SIZE_MAX
  {
    Line(MatchWords(pr, m, ks)) + Line(["action"]) + SectionsText(pr, secs, act)
  }

  /** One line of the file, without its newline. */
  function RuleText(pr: Print, r: Rule, ks: nat): string
    requires ks <= MATCH_SIZE_MAX
  {
    RuleTextBy(pr, SECTIONS, r.m, r.act, ks)
  }

  /** The default rule is shown as a comment, and only its forwarding. */
  function DefaultText(pr: Print, default_: Option<Action>): string {
    "# match default action " + Line(FwdWords(pr, if default_.None? then Drop else default_.value.fwd))
  }

  /** Lines, each with its newline. */
  function Lines(ls: seq<string>): string {
    if ls == [] then [] else ls[0] + "\n" + Lines(ls[1..])
  }

  function Shown(show: Rule -> string, rules: seq<Rule>): (r: seq<string>)
    ensures |r| == |rules| && forall i :: 0 <= i < |rules| ==> r[i] == show(rules[i])
  {
    if rules == [] then [] else [show(rules[0])] + Shown(show, rules[1..])
  }

  function Shower(pr: Print, ks: nat): Rule -> string
    requires ks <= MATCH_SIZE_MAX
  {
    (r: Rule) => RuleText(pr, r, ks)
  }

  function TableText(pr: Print, rules: seq<Rule>, default_: Option<Action>, ks: nat): string
    requires ks <= MATCH_SIZE_MAX
  {
    Lines(Shown(Shower(pr, ks), rules) + [DefaultText(pr, default_)])
  }

  lemma {:induction false} LinesSnoc(ls: seq<string>, l: string)
    ensures Lines(ls + [l]) == Lines(ls) + (l + "\n")
  {
    if ls == [] {
      assert [] + [l] == [l] && [l][1..] == [];
    } else {
      LinesSnoc(ls[1..], l);
      assert (ls + [l])[1..] == ls[1..] + [l];
    }
  }

  /** The loop of `table_rule_show` over the rule list, and the line after it. */
  method ShowLines(show: Rule -> string, rules: seq<Rule>, last: string) returns (f: string)
    ensures f == Lines(Shown(show, rules) + [last])
  {
    f := [];
    var i := 0;
    ghost var shown := Shown(show, rules);
    while i < |rules|
      invariant i <= |rules| && f == Lines(shown[..i])
    {
      LinesSnoc(shown[..i], shown[i]);
      assert shown[..i] + [shown[i]] == shown[..i + 1];
      f := f + (show(rules[i]) + "\n");
      i := i + 1;
    }
    assert shown[..i] == shown;
    LinesSnoc(shown, last);
    f := f + (last + "\n");
  }

  /** `table_rule_show`: the rules in list order, then the default rule. */
  method TableRuleShow(pr: Print, rules: seq<Rule>, default_: Option<Action>, ks: nat) returns (f: string)
    requires ks <= MATCH_SIZE_MAX
    ensures f == TableText(pr, rules, default_, ks)
  {
    f := ShowLines(Shower(pr, ks), rules, DefaultText(pr, default_));
  }

  // ---- Reading a rule file ----

  /** How many characters `fgets` takes: up to and with the newline, at most `max`. */
  function LineLen(s: string, max: nat): (n: nat)
    ensures n <= |s| && n <= max && (s != [] && max > 0 ==> n > 0)
  {
    if s == [] || max == 0 then 0
    else if s[0] == '\n' then 1
    else 1 + LineLen(s[1..], max - 1)
  }

  /** The loop inside `fgets`. */
  method FGets(s: string, pos: nat, max: nat) returns (end: nat)
    requires pos <= |s|
    ensures pos <= end <= |s| && end - pos == LineLen(s[pos..], max)
  {
    end := pos;
    var done := false;
    while !done && end < |s| && end - pos < max
      invariant pos <= end <= |s| && end - pos <= max
      invariant LineLen(s[pos..], max) == end - pos + if done then 0 else LineLen(s[end..], max - (end - pos))
      decreases !done, |s| - end
    {
      assert s[end..][1..] == s[end + 1..] && s[end..][0] == s[end];
      done := s[end] == '\n';
      end := end + 1;
    }
  }

  /** `is_comment`. */
  predicate IsComment(s: string) {
    || (s != [] && s[0] in "!#%;")
    || (|s| >= 2 && (s[..2] == "//" || s[..2] == "--"))
  }

  datatype LineResult = Skip | Bad | Parsed(m: Match, act: Action)

  /** The body of the line loop. */
  function ReadLine(lx: Lex, tsc: nat, line: string): LineResult {
    if IsComment(line) then Skip
    else match Tokenize(line, CMD_MAX_TOKENS)
      case Tokenized(ts) =>
        if ts == [] then Skip
        else (match ReadRule(lx, tsc, ts) case None => Bad case Some((m, a)) => Parsed(m, a))
      case _ => Bad
  }

  /** The list of rules, its length and the line counter; on failure the list is freed. */
  datatype FileResult =
    | Loaded(rules: seq<(Match, Action)>, nRules: nat, line: nat)
    | Failed(nRules: nat, line: nat)

  type LineReader = (nat, string) -> LineResult

  /** Time stamps are taken while reading; `tscs` gives the one of each line. */
  function LinesOf(lx: Lex, tscs: nat -> nat): LineReader {
    (line: nat, text: string) => ReadLine(lx, tscs(line), text)
  }

  function ReadLines(rl: LineReader, max: nat, s: string, line: nat, list: seq<(Match, Action)>): FileResult
    requires max > 0
    decreases |s|
  {
    if s == [] then Loaded(list, |list|, line)
    else
      var n := LineLen(s, max);
      match rl(line, s[..n])
      case Skip => ReadLines(rl, max, s[n..], line + 1, list)
      case Bad => Failed(|list|, line)
      case Parsed(m, a) => ReadLines(rl, max, s[n..], line + 1, list + [(m, a)])
  }

  /** `cli_rule_file_process`, as the C code runs it. */
  method CliRuleFileProcess(lx: Lex, tscs: nat -> nat, max: nat, s: string) returns (r: FileResult)
    requires max > 0
    ensures r == ReadLines(LinesOf(lx, tscs), max, s, 1, [])
  {
    var list: seq<(Match, Action)> := [];
    var line, pos := 1, 0;
    ghost var rl := LinesOf(lx, tscs);
    assert s[0..] == s;
    while pos < |s|
      invariant pos <= |s|
      invariant ReadLines(rl, max, s, 1, []) == ReadLines(rl, max, s[pos..], line, list)
    {
      var end := FGets(s, pos, max);
      assert s[pos..][..end - pos] == s[pos..end] && s[pos..][end - pos..] == s[end..];
      var text := s[pos..end];
      assert rl(line, text) == ReadLine(lx, tscs(line), text);
      if !IsComment(text) {
        var tokens := ParseTokenizeString(text, CMD_MAX_TOKENS);
        if !tokens.Tokenized? {
          return Failed(|list|, line);
        }
        if tokens.tokens != [] {
          var rule := ReadRule(lx, tscs(line), tokens.tokens);
          if rule.None? {
            return Failed(|list|, line);
          }
          list := list + [rule.value];
        }
      }
      line := line + 1;
      pos := end;
    }
    return Loaded(list, |list|, line);
  }

  // ---- The words of the text ----

  /** The lexical printers print words. */
  ghost predicate CleanPrint(pr: Print) {
    && (forall n :: Clean(pr.dec(n)))
    && (forall m: Mac :: Clean(pr.mac(m)))
    && (forall a: u32 :: Clean(pr.ip4(a)))
    && (forall a: Ip6 :: Clean(pr.ip6(a)))
    && (forall bs: seq<u8> :: bs != [] ==> Clean(pr.hex(bs)))
  }

  lemma AllCleanConcat(xs: seq<string>, ys: seq<string>)
    requires AllClean(xs) && AllClean(ys)
    ensures AllClean(xs + ys)
  {
  }

  lemma Hex2IsClean(b: u8)
    ensures Clean(Hex2(b))
  {
    DigitVal(b / 16);
    DigitVal(b % 16);
  }

  lemma {:induction false} ColonsAreClean(gs: seq<string>)
    requires gs != [] && AllClean(gs)
    ensures Clean(Colons(gs))
  {
    if |gs| > 1 { ColonsAreClean(gs[1..]); }
  }

  lemma {:induction false} DotsAreClean(bs: seq<nat>)
    requires bs != []
    ensures Clean(Dots(bs))
  {
    if |bs| > 1 { DotsAreClean(bs[1..]); }
  }

  lemma {:induction false} HexStringIsClean(bs: seq<u8>)
    requires bs != []
    ensures Clean(HexString(bs))
  {
    Hex2IsClean(bs[0]);
    if |bs| > 1 { HexStringIsClean(bs[1..]); } else { assert HexString(bs[1..]) == []; }
  }

  lemma {:induction false} Ip6StringIsClean(bs: seq<u8>)
    requires bs != [] && |bs| % 2 == 0
    ensures Clean(Ip6String(bs))
  {
    Hex2IsClean(bs[0]);
    Hex2IsClean(bs[1]);
    if |bs| > 2 { Ip6StringIsClean(bs[2..]); } else { assert Ip6String(bs[2..]) == []; }
  }

  lemma MacIsClean(m: Mac)
    ensures Clean(MacString(m))
  {
    Hex2IsClean(m[0]); Hex2IsClean(m[1]); Hex2IsClean(m[2]); Hex2IsClean(m[3]); Hex2IsClean(m[4]); Hex2IsClean(m[5]);
    ColonsAreClean([Hex2(m[0]), Hex2(m[1]), Hex2(m[2]), Hex2(m[3]), Hex2(m[4]), Hex2(m[5])]);
  }

  lemma PrintIsClean()
    ensures CleanPrint(PrintOf())
  {
    var pr := PrintOf();
    forall m: Mac ensures Clean(pr.mac(m)) { MacIsClean(m); }
    forall a: u32 ensures Clean(pr.ip4(a)) { DotsAreClean(Be32(a)); }
    forall a: Ip6 ensures Clean(pr.ip6(a)) { Ip6StringIsClean(a); }
    forall bs: seq<u8> | bs != [] ensures Clean(pr.hex(bs)) { HexStringIsClean(bs); }
  }

  lemma FwdIsClean(pr: Print, f: Fwd)
    requires CleanPrint(pr)
    ensures AllClean(FwdWords(pr, f))
  {
  }

  lemma {:induction false} DecsAreClean(pr: Print, xs: seq<u32>)
    requires CleanPrint(pr)
    ensures AllClean(Decs(pr, xs))
  {
  }

  lemma {:induction false} MtrIsClean(pr: Print, m: Mtr, i: nat)
    requires CleanPrint(pr) && i <= 4
    ensures AllClean(MtrWords(pr, m, i))
    decreases 4 - i
  {
    if i < 4 {
      MtrIsClean(pr, m, i + 1);
      DigitVal(i);
      TcIsClean(pr, m.tcs[i], i);
    }
  }

  lemma TcIsClean(pr: Print, tc: MtrTc, i: nat)
    requires CleanPrint(pr) && i < 4
    ensures AllClean(["tc" + [Digit(i)], "meter", pr.dec(tc.profile), "policer", "g", PolicerWord(tc.g), "y",
                      PolicerWord(tc.y), "r", PolicerWord(tc.r)])
  {
    DigitVal(i);
  }

  lemma {:induction false} LabelsAreClean(pr: Print, ls: seq<Mpls>, k: nat)
    requires CleanPrint(pr) && k + |ls| <= 4
    ensures AllClean(LabelWords(pr, ls, k))
    decreases |ls|
  {
    if ls != [] {
      LabelsAreClean(pr, ls[1..], k + 1);
      DigitVal(k);
      assert Clean(LabelWord(k));
    }
  }

  lemma Tag1QIsClean(pr: Print, t: Tag1Q)
    requires CleanPrint(pr)
    ensures AllClean(Tag1QWords(pr, t))
  {
  }

  lemma EncapWordsAreClean()
    ensures Clean("encap") && Clean("ether") && Clean("vlan") && Clean("qinq") && Clean("unknown")
    ensures Clean("mpls") && Clean("pppoe") && Clean("unicast") && Clean("multicast")
  {
  }

  lemma FourClean(a: string, b: string, c: string, d: string)
    requires Clean(a) && Clean(b) && Clean(c) && Clean(d)
    ensures AllClean([a, b, c, d])
  {
  }

  lemma MplsIsClean(pr: Print, e: Encap)
    requires CleanPrint(pr) && e.MplsHdr?
    ensures AllClean(EncapWords(pr, e))
  {
    EncapWordsAreClean();
    LabelsAreClean(pr, e.labels, 0);
    var cast_ := if e.unicast then "unicast" else "multicast";
    FourClean("encap", "mpls", cast_, cast_);
    AllCleanConcat([pr.mac(e.da), pr.mac(e.sa)], LabelWords(pr, e.labels, 0));
    AllCleanConcat(["encap", "mpls", cast_], [pr.mac(e.da), pr.mac(e.sa)] + LabelWords(pr, e.labels, 0));
  }

  lemma EncapIsClean(pr: Print, e: Encap)
    requires CleanPrint(pr)
    ensures AllClean(EncapWords(pr, e))
  {
    EncapWordsAreClean();
    match e
    case Ether(da, sa) => FourClean("encap", "ether", pr.mac(da), pr.mac(sa));
    case Vlan(da, sa, v) =>
      FourClean("encap", "vlan", pr.mac(da), pr.mac(sa));
      Tag1QIsClean(pr, v);
      AllCleanConcat(["encap", "vlan", pr.mac(da), pr.mac(sa)], Tag1QWords(pr, v));
    case QinQ(da, sa, sv, cv) =>
      FourClean("encap", "qinq", pr.mac(da), pr.mac(sa));
      Tag1QIsClean(pr, sv);
      Tag1QIsClean(pr, cv);
      AllCleanConcat(["encap", "qinq", pr.mac(da), pr.mac(sa)], Tag1QWords(pr, sv));
      AllCleanConcat(["encap", "qinq", pr.mac(da), pr.mac(sa)] + Tag1QWords(pr, sv), Tag1QWords(pr, cv));
    case QinQPppoe(_, _, _, _, _) =>
    case MplsHdr(_, _, _, _) => MplsIsClean(pr, e);
    case Pppoe(da, sa, id) =>
      FourClean("encap", "pppoe", pr.mac(da), pr.mac(sa));
      AllCleanConcat(["encap", "pppoe", pr.mac(da), pr.mac(sa)], [pr.dec(id)]);
      assert EncapWords(pr, e) == ["encap", "pppoe", pr.mac(da), pr.mac(sa)] + [pr.dec(id)];
  }

  lemma NatIsClean(pr: Print, n: Nat)
    requires CleanPrint(pr)
    ensures AllClean(NatWords(pr, n))
  {
  }

  lemma SmallIsClean(pr: Print, s: Section, act: Action)
    requires CleanPrint(pr) && s != SFwd && s != SLb && s != SMtr && s != SEncap && s != SNat
    ensures AllClean(SectionWords(pr, s, act))
  {
  }

  lemma SectionIsClean(pr: Print, s: Section, act: Action)
    requires CleanPrint(pr)
    ensures AllClean(SectionWords(pr, s, act))
  {
    match s
    case SFwd => FwdIsClean(pr, act.fwd);
    case SLb => LbIsClean(pr, act);
    case SMtr => MtrSectionIsClean(pr, act);
    case SEncap => EncapIsClean(pr, act.encap);
    case SNat => NatIsClean(pr, act.nat_);
    case _ => SmallIsClean(pr, s, act);
  }

  lemma LbIsClean(pr: Print, act: Action)
    requires CleanPrint(pr)
    ensures AllClean(SectionWords(pr, SLb, act))
  {
    DecsAreClean(pr, act.lb);
    assert Clean("balance");
    AllCleanConcat(["balance"], Decs(pr, act.lb));
  }

  lemma MtrSectionIsClean(pr: Print, act: Action)
    requires CleanPrint(pr)
    ensures AllClean(SectionWords(pr, SMtr, act))
  {
    MtrIsClean(pr, act.mtr, 0);
    assert Clean("mtr");
    AllCleanConcat(["mtr"], MtrWords(pr, act.mtr, 0));
  }

  lemma AclIsClean(pr: Print, m: Match, ks: nat)
    requires CleanPrint(pr) && m.MAcl? && ks <= MATCH_SIZE_MAX
    ensures AllClean(MatchWords(pr, m, ks))
  {
    var ws := MatchWords(pr, m, ks);
    AclLongWordIsClean(pr, m, ks);
    assert Clean(ws[0]) && Clean(ws[1]) && Clean(ws[2]) && Clean(ws[4]);
  }

  lemma CleanConcat(a: string, b: string)
    requires Clean(a) && Clean(b)
    ensures Clean(a + b)
  {
  }

  lemma AclLongWordIsClean(pr: Print, m: Match, ks: nat)
    requires CleanPrint(pr) && m.MAcl? && ks <= MATCH_SIZE_MAX
    ensures Clean(MatchWords(pr, m, ks)[5])
  {
    var (sa, da) := if m.addr.AclV4? then (pr.ip4(m.addr.sa), pr.ip4(m.addr.da))
                    else (pr.ip6(m.addr.sa6), pr.ip6(m.addr.da6));
    CleanConcat(sa, pr.dec(m.saDepth));
    CleanConcat(sa + pr.dec(m.saDepth), da);
    CleanConcat(sa + pr.dec(m.saDepth) + da, pr.dec(m.daDepth));
    CleanConcat(sa + pr.dec(m.saDepth) + da + pr.dec(m.daDepth), pr.dec(m.sp0));
  }

  lemma MatchIsClean(pr: Print, m: Match, ks: nat)
    requires CleanPrint(pr) && 1 <= ks <= MATCH_SIZE_MAX
    ensures AllClean(MatchWords(pr, m, ks))
  {
    if m.MAcl? { AclIsClean(pr, m, ks); }
  }
}
