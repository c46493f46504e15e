/**
 * The rule printer (processing/dpdk_pipeline/cli.c:4826-5163) and what becomes of a printed rule
 * when the rule-file reader takes it in again (cli.c:6860-6930): it comes back unchanged exactly
 * for a describable set of rules, and is rejected otherwise.
 */
module RuleShow {
  import opened Prelude
  import opened Rules
  import opened Lexer
  import opened RuleParser

  // ---- The printed words ----

  /** The lexical printers that `table_rule_show` calls. */
  datatype Print = Print(dec: nat -> string, mac: Mac -> string, ip4: u32 -> string, ip6: Ip6 -> string,
                         hex: seq<u8> -> string)

  /** The printers of module Lexer. */
  function PrintOf(): Print { Print(Dec, MacString, Ip4String, (a: Ip6) => Ip6String(a), HexString) }

  function Decs(pr: Print, xs: seq<u32>): (r: seq<string>)
    ensures |r| == |xs| && forall i :: 0 <= i < |xs| ==> r[i] == pr.dec(xs[i])
  {
    if xs == [] then [] else [pr.dec(xs[0])] + Decs(pr, xs[1..])
  }

  function FwdWords(pr: Print, f: Fwd): seq<string> {
    match f
    case Drop => ["fwd", "drop"]
    case Port(id) => ["fwd", "port", pr.dec(id)]
    case PortMeta => ["fwd", "meta"]
    case ToTable(id) => ["fwd", "table", pr.dec(id)]
  }

  /** `policer_action_string`. */
  function PolicerWord(p: Policer): string {
    match p
    case Green => "G"
    case Yellow => "Y"
    case Red => "R"
    case PolicerDrop => "D"
  }

  /** Bit `i` of a mask of traffic classes. */
  function Bit(mask: nat, i: nat): nat
    requires i < 4
  {
    match i case 0 => mask % 2 case 1 => mask / 2 % 2 case 2 => mask / 4 % 2 case _ => mask / 8 % 2
  }

  /** The traffic classes from `i` on whose bit is set in the mask. */
  function MtrWords(pr: Print, m: Mtr, i: nat): seq<string>
    requires i <= 4
    decreases 4 - i
  {
    if i == 4 then []
    else
      var tc := m.tcs[i];
      (if Bit(m.tcMask, i) == 0 then []
       else ["tc" + [Digit(i)], "meter", pr.dec(tc.profile), "policer", "g", PolicerWord(tc.g), "y", PolicerWord(tc.y),
             "r", PolicerWord(tc.r)])
      + MtrWords(pr, m, i + 1)
  }

  function LabelWords(pr: Print, ls: seq<Mpls>, k: nat): seq<string>
    requires k + |ls| <= 4
    decreases |ls|
  {
    if ls == [] then []
    else [LabelWord(k), pr.dec(ls[0].value), pr.dec(ls[0].tc), pr.dec(ls[0].ttl)] + LabelWords(pr, ls[1..], k + 1)
  }

  function Tag1QWords(pr: Print, t: Tag1Q): seq<string> {
    ["pcp", pr.dec(t.pcp), "dei", pr.dec(t.dei), "vid", pr.dec(t.vid)]
  }

  function EncapWords(pr: Print, e: Encap): seq<string>
  {
    match e
    case Ether(da, sa) => ["encap", "ether", pr.mac(da), pr.mac(sa)]
    case Vlan(da, sa, v) => ["encap", "vlan", pr.mac(da), pr.mac(sa)] + Tag1QWords(pr, v)
    case QinQ(da, sa, sv, cv) => ["encap", "qinq", pr.mac(da), pr.mac(sa)] + Tag1QWords(pr, sv) + Tag1QWords(pr, cv)
    case QinQPppoe(_, _, _, _, _) => ["encap", "unknown"]
    case MplsHdr(u, da, sa, ls) =>
      ["encap", "mpls", if u then "unicast" else "multicast"] + ([pr.mac(da), pr.mac(sa)] + LabelWords(pr, ls, 0))
    case Pppoe(da, sa, id) => ["encap", "pppoe", pr.mac(da), pr.mac(sa), pr.dec(id)]
  }

  /** `ipv6_addr_show`: pairs of bytes, each followed by a colon. */
  function Ip6String(bs: seq<u8>): string
    requires |bs| % 2 == 0
  {
    if bs == [] then [] else Hex2(bs[0]) + Hex2(bs[1]) + ":" + Ip6String(bs[2..])
  }

  function NatWords(pr: Print, n: Nat): seq<string> {
    match n
    case Nat4(a, port) => ["nat", "ipv4", pr.ip4(a), pr.dec(port)]
    case Nat6(a, port) => ["nat", "ipv6", pr.ip6(a), pr.dec(port)]
  }

  function SectionWords(pr: Print, s: Section, act: Action): (ws: seq<string>)
    ensures ws != [] && ws[0] == Head(s)
  {
    match s
    case SFwd => FwdWords(pr, act.fwd)
    case SLb => ["balance"] + Decs(pr, act.lb)
    case SMtr => ["mtr"] + MtrWords(pr, act.mtr, 0)
    case STm => ["tm", "subport", pr.dec(act.tm.subport), "pipe", pr.dec(act.tm.pipe)]
    case SEncap => EncapWords(pr, act.encap)
    case SNat => NatWords(pr, act.nat_)
    case STtl => ["ttl", if act.decTtl then "dec" else "keep"]
    case SStats => ["stats"]
    case STime => ["time"]
    case STag => ["tag", pr.dec(act.tag)]
    case SDecap => ["decap", pr.dec(act.decap)]
  }

  /** The first word that the printer writes for a section: the parser's keyword but for the meter. */
  function Head(s: Section): string { if s == SMtr then "mtr" else Keyword(s) }

  function ActWords(pr: Print, secs: seq<Section>, act: Action): seq<string>
    decreases |secs|, act
  {
    if secs == [] then []
    else (if secs[0] in act.mask then SectionWords(pr, secs[0], act) else []) + ActWords(pr, secs[1..], act)
  }

  /** `ks` is the key size of a hash table. No space is written between an address and its depth. */
  function MatchWords(pr: Print, m: Match, ks: nat): seq<string>
    requires ks <= MATCH_SIZE_MAX
  {
    match m
    case MAcl(AclV4(sa, da), sd, dd, sp0, sp1, dp0, dp1, proto, _, priority) =>
      ["match", "acl", "priority", pr.dec(priority), "ipv4",
       pr.ip4(sa) + pr.dec(sd) + pr.ip4(da) + pr.dec(dd) + pr.dec(sp0),
       pr.dec(sp1), pr.dec(dp0), pr.dec(dp1), pr.dec(proto)]
    case MAcl(AclV6(sa, da), sd, dd, sp0, sp1, dp0, dp1, proto, _, priority) =>
      ["match", "acl", "priority", pr.dec(priority), "ipv6",
       pr.ip6(sa) + pr.dec(sd) + pr.ip6(da) + pr.dec(dd) + pr.dec(sp0),
       pr.dec(sp1), pr.dec(dp0), pr.dec(dp1), pr.dec(proto)]
    case MArray(pos) => ["match", "array", pr.dec(pos)]
    case MHash(key) => ["match", "hash", "raw", pr.hex(key[..ks])]
    case MLpm(LpmV4(ip), depth) => ["match", "lpm", "ipv4", pr.ip4(ip) + pr.dec(depth)]
    case MLpm(LpmV6(ip), depth) => ["match", "lpm", "ipv6", pr.ip6(ip) + pr.dec(depth)]
  }

  function RuleWordsBy(pr: Print, secs: seq<Section>, m: Match, act: Action, ks: nat): seq<string>
    requires ks <= MATCH_SIZE_MAX
  {
    MatchWords(pr, m, ks) + (["action"] + ActWords(pr, secs, act))
  }

  function RuleWords(pr: Print, m: Match, act: Action, ks: nat): seq<string>
    requires ks <= MATCH_SIZE_MAX
  {
    RuleWordsBy(pr, SECTIONS, m, act, ks)
  }

  // ---- What the rule-file reader makes of one line ----

  /** The match parser and then the action parser, which must use up all tokens. */
  function ReadRuleBy(pm: seq<string> -> Option<(Match, nat)>, pa: seq<string> -> Option<(Action, nat)>,
                      ts: seq<string>): Option<(Match, Action)>
  {
    match pm(ts)
    case None => None
    case Some((m, n)) =>
      if n > |ts| then None
      else match pa(ts[n..])
        case None => None
        case Some((a, k)) => if n + k < |ts| then None else Some((m, a))
  }

  function MatchReader(lx: Lex): seq<string> -> Option<(Match, nat)> { ts => ParseMatch(lx, ts) }

  function ActionReader(rd: Reader, secs: seq<Section>): seq<string> -> Option<(Action, nat)> {
    ts => ParseActionBy(rd, secs, ts)
  }

  /** The body of the line loop of `cli_rule_file_process`, on the tokens of a line. */
  function ReadRule(lx: Lex, tsc: nat, ts: seq<string>): Option<(Match, Action)> {
    ReadRuleBy(MatchReader(lx), ActionReader(SectionReader(lx, tsc), SECTIONS), ts)
  }

  // ---- Which rules come back ----

  predicate CoveredSection(s: Section, act: Action) {
    && s != SMtr
    && (s == SEncap ==> act.encap.Ether? || act.encap.MplsHdr? || act.encap.Pppoe?)
    && (s == SNat ==> act.nat_.Nat4?)
  }

  predicate CoveredAction(act: Action) { act.mask != {} && forall s :: s in act.mask ==> CoveredSection(s, act) }

  /** An array match, or a hash match in a table whose key size is even. */
  predicate CoveredMatch(m: Match, ks: nat) { m.MArray? || (m.MHash? && ks % 2 == 0) }

  /** Section `s` of two actions is the same. */
  predicate SameField(s: Section, x: Action, y: Action) {
    match s
    case SFwd => x.fwd == y.fwd
    case SLb => x.lb == y.lb
    case SMtr => x.mtr == y.mtr
    case STm => x.tm == y.tm
    case SEncap => x.encap == y.encap
    case SNat => x.nat_ == y.nat_
    case STtl => x.decTtl == y.decTtl
    case SStats => true
    case STime => x.time == y.time
    case STag => x.tag == y.tag
    case SDecap => x.decap == y.decap
  }

  predicate LabelOk(l: Mpls) { l.value <= 0xFFFFF && l.tc <= 7 && l.ttl <= 0x3F }

  /** One to four labels in range. */
  predicate LabelsMade(e: Encap) {
    e.MplsHdr? ==> |e.labels| >= 1 && forall i :: 0 <= i < |e.labels| ==> LabelOk(e.labels[i])
  }

  /** An action as the parser makes them: zero outside the mask, one to four labels in range. */
  predicate ParserMade(act: Action) {
    && (forall s :: s !in act.mask ==> SameField(s, act, ZERO_ACTION))
    && LabelsMade(act.encap)
  }

  /** A hash key that is zero from the key size on. */
  predicate KeyFits(m: Match, ks: nat) {
    m.MHash? ==> forall i :: ks <= i < MATCH_SIZE_MAX ==> m.key[i] == 0
  }

  /** The match that a printed one is read as: of a hash key only the key size is printed. */
  function CutKey(m: Match, ks: nat): Match
    requires ks <= MATCH_SIZE_MAX
  {
    if m.MHash? then MHash(KeyFrom(m.key[..ks])) else m
  }

  /** A printed match is read as itself exactly when its key fits. */
  lemma CutKeyIsSameIff(m: Match, ks: nat)
    requires ks <= MATCH_SIZE_MAX
    ensures CutKey(m, ks) == m <==> KeyFits(m, ks)
  {
    if m.MHash? {
      var key := KeyFrom(m.key[..ks]);
      assert forall i :: 0 <= i < MATCH_SIZE_MAX ==> key[i] == if i < ks then m.key[i] else 0;
    }
  }

  /** The same action with the time stamp of the reading, if it has one. */
  function Restamp(act: Action, tsc: nat): Action { if STime in act.mask then act.(time := tsc) else act }

  // ---- The readers on printed words ----

  ghost predicate NumbersBack(lx: Lex, pr: Print) {
    && (forall n: u32 :: lx.u32(pr.dec(n)) == Some(n))
    && (forall n: u16 :: lx.u16(pr.dec(n)) == Some(n))
  }

  ghost predicate MacsBack(lx: Lex, pr: Print) { forall m: Mac :: lx.mac(pr.mac(m)) == Some(m) }

  /** A printed IPv6 address ends in a colon and is not accepted. */
  ghost predicate AddressesBack(lx: Lex, pr: Print) {
    && (forall a: u32 :: lx.ip4(pr.ip4(a)) == Some(a))
    && (forall a: Ip6 :: lx.ip6(pr.ip6(a)) == None)
  }

  /** A printed key is accepted when its length is even. */
  ghost predicate KeysBack(lx: Lex, pr: Print) {
    forall bs: seq<u8> :: 1 <= |bs| <= MATCH_SIZE_MAX ==>
      lx.hex(pr.hex(bs)) == if |bs| % 2 == 0 then Some(bs) else None
  }

  ghost predicate WordsFail(lx: Lex) { lx.u32("pcp") == None && lx.u8("action") == None }

  /** Words too long for an address, and how long printed words are. */
  ghost predicate Lengths(lx: Lex, pr: Print) {
    && (forall s :: |s| >= 16 ==> lx.ip4(s) == None)
    && (forall s :: |s| >= 46 ==> lx.ip6(s) == None)
    && (forall n :: |pr.dec(n)| >= 1) && (forall a: u32 :: |pr.ip4(a)| >= 7) && (forall a: Ip6 :: |pr.ip6(a)| >= 40)
  }

  /** What the proofs need of the lexical readers and printers. */
  ghost predicate ReadsBack(lx: Lex, pr: Print) {
    && NumbersBack(lx, pr) && MacsBack(lx, pr) && AddressesBack(lx, pr) && KeysBack(lx, pr)
    && WordsFail(lx) && Lengths(lx, pr)
  }

  /** `inet_pton` accepts no address that ends in a single colon. */
  ghost predicate RejectsTrailingColon(pton6: string -> Option<Ip6>) {
    forall s :: |s| >= 2 && s[|s| - 1] == ':' && s[|s| - 2] != ':' ==> pton6(s) == None
  }

  lemma {:induction false} Ip6StringEnds(bs: seq<u8>)
    requires |bs| % 2 == 0 && bs != []
    ensures var s := Ip6String(bs);
            |s| == 5 * |bs| / 2 && s[|s| - 1] == ':' && s[|s| - 2] != ':'
  {
    Hex2Value(bs[1]);
    if |bs| > 2 {
      Ip6StringEnds(bs[2..]);
    } else {
      assert bs[2..] == [];
    }
  }

  lemma LexNumbersBack(pton6: string -> Option<Ip6>)
    ensures NumbersBack(LexOf(pton6), PrintOf())
  {
    var lx, pr := LexOf(pton6), PrintOf();
    forall n: u32 ensures lx.u32(pr.dec(n)) == Some(n) { ReadMaxDec(n, 0xFFFF_FFFF); }
    forall n: u16 ensures lx.u16(pr.dec(n)) == Some(n) { ReadMaxDec(n, 0xFFFF); }
  }

  lemma LexMacsBack(pton6: string -> Option<Ip6>)
    ensures MacsBack(LexOf(pton6), PrintOf())
  {
    var lx, pr := LexOf(pton6), PrintOf();
    forall m: Mac ensures lx.mac(pr.mac(m)) == Some(m) { EtherAtonReadsBack(m); }
  }

  lemma LexAddressesBack(pton6: string -> Option<Ip6>)
    requires RejectsTrailingColon(pton6)
    ensures AddressesBack(LexOf(pton6), PrintOf())
  {
    var lx, pr := LexOf(pton6), PrintOf();
    forall a: u32 ensures lx.ip4(pr.ip4(a)) == Some(a) { ParseIp4ReadsBack(a); }
    forall a: Ip6 ensures lx.ip6(pr.ip6(a)) == None { Ip6StringEnds(a); }
  }

  lemma LexKeysBack(pton6: string -> Option<Ip6>)
    ensures KeysBack(LexOf(pton6), PrintOf())
  {
    var lx, pr := LexOf(pton6), PrintOf();
    forall bs: seq<u8> | 1 <= |bs| <= MATCH_SIZE_MAX
      ensures lx.hex(pr.hex(bs)) == if |bs| % 2 == 0 then Some(bs) else None
    {
      ParseHexReadsBack(bs, MATCH_SIZE_MAX);
    }
  }

  lemma LexWordsFail(pton6: string -> Option<Ip6>)
    ensures WordsFail(LexOf(pton6))
  {
    NotANumber("pcp");
    NotANumber("action");
  }

  lemma LexLengths(pton6: string -> Option<Ip6>)
    ensures Lengths(LexOf(pton6), PrintOf())
  {
    var lx, pr := LexOf(pton6), PrintOf();
    forall a ensures |pr.ip4(a)| >= 7 { Ip4StringLength(a); }
    forall a: Ip6 ensures |pr.ip6(a)| >= 40 { Ip6StringEnds(a); }
  }

  lemma LexReadsBack(pton6: string -> Option<Ip6>)
    requires RejectsTrailingColon(pton6)
    ensures ReadsBack(LexOf(pton6), PrintOf())
  {
    LexNumbersBack(pton6);
    LexMacsBack(pton6);
    LexAddressesBack(pton6);
    LexKeysBack(pton6);
    LexWordsFail(pton6);
    LexLengths(pton6);
  }

  lemma Ip4StringLength(a: u32)
    ensures |Ip4String(a)| >= 7
  {
    var bs := Be32(a);
    DotsLength(bs);
  }

  lemma {:induction false} DotsLength(bs: seq<nat>)
    requires bs != []
    ensures |Dots(bs)| >= 2 * |bs| - 1
  {
    if |bs| > 1 { DotsLength(bs[1..]); }
  }

  // ---- Matches ----

  /** Word `i` of a concatenation. */
  lemma At(xs: seq<string>, ys: seq<string>)
    ensures forall i :: 0 <= i < |xs| ==> (xs + ys)[i] == xs[i]
    ensures (xs + ys)[|xs|..] == ys && (ys != [] ==> (xs + ys)[|xs|] == ys[0])
  {
  }

  /** An array match comes back, a hash match with an even key size with its key cut, the others do not. */
  ghost predicate MatchBack(lx: Lex, pr: Print, m: Match, ks: nat, rest: seq<string>)
    requires ks <= MATCH_SIZE_MAX
  {
    ParseMatch(lx, MatchWords(pr, m, ks) + rest) ==
    if CoveredMatch(m, ks) then Some((CutKey(m, ks), |MatchWords(pr, m, ks)|)) else None
  }

  lemma ArrayReadsBack(lx: Lex, pr: Print, m: Match, ks: nat, rest: seq<string>)
    requires NumbersBack(lx, pr) && ks <= MATCH_SIZE_MAX && m.MArray?
    ensures MatchBack(lx, pr, m, ks, rest)
  {
    At(MatchWords(pr, m, ks), rest);
  }

  lemma HashReadsBack(lx: Lex, pr: Print, m: Match, ks: nat, rest: seq<string>)
    requires KeysBack(lx, pr) && 1 <= ks <= MATCH_SIZE_MAX && m.MHash?
    ensures MatchBack(lx, pr, m, ks, rest)
  {
    var ts := MatchWords(pr, m, ks) + rest;
    At(MatchWords(pr, m, ks), rest);
    assert lx.hex(ts[3]) == if ks % 2 == 0 then Some(m.key[..ks]) else None;
  }

  lemma LpmIsRejected(lx: Lex, pr: Print, m: Match, ks: nat, rest: seq<string>)
    requires WordsFail(lx) && m.MLpm? && ks <= MATCH_SIZE_MAX && rest != [] && rest[0] == "action"
    ensures MatchBack(lx, pr, m, ks, rest)
  {
    At(MatchWords(pr, m, ks), rest);
  }

  lemma AclIsRejected(lx: Lex, pr: Print, m: Match, ks: nat, rest: seq<string>)
    requires Lengths(lx, pr) && m.MAcl? && ks <= MATCH_SIZE_MAX
    ensures MatchBack(lx, pr, m, ks, rest)
  {
    var ts := MatchWords(pr, m, ks) + rest;
    At(MatchWords(pr, m, ks), rest);
    AclWordIsLong(lx, pr, m, ks);
    if |ts| >= 14 { LongAclWordFails(lx, ts, m.addr.AclV4?); }
  }

  /** The word that begins with the first address is too long for an address. */
  lemma AclWordIsLong(lx: Lex, pr: Print, m: Match, ks: nat)
    requires Lengths(lx, pr) && m.MAcl? && ks <= MATCH_SIZE_MAX
    ensures var ws := MatchWords(pr, m, ks);
            && |ws| == 10 && ws[0] == "match" && ws[1] == "acl" && ws[4] == (if m.addr.AclV4? then "ipv4" else "ipv6")
            && (if m.addr.AclV4? then lx.ip4(ws[5]) == None else lx.ip6(ws[5]) == None)
  {
    var ws := MatchWords(pr, m, ks);
    if m.addr.AclV4? {
      assert |ws[5]| >= |pr.ip4(m.addr.sa)| + |pr.dec(m.saDepth)| + |pr.ip4(m.addr.da)| + |pr.dec(m.daDepth)|;
    } else {
      assert |ws[5]| >= |pr.ip6(m.addr.sa6)| + |pr.dec(m.saDepth)| + |pr.ip6(m.addr.da6)|;
    }
  }

  lemma LongAclWordFails(lx: Lex, ts: seq<string>, v4: bool)
    requires |ts| >= 14 && ts[4] == (if v4 then "ipv4" else "ipv6")
    requires if v4 then lx.ip4(ts[5]) == None else lx.ip6(ts[5]) == None
    ensures ParseAcl(lx, ts) == None
  {
    assert ts[4] == "ipv4" <==> v4 by { assert "ipv4"[3] != "ipv6"[3]; }
    assert ParseAclAddr(lx, ts, v4, 5, 7) == None;
  }

  /**
   * An array match comes back, a hash match with an even key size comes back with its key cut to that
   * size, the other matches are rejected.
   */
  lemma MatchReadsBack(lx: Lex, pr: Print, m: Match, ks: nat, rest: seq<string>)
    requires ReadsBack(lx, pr) && 1 <= ks <= MATCH_SIZE_MAX && rest != [] && rest[0] == "action"
    ensures MatchBack(lx, pr, m, ks, rest)
  {
    match m
    case MAcl(_, _, _, _, _, _, _, _, _, _) => AclIsRejected(lx, pr, m, ks, rest);
    case MArray(_) => ArrayReadsBack(lx, pr, m, ks, rest);
    case MHash(_) => HashReadsBack(lx, pr, m, ks, rest);
    case MLpm(_, _) => LpmIsRejected(lx, pr, m, ks, rest);
  }

  // ---- Sections ----

  /** The section filled in from `act`; a time stamp is that of the reading. */
  function SetSection(tsc: nat, s: Section, acc: Action, act: Action): Action {
    var m := acc.mask + {s};
    match s
    case SFwd => acc.(fwd := act.fwd, mask := m)
    case SLb => acc.(lb := act.lb, mask := m)
    case SMtr => acc.(mtr := act.mtr, mask := m)
    case STm => acc.(tm := act.tm, mask := m)
    case SEncap => acc.(encap := act.encap, mask := m)
    case SNat => acc.(nat_ := act.nat_, mask := m)
    case STtl => acc.(decTtl := act.decTtl, mask := m)
    case SStats => acc.(mask := m)
    case STime => acc.(time := tsc, mask := m)
    case STag => acc.(tag := act.tag, mask := m)
    case SDecap => acc.(decap := act.decap, mask := m)
  }

  /** No MPLS label follows. */
  predicate NoLabelNext(rest: seq<string>) { rest == [] || forall k :: 0 <= k < 4 ==> rest[0] != LabelWord(k) }

  lemma {:induction false} ReadAllDecs(lx: Lex, pr: Print, xs: seq<u32>, ts: seq<string>, n: nat)
    requires NumbersBack(lx, pr) && n <= |xs| <= |ts| && forall i :: 0 <= i < |xs| ==> ts[i] == pr.dec(xs[i])
    ensures ReadAll(lx, ts, n) == Some(xs[..n])
  {
    if n > 0 {
      ReadAllDecs(lx, pr, xs, ts, n - 1);
      assert lx.u32(ts[n - 1]) == Some(xs[n - 1]);
      assert xs[..n - 1] + [xs[n - 1]] == xs[..n];
    }
  }

  lemma {:induction false} LbReadsBack(lx: Lex, pr: Print, lb: LbTable, ts: seq<string>)
    requires NumbersBack(lx, pr) && |ts| >= 1 + LB_TABLE_SIZE && ts[0] == "balance"
    requires forall i :: 0 <= i < LB_TABLE_SIZE ==> ts[1..][i] == Decs(pr, lb)[i]
    ensures ParseLb(lx, ts) == Some((lb, 1 + LB_TABLE_SIZE))
  {
    ReadAllDecs(lx, pr, lb, ts[1..], LB_TABLE_SIZE);
    assert lb[..LB_TABLE_SIZE] == lb;
  }

  /** One label of the loop. */
  lemma LabelStep(lx: Lex, ts: seq<string>, k: nat, l: Mpls, tail: seq<string>)
    requires k < 4 && |ts| >= 4 && ts[0] == LabelWord(k) && ParseMpls(lx, ts, 1) == Some(l) && ts[4..] == tail
    ensures ParseLabels(lx, ts, k) ==
            match ParseLabels(lx, tail, k + 1) { case None => None case Some(rest) => Some([l] + rest) }
  {
  }

  lemma LabelNumbers(lx: Lex, pr: Print, l: Mpls, ts: seq<string>)
    requires NumbersBack(lx, pr) && LabelOk(l) && |ts| >= 4
    requires ts[1] == pr.dec(l.value) && ts[2] == pr.dec(l.tc) && ts[3] == pr.dec(l.ttl)
    ensures ParseMpls(lx, ts, 1) == Some(l)
  {
  }

  /** The words of the first label, and what follows them. */
  lemma {:induction false} LabelsStart(pr: Print, ls: seq<Mpls>, k: nat, rest: seq<string>)
    requires k + |ls| <= 4 && ls != []
    ensures var (tail, ts) := (LabelWords(pr, ls[1..], k + 1), LabelWords(pr, ls, k) + rest);
            && |LabelWords(pr, ls, k)| == 4 + |tail| && ts[4..] == tail + rest
            && ts[0] == LabelWord(k) && ts[1] == pr.dec(ls[0].value)
            && ts[2] == pr.dec(ls[0].tc) && ts[3] == pr.dec(ls[0].ttl)
  {
    assert LabelWords(pr, ls, k) + rest ==
           [LabelWord(k), pr.dec(ls[0].value), pr.dec(ls[0].tc), pr.dec(ls[0].ttl)] +
           (LabelWords(pr, ls[1..], k + 1) + rest);
  }

  lemma {:induction false} FirstLabelReadsBack(lx: Lex, pr: Print, ls: seq<Mpls>, k: nat, rest: seq<string>)
    requires NumbersBack(lx, pr) && k + |ls| <= 4 && ls != [] && LabelOk(ls[0])
    requires ParseLabels(lx, LabelWords(pr, ls[1..], k + 1) + rest, k + 1) == Some(ls[1..])
    ensures ParseLabels(lx, LabelWords(pr, ls, k) + rest, k) == Some(ls)
  {
    var ts := LabelWords(pr, ls, k) + rest;
    LabelsStart(pr, ls, k, rest);
    LabelNumbers(lx, pr, ls[0], ts);
    LabelStep(lx, ts, k, ls[0], LabelWords(pr, ls[1..], k + 1) + rest);
    assert [ls[0]] + ls[1..] == ls;
  }

  lemma {:induction false} LabelsReadBack(lx: Lex, pr: Print, ls: seq<Mpls>, k: nat, rest: seq<string>)
    requires NumbersBack(lx, pr) && k + |ls| <= 4 && (forall i :: 0 <= i < |ls| ==> LabelOk(ls[i])) && NoLabelNext(rest)
    ensures |LabelWords(pr, ls, k)| == 4 * |ls|
    ensures ParseLabels(lx, LabelWords(pr, ls, k) + rest, k) == Some(ls)
    decreases |ls|
  {
    if ls == [] {
      assert LabelWords(pr, ls, k) + rest == rest;
    } else {
      LabelsStart(pr, ls, k, rest);
      forall i | 0 <= i < |ls[1..]| ensures LabelOk(ls[1..][i]) { assert ls[1..][i] == ls[i + 1]; }
      LabelsReadBack(lx, pr, ls[1..], k + 1, rest);
      FirstLabelReadsBack(lx, pr, ls, k, rest);
    }
  }

  lemma MplsHeadReadsBack(lx: Lex, u: bool, da: Mac, sa: Mac, ts: seq<string>)
    requires |ts| >= 6 && ts[2] == (if u then "unicast" else "multicast") && ts[5] == LabelWord(0)
    requires lx.mac(ts[3]) == Some(da) && lx.mac(ts[4]) == Some(sa)
    ensures ParseMplsHead(lx, ts) == Some((u, da, sa))
  {
    assert |ts[2]| == if u then 7 else 9;
  }

  lemma {:induction false} MplsWords(pr: Print, e: Encap, rest: seq<string>)
    requires e.MplsHdr? && LabelsMade(e)
    ensures var (lw, ts) := (LabelWords(pr, e.labels, 0), EncapWords(pr, e) + rest);
            && |EncapWords(pr, e)| == 5 + |lw| && |lw| >= 4 && ts[5..] == lw + rest && ts[5] == LabelWord(0)
            && ts[2] == (if e.unicast then "unicast" else "multicast") && ts[3] == pr.mac(e.da) && ts[4] == pr.mac(e.sa)
  {
    assert (EncapWords(pr, e) + rest)[5] == LabelWords(pr, e.labels, 0)[0];
  }

  lemma MplsReadsBack(lx: Lex, pr: Print, e: Encap, rest: seq<string>)
    requires NumbersBack(lx, pr) && MacsBack(lx, pr) && e.MplsHdr? && LabelsMade(e) && NoLabelNext(rest)
    ensures ParseMplsEncap(lx, EncapWords(pr, e) + rest) == Some((e, |EncapWords(pr, e)|))
  {
    var ts := EncapWords(pr, e) + rest;
    MplsWords(pr, e, rest);
    LabelsReadBack(lx, pr, e.labels, 0, rest);
    MplsHeadReadsBack(lx, e.unicast, e.da, e.sa, ts);
  }

  predicate ReadableEncap(e: Encap) { e.Ether? || e.MplsHdr? || e.Pppoe? }

  lemma EncapReadsBack(lx: Lex, pr: Print, e: Encap, rest: seq<string>)
    requires NumbersBack(lx, pr) && MacsBack(lx, pr) && WordsFail(lx) && NoLabelNext(rest)
    requires LabelsMade(e)
    ensures ParseEncap(lx, EncapWords(pr, e) + rest) ==
            if ReadableEncap(e) then Some((e, |EncapWords(pr, e)|)) else None
  {
    if e.MplsHdr? {
      At(EncapWords(pr, e), rest);
      MplsReadsBack(lx, pr, e, rest);
    } else if ReadableEncap(e) {
      UntaggedReadsBack(lx, pr, e, rest);
    } else {
      TaggedIsRejected(lx, pr, e, rest);
    }
  }

  lemma UntaggedReadsBack(lx: Lex, pr: Print, e: Encap, rest: seq<string>)
    requires NumbersBack(lx, pr) && MacsBack(lx, pr) && (e.Ether? || e.Pppoe?)
    ensures ParseEncap(lx, EncapWords(pr, e) + rest) == Some((e, |EncapWords(pr, e)|))
  {
    At(EncapWords(pr, e), rest);
  }

  /** The labels of a VLAN tag are no numbers, and the printer has no name for the other tagged form. */
  lemma TaggedIsRejected(lx: Lex, pr: Print, e: Encap, rest: seq<string>)
    requires WordsFail(lx) && (e.Vlan? || e.QinQ? || e.QinQPppoe?)
    ensures ParseEncap(lx, EncapWords(pr, e) + rest) == None
  {
    At(EncapWords(pr, e), rest);
  }

  lemma NatReadsBack(lx: Lex, pr: Print, n: Nat, rest: seq<string>)
    requires NumbersBack(lx, pr) && AddressesBack(lx, pr)
    ensures ParseNat(lx, NatWords(pr, n) + rest) == if n.Nat4? then Some((n, 4)) else None
  {
    At(NatWords(pr, n), rest);
  }

  lemma FwdReadsBack(lx: Lex, pr: Print, f: Fwd, rest: seq<string>)
    requires NumbersBack(lx, pr)
    ensures ParseFwd(lx, FwdWords(pr, f) + rest) == Some((f, |FwdWords(pr, f)|))
  {
    At(FwdWords(pr, f), rest);
  }

  /** Section `s` comes back when it is covered and is rejected otherwise. */
  ghost predicate SectionBack(lx: Lex, pr: Print, tsc: nat, s: Section, act: Action, rest: seq<string>, acc: Action)
  {
    ParseSection(lx, tsc, s, SectionWords(pr, s, act) + rest, acc) ==
    if CoveredSection(s, act) then Some((SetSection(tsc, s, acc, act), |SectionWords(pr, s, act)|)) else None
  }

  lemma FwdSection(lx: Lex, pr: Print, tsc: nat, act: Action, rest: seq<string>, acc: Action)
    requires NumbersBack(lx, pr)
    ensures SectionBack(lx, pr, tsc, SFwd, act, rest, acc)
  {
    FwdReadsBack(lx, pr, act.fwd, rest);
  }

  lemma LbSection(lx: Lex, pr: Print, tsc: nat, act: Action, rest: seq<string>, acc: Action)
    requires NumbersBack(lx, pr)
    ensures SectionBack(lx, pr, tsc, SLb, act, rest, acc)
  {
    At(SectionWords(pr, SLb, act), rest);
    LbReadsBack(lx, pr, act.lb, SectionWords(pr, SLb, act) + rest);
  }

  lemma TmSection(lx: Lex, pr: Print, tsc: nat, act: Action, rest: seq<string>, acc: Action)
    requires NumbersBack(lx, pr)
    ensures SectionBack(lx, pr, tsc, STm, act, rest, acc)
  {
    At(SectionWords(pr, STm, act), rest);
  }

  lemma EncapSection(lx: Lex, pr: Print, tsc: nat, act: Action, rest: seq<string>, acc: Action)
    requires NumbersBack(lx, pr) && MacsBack(lx, pr) && WordsFail(lx) && NoLabelNext(rest) && LabelsMade(act.encap)
    ensures SectionBack(lx, pr, tsc, SEncap, act, rest, acc)
  {
    EncapReadsBack(lx, pr, act.encap, rest);
  }

  lemma NatSection(lx: Lex, pr: Print, tsc: nat, act: Action, rest: seq<string>, acc: Action)
    requires NumbersBack(lx, pr) && AddressesBack(lx, pr)
    ensures SectionBack(lx, pr, tsc, SNat, act, rest, acc)
  {
    NatReadsBack(lx, pr, act.nat_, rest);
  }

  /** The sections with at most one argument. */
  lemma SmallSection(lx: Lex, pr: Print, tsc: nat, s: Section, act: Action, rest: seq<string>, acc: Action)
    requires NumbersBack(lx, pr)
    requires s == STtl || s == SStats || s == STime || s == STag || s == SDecap
    ensures SectionBack(lx, pr, tsc, s, act, rest, acc)
  {
    At(SectionWords(pr, s, act), rest);
  }

  /** A covered section comes back; the others, but for the meter, are rejected at their keyword. */
  lemma SectionReadsBack(lx: Lex, pr: Print, tsc: nat, s: Section, act: Action, rest: seq<string>, acc: Action)
    requires ReadsBack(lx, pr) && ParserMade(act) && NoLabelNext(rest) && s != SMtr
    ensures SectionBack(lx, pr, tsc, s, act, rest, acc)
  {
    match s
    case SFwd => FwdSection(lx, pr, tsc, act, rest, acc);
    case SLb => LbSection(lx, pr, tsc, act, rest, acc);
    case STm => TmSection(lx, pr, tsc, act, rest, acc);
    case SEncap => EncapSection(lx, pr, tsc, act, rest, acc);
    case SNat => NatSection(lx, pr, tsc, act, rest, acc);
    case _ => SmallSection(lx, pr, tsc, s, act, rest, acc);
  }

  // ---- The chain of sections ----

  /** What the chain needs of a section parser on the words of `act`. */
  ghost predicate ReadsSections(pr: Print, rd: Reader, tsc: nat, act: Action)
  {
    forall s, rest, acc :: s != SMtr && NoLabelNext(rest) ==>
      rd(s, SectionWords(pr, s, act) + rest, acc) ==
      if CoveredSection(s, act) then Some((SetSection(tsc, s, acc, act), |SectionWords(pr, s, act)|)) else None
  }

  lemma SectionReaderReadsSections(lx: Lex, pr: Print, tsc: nat, act: Action)
    requires ReadsBack(lx, pr) && ParserMade(act)
    ensures ReadsSections(pr, SectionReader(lx, tsc), tsc, act)
  {
    var rd := SectionReader(lx, tsc);
    forall s, rest, acc | s != SMtr && NoLabelNext(rest)
      ensures rd(s, SectionWords(pr, s, act) + rest, acc) ==
              if CoveredSection(s, act) then Some((SetSection(tsc, s, acc, act), |SectionWords(pr, s, act)|)) else None
    {
      SectionReadsBack(lx, pr, tsc, s, act, rest, acc);
    }
  }

  lemma HeadsDiffer(s: Section, s': Section)
    requires s != s'
    ensures Head(s') != Keyword(s)
  {
    var h, k := Head(s'), Keyword(s);
    assert |h| != |k| || h[0] != k[0] || h[1] != k[1];
  }

  /** The printer's word for the meter is no keyword, and no first word is that of a label. */
  lemma HeadsAreNoLabels(s: Section)
    ensures Keyword(s) != "mtr"
    ensures forall k :: 0 <= k < 4 ==> Head(s) != LabelWord(k)
  {
    assert |Keyword(s)| != 3 || Keyword(s)[0] != 'm';
    assert |Head(s)| != 6;
    assert forall k :: 0 <= k < 4 ==> |LabelWord(k)| == 6;
  }

  lemma {:induction false} WordsStartAtHead(pr: Print, secs: seq<Section>, act: Action)
    ensures var ws := ActWords(pr, secs, act); ws != [] ==> exists s :: s in secs && ws[0] == Head(s)
    decreases |secs|
  {
    if secs != [] {
      WordsStartAtHead(pr, secs[1..], act);
      if secs[0] in act.mask { assert ActWords(pr, secs, act)[0] == Head(secs[0]); }
    }
  }

  lemma {:induction false} NextIsNoLabel(pr: Print, secs: seq<Section>, act: Action)
    ensures NoLabelNext(ActWords(pr, secs, act))
  {
    WordsStartAtHead(pr, secs, act);
    var ws := ActWords(pr, secs, act);
    if ws != [] {
      var s :| s in secs && ws[0] == Head(s);
      HeadsAreNoLabels(s);
    }
  }

  /** At a word that is no keyword of the remaining sections the chain stops. */
  lemma {:induction false} ChainStops(rd: Reader, secs: seq<Section>, ts: seq<string>, a: Action)
    requires ts != [] && forall s :: s in secs ==> ts[0] != Keyword(s)
    ensures ParseSections(rd, secs, ts, a) == Some((a, 0))
    decreases |secs|
  {
    if secs != [] {
      assert secs[0] in secs;
      ChainStops(rd, secs[1..], ts, a);
    }
  }

  function CopyAll(tsc: nat, secs: seq<Section>, acc: Action, act: Action): Action
    decreases |secs|
  {
    if secs == [] then acc
    else CopyAll(tsc, secs[1..], if secs[0] in act.mask then SetSection(tsc, secs[0], acc, act) else acc, act)
  }

  ghost predicate AllCovered(secs: seq<Section>, act: Action) {
    forall s :: s in secs && s in act.mask ==> CoveredSection(s, act)
  }

  lemma AllCoveredCons(secs: seq<Section>, act: Action)
    requires secs != []
    ensures AllCovered(secs, act) <==>
            (secs[0] in act.mask ==> CoveredSection(secs[0], act)) && AllCovered(secs[1..], act)
  {
    assert forall x :: x in secs <==> x == secs[0] || x in secs[1..];
  }

  /** A section that is not in the mask leaves no words and is skipped. */
  lemma {:induction false} ChainSkips(pr: Print, rd: Reader, secs: seq<Section>, act: Action, acc: Action)
    requires DistinctSections(secs) && secs != [] && secs[0] !in act.mask
    ensures var ws := ActWords(pr, secs, act);
            && ws == ActWords(pr, secs[1..], act)
            && ParseSections(rd, secs, ws, acc) == ParseSections(rd, secs[1..], ws, acc)
  {
    var ws := ActWords(pr, secs[1..], act);
    assert ActWords(pr, secs, act) == ws;
    WordsStartAtHead(pr, secs[1..], act);
    if ws != [] {
      var s' :| s' in secs[1..] && ws[0] == Head(s');
      HeadsDiffer(secs[0], s');
    }
  }

  lemma {:induction false} ChainStopsAtMeter(pr: Print, rd: Reader, secs: seq<Section>, act: Action, acc: Action)
    requires secs != [] && secs[0] == SMtr && SMtr in act.mask
    ensures var ws := ActWords(pr, secs, act); ws != [] && ParseSections(rd, secs, ws, acc) == Some((acc, 0))
  {
    var ws := ActWords(pr, secs, act);
    assert ws[0] == SectionWords(pr, SMtr, act)[0] == "mtr";
    forall x | x in secs ensures ws[0] != Keyword(x) { HeadsAreNoLabels(x); }
    ChainStops(rd, secs, ws, acc);
  }

  /** All `n` words are read as `a`, or words are left over or an error arises. */
  predicate BackAs(r: Option<(Action, nat)>, n: nat, ok: bool, a: Action) {
    if ok then r == Some((a, n)) else r.None? || r.value.1 < n
  }

  lemma AfterBack(k: nat, r: Option<(Action, nat)>, n: nat, ok: bool, a: Action)
    requires BackAs(r, n, ok, a)
    ensures BackAs(After(k, r), k + n, ok, a)
  {
  }

  /** All words are read back when every section is covered, and only then. */
  ghost predicate ChainBack(pr: Print, rd: Reader, tsc: nat, secs: seq<Section>, act: Action, acc: Action) {
    var ws := ActWords(pr, secs, act);
    BackAs(ParseSections(rd, secs, ws, acc), |ws|, AllCovered(secs, act), CopyAll(tsc, secs, acc, act))
  }

  lemma {:induction false} SkippedChainBack(pr: Print, rd: Reader, tsc: nat, secs: seq<Section>, act: Action,
                                            acc: Action)
    requires DistinctSections(secs) && secs != [] && secs[0] !in act.mask
    requires ChainBack(pr, rd, tsc, secs[1..], act, acc)
    ensures ChainBack(pr, rd, tsc, secs, act, acc)
  {
    AllCoveredCons(secs, act);
    ChainSkips(pr, rd, secs, act, acc);
  }

  lemma {:induction false} MeterChainBack(pr: Print, rd: Reader, tsc: nat, secs: seq<Section>, act: Action,
                                          acc: Action)
    requires secs != [] && secs[0] == SMtr && SMtr in act.mask
    ensures ChainBack(pr, rd, tsc, secs, act, acc)
  {
    AllCoveredCons(secs, act);
    ChainStopsAtMeter(pr, rd, secs, act, acc);
  }

  lemma {:induction false} TakenChainBack(pr: Print, rd: Reader, tsc: nat, secs: seq<Section>, act: Action,
                                          acc: Action)
    requires ReadsSections(pr, rd, tsc, act) && secs != [] && secs[0] in act.mask && secs[0] != SMtr
    requires CoveredSection(secs[0], act) ==>
               ChainBack(pr, rd, tsc, secs[1..], act, SetSection(tsc, secs[0], acc, act))
    ensures ChainBack(pr, rd, tsc, secs, act, acc)
  {
    var (s, tail, rest) := (secs[0], secs[1..], ActWords(pr, secs[1..], act));
    var acc1 := SetSection(tsc, s, acc, act);
    AllCoveredCons(secs, act);
    NextIsNoLabel(pr, tail, act);
    ChainTakesSection(pr, rd, tsc, secs, act, acc);
    if CoveredSection(s, act) {
      AfterBack(|SectionWords(pr, s, act)|, ParseSections(rd, tail, rest, acc1), |rest|, AllCovered(tail, act),
                CopyAll(tsc, tail, acc1, act));
    }
  }

  lemma {:induction false} ChainReadsBack(pr: Print, rd: Reader, tsc: nat, secs: seq<Section>, act: Action, acc: Action)
    requires ReadsSections(pr, rd, tsc, act) && DistinctSections(secs)
    ensures ChainBack(pr, rd, tsc, secs, act, acc)
    decreases |secs|
  {
    if secs != [] {
      var s, tail := secs[0], secs[1..];
      if s !in act.mask {
        ChainReadsBack(pr, rd, tsc, tail, act, acc);
        SkippedChainBack(pr, rd, tsc, secs, act, acc);
      } else if s == SMtr {
        MeterChainBack(pr, rd, tsc, secs, act, acc);
      } else {
        if CoveredSection(s, act) { ChainReadsBack(pr, rd, tsc, tail, act, SetSection(tsc, s, acc, act)); }
        TakenChainBack(pr, rd, tsc, secs, act, acc);
      }
    }
  }

  lemma {:induction false} ChainStopsAtMtr(rd: Reader, secs: seq<Section>, us: seq<string>, acc: Action)
    requires us != [] && us[0] == "mtr"
    ensures ParseSections(rd, secs, us, acc) == Some((acc, 0))
  {
    forall x ensures Keyword(x) != "mtr" { HeadsAreNoLabels(x); }
    ChainStops(rd, secs, us, acc);
  }

  /** The words of a chain: those of its first section, if it is in the mask, and then the others. */
  lemma {:induction false} WordsFrom(pr: Print, secs: seq<Section>, act: Action, us: seq<string>)
    requires secs != [] && secs[0] != SMtr
    ensures var (sw, ts) := (SectionWords(pr, secs[0], act), ActWords(pr, secs, act) + us);
            var rest := ActWords(pr, secs[1..], act) + us;
            if secs[0] !in act.mask then ts == rest
            else ts == sw + rest && ts[|sw|..] == rest && ts[0] == Keyword(secs[0])
  {
    var (sw, rest) := (SectionWords(pr, secs[0], act), ActWords(pr, secs[1..], act) + us);
    if secs[0] in act.mask {
      assert ActWords(pr, secs, act) + us == sw + rest;
    } else {
      assert ActWords(pr, secs, act) == ActWords(pr, secs[1..], act);
    }
  }

  /** Whatever follows a printed meter, the chain uses up no more than the words before it. */
  lemma {:induction false} ChainStopsBefore(pr: Print, rd: Reader, tsc: nat, pre: seq<Section>, post: seq<Section>,
                                            act: Action, us: seq<string>, acc: Action)
    requires ReadsSections(pr, rd, tsc, act) && DistinctSections(pre) && SMtr !in pre && us != [] && us[0] == "mtr"
    ensures var (ts, r) :=
              (ActWords(pr, pre, act) + us, ParseSections(rd, pre + post, ActWords(pr, pre, act) + us, acc));
            r.None? || r.value.1 < |ts|
    decreases |pre|
  {
    var ts := ActWords(pr, pre, act) + us;
    if pre == [] {
      assert pre + post == post && ts == us;
      ChainStopsAtMtr(rd, post, us, acc);
    } else {
      var (s, tail) := (pre[0], pre[1..]);
      var (sw, rest, acc1) := (SectionWords(pr, s, act), ActWords(pr, tail, act) + us, SetSection(tsc, s, acc, act));
      assert (pre + post)[0] == s && (pre + post)[1..] == tail + post;
      NextWord(pr, tail, act, us, s);
      WordsFrom(pr, pre, act, us);
      if s !in act.mask {
        SkipStep(rd, pre + post, ts, acc);
        ChainStopsBefore(pr, rd, tsc, tail, post, act, us, acc);
      } else {
        assert rd(s, sw + rest, acc) == if CoveredSection(s, act) then Some((acc1, |sw|)) else None;
        TakeStep(rd, pre + post, sw, rest, acc, CoveredSection(s, act), acc1);
        if CoveredSection(s, act) { ChainStopsBefore(pr, rd, tsc, tail, post, act, us, acc1); }
      }
    }
  }

  lemma {:induction false} NextWord(pr: Print, tail: seq<Section>, act: Action, us: seq<string>, s: Section)
    requires us != [] && us[0] == "mtr" && s !in tail
    ensures var rest := ActWords(pr, tail, act) + us; NoLabelNext(rest) && rest[0] != Keyword(s)
  {
    var ws := ActWords(pr, tail, act);
    NextIsNoLabel(pr, tail, act);
    WordsStartAtHead(pr, tail, act);
    HeadsAreNoLabels(SMtr);
    HeadsAreNoLabels(s);
    if ws != [] {
      var s' :| s' in tail && ws[0] == Head(s');
      HeadsDiffer(s, s');
    }
  }

  lemma {:induction false} ChainTakesSection(pr: Print, rd: Reader, tsc: nat, secs: seq<Section>, act: Action,
                                             acc: Action)
    requires ReadsSections(pr, rd, tsc, act) && secs != [] && secs[0] in act.mask && secs[0] != SMtr
    requires NoLabelNext(ActWords(pr, secs[1..], act))
    ensures var (s, rest) := (secs[0], ActWords(pr, secs[1..], act));
            ParseSections(rd, secs, ActWords(pr, secs, act), acc) ==
            if !CoveredSection(s, act) then None
            else After(|SectionWords(pr, s, act)|, ParseSections(rd, secs[1..], rest, SetSection(tsc, s, acc, act)))
    ensures |ActWords(pr, secs, act)| == |SectionWords(pr, secs[0], act)| + |ActWords(pr, secs[1..], act)|
  {
    var (s, rest) := (secs[0], ActWords(pr, secs[1..], act));
    var sw := SectionWords(pr, s, act);
    assert ActWords(pr, secs, act) == sw + rest;
    TakeStep(rd, secs, sw, rest, acc, CoveredSection(s, act), SetSection(tsc, s, acc, act));
  }

  // ---- The copied sections are the action ----

  lemma SetOwn(tsc: nat, s: Section, acc: Action, act: Action)
    requires s in act.mask
    ensures SameField(s, SetSection(tsc, s, acc, act), Restamp(act, tsc))
  {
  }

  lemma SetOther(tsc: nat, s: Section, s': Section, acc: Action, act: Action)
    requires s != s'
    ensures SameField(s, SetSection(tsc, s', acc, act), acc)
  {
  }

  lemma SameFieldIsTransitive(s: Section, x: Action, y: Action, z: Action)
    requires SameField(s, x, y) && SameField(s, y, z)
    ensures SameField(s, x, z)
  {
  }

  lemma {:induction false} CopyAllFields(tsc: nat, secs: seq<Section>, acc: Action, act: Action, s: Section)
    requires DistinctSections(secs)
    ensures SameField(s, CopyAll(tsc, secs, acc, act), if s in secs && s in act.mask then Restamp(act, tsc) else acc)
    decreases |secs|
  {
    if secs != [] {
      var (head, tail) := (secs[0], secs[1..]);
      var acc' := if head in act.mask then SetSection(tsc, head, acc, act) else acc;
      var all := CopyAll(tsc, tail, acc', act);
      assert forall x :: x in secs <==> x == head || x in tail;
      assert head !in tail;
      CopyAllFields(tsc, tail, acc', act, s);
      if head in act.mask && s !in tail {
        if s == head { SetOwn(tsc, s, acc, act); } else { SetOther(tsc, s, head, acc, act); }
        SameFieldIsTransitive(s, all, acc', if s == head then Restamp(act, tsc) else acc);
      }
      if head in act.mask && s in tail && s !in act.mask {
        SetOther(tsc, s, head, acc, act);
        SameFieldIsTransitive(s, all, acc', acc);
      }
    }
  }

  lemma {:induction false} CopyAllMask(tsc: nat, secs: seq<Section>, acc: Action, act: Action, s: Section)
    ensures s in CopyAll(tsc, secs, acc, act).mask <==> s in acc.mask || (s in secs && s in act.mask)
    decreases |secs|
  {
    if secs != [] {
      assert forall x :: x in secs <==> x == secs[0] || x in secs[1..];
      CopyAllMask(tsc, secs[1..], if secs[0] in act.mask then SetSection(tsc, secs[0], acc, act) else acc, act, s);
    }
  }

  lemma AllSections(s: Section)
    ensures s in SECTIONS
  {
    assert SECTIONS[0] == SFwd && SECTIONS[1] == SLb && SECTIONS[2] == SMtr && SECTIONS[3] == STm;
    assert SECTIONS[4] == SEncap && SECTIONS[5] == SNat && SECTIONS[6] == STtl && SECTIONS[7] == SStats;
    assert SECTIONS[8] == STime && SECTIONS[9] == STag && SECTIONS[10] == SDecap;
  }

  lemma SameFieldsAreEqual(x: Action, y: Action)
    requires (forall s :: SameField(s, x, y)) && x.mask == y.mask
    ensures x == y
  {
    assert SameField(SFwd, x, y) && SameField(SLb, x, y) && SameField(SMtr, x, y) && SameField(STm, x, y);
    assert SameField(SEncap, x, y) && SameField(SNat, x, y) && SameField(STtl, x, y);
    assert SameField(STime, x, y) && SameField(STag, x, y) && SameField(SDecap, x, y);
  }

  lemma {:induction false} CopyIsRestamp(tsc: nat, secs: seq<Section>, act: Action)
    requires ParserMade(act) && DistinctSections(secs) && forall s :: s in secs
    ensures CopyAll(tsc, secs, ZERO_ACTION, act) == Restamp(act, tsc)
  {
    var (r, a) := (CopyAll(tsc, secs, ZERO_ACTION, act), Restamp(act, tsc));
    forall s ensures SameField(s, r, a) && (s in r.mask <==> s in a.mask) {
      CopyAllFields(tsc, secs, ZERO_ACTION, act, s);
      CopyAllMask(tsc, secs, ZERO_ACTION, act, s);
      if s !in act.mask { UnusedIsZero(s, act, tsc); SameFieldIsTransitive(s, r, ZERO_ACTION, a); }
    }
    assert r.mask == a.mask;
    SameFieldsAreEqual(r, a);
  }

  lemma UnusedIsZero(s: Section, act: Action, tsc: nat)
    requires ParserMade(act) && s !in act.mask
    ensures SameField(s, ZERO_ACTION, Restamp(act, tsc))
  {
    assert SameField(s, act, ZERO_ACTION);
  }

  lemma {:induction false} WordsOfMask(pr: Print, secs: seq<Section>, act: Action)
    ensures ActWords(pr, secs, act) == [] <==> forall s :: s in secs ==> s !in act.mask
    decreases |secs|
  {
    if secs != [] {
      assert forall x :: x in secs <==> x == secs[0] || x in secs[1..];
      WordsOfMask(pr, secs[1..], act);
    }
  }

  /** No words are printed exactly for an empty mask. */
  lemma {:induction false} NoWordsIffNoMask(pr: Print, secs: seq<Section>, act: Action)
    requires forall s :: s in secs
    ensures ActWords(pr, secs, act) == [] <==> act.mask == {}
  {
    WordsOfMask(pr, secs, act);
    if act.mask != {} { var s :| s in act.mask; assert s in secs; }
  }

  lemma CoveredMeansAll(secs: seq<Section>, act: Action)
    requires forall s :: s in secs
    ensures CoveredAction(act) <==> act.mask != {} && AllCovered(secs, act)
  {
    if act.mask != {} && AllCovered(secs, act) {
      forall s | s in act.mask ensures CoveredSection(s, act) { assert s in secs; }
    }
  }

  /** The printed action, read back on its own. */
  lemma {:induction false} ActionReadsBack(pr: Print, rd: Reader, tsc: nat, secs: seq<Section>, act: Action)
    requires ParserMade(act) && ReadsSections(pr, rd, tsc, act) && DistinctSections(secs) && forall s :: s in secs
    ensures var (ts, r) :=
              (["action"] + ActWords(pr, secs, act), ParseActionBy(rd, secs, ["action"] + ActWords(pr, secs, act)));
            if CoveredAction(act) then r == Some((Restamp(act, tsc), |ts|)) else r.None? || r.value.1 < |ts|
  {
    var ws := ActWords(pr, secs, act);
    assert (["action"] + ws)[1..] == ws;
    ChainReadsBack(pr, rd, tsc, secs, act, ZERO_ACTION);
    CopyIsRestamp(tsc, secs, act);
    NoWordsIffNoMask(pr, secs, act);
    CoveredMeansAll(secs, act);
  }

  /** Composition of the two round trips. */
  lemma BothReadBack(pm: seq<string> -> Option<(Match, nat)>, pa: seq<string> -> Option<(Action, nat)>,
                     mw: seq<string>, aw: seq<string>, m: Match, a: Action, mOk: bool, aOk: bool)
    requires pm(mw + aw) == if mOk then Some((m, |mw|)) else None
    requires if aOk then pa(aw) == Some((a, |aw|)) else pa(aw).None? || pa(aw).value.1 < |aw|
    ensures ReadRuleBy(pm, pa, mw + aw) == if mOk && aOk then Some((m, a)) else None
  {
    assert (mw + aw)[|mw|..] == aw;
  }

  lemma RuleReadsBackBy(lx: Lex, pr: Print, tsc: nat, m: Match, act: Action, ks: nat, rd: Reader, secs: seq<Section>)
    requires ReadsBack(lx, pr) && 1 <= ks <= MATCH_SIZE_MAX && ParserMade(act)
    requires ReadsSections(pr, rd, tsc, act) && DistinctSections(secs) && forall s :: s in secs
    ensures ReadRuleBy(MatchReader(lx), ActionReader(rd, secs), RuleWordsBy(pr, secs, m, act, ks)) ==
            if CoveredMatch(m, ks) && CoveredAction(act) then Some((CutKey(m, ks), Restamp(act, tsc))) else None
  {
    var (mw, aw) := (MatchWords(pr, m, ks), ["action"] + ActWords(pr, secs, act));
    assert RuleWordsBy(pr, secs, m, act, ks) == mw + aw;
    MatchReadsBack(lx, pr, m, ks, aw);
    ActionReadsBack(pr, rd, tsc, secs, act);
    BothReadBack(MatchReader(lx), ActionReader(rd, secs), mw, aw, CutKey(m, ks), Restamp(act, tsc),
                 CoveredMatch(m, ks), CoveredAction(act));
  }

  lemma {:induction false} ActionStopsBefore(pr: Print, rd: Reader, tsc: nat, pre: seq<Section>, post: seq<Section>,
                                             act: Action, us: seq<string>)
    requires ReadsSections(pr, rd, tsc, act) && DistinctSections(pre) && SMtr !in pre && us != [] && us[0] == "mtr"
    ensures var aw := ["action"] + ActWords(pr, pre, act) + us;
            var r := ParseActionBy(rd, pre + post, aw); r.None? || r.value.1 < |aw|
  {
    var (ws, secs) := (ActWords(pr, pre, act), pre + post);
    assert (["action"] + ws + us)[1..] == ws + us;
    ChainStopsBefore(pr, rd, tsc, pre, post, act, us, ZERO_ACTION);
  }

  lemma {:induction false} WordsBefore(pr: Print, m: Match, act: Action, ks: nat, pre: seq<Section>, us: seq<string>)
    requires ks <= MATCH_SIZE_MAX
    ensures var aw := ["action"] + ActWords(pr, pre, act) + us;
            RuleWordsBy(pr, pre, m, act, ks) + us == MatchWords(pr, m, ks) + aw && aw[0] == "action"
  {
  }

  /** No rule with a meter is read back, whatever stands behind the word that opens the meter. */
  lemma MeterIsRejectedBy(lx: Lex, pr: Print, tsc: nat, m: Match, act: Action, ks: nat, rd: Reader,
                          pre: seq<Section>, post: seq<Section>, us: seq<string>)
    requires ReadsBack(lx, pr) && 1 <= ks <= MATCH_SIZE_MAX
    requires ReadsSections(pr, rd, tsc, act) && DistinctSections(pre) && SMtr !in pre && us != [] && us[0] == "mtr"
    ensures ReadRuleBy(MatchReader(lx), ActionReader(rd, pre + post), RuleWordsBy(pr, pre, m, act, ks) + us) == None
  {
    var (mw, aw) := (MatchWords(pr, m, ks), ["action"] + ActWords(pr, pre, act) + us);
    WordsBefore(pr, m, act, ks, pre, us);
    MatchReadsBack(lx, pr, m, ks, aw);
    ActionStopsBefore(pr, rd, tsc, pre, post, act, us);
    BothReadBack(MatchReader(lx), ActionReader(rd, pre + post), mw, aw, CutKey(m, ks), act, CoveredMatch(m, ks), false);
  }

  /**
   * The words of a printed rule, read by the rule-file reader: exactly the covered rules are taken, with
   * the hash key cut to the key size and the time stamp of the reading; every other rule is rejected.
   */
  lemma RuleReadsBack(lx: Lex, pr: Print, tsc: nat, m: Match, act: Action, ks: nat)
    requires ReadsBack(lx, pr) && 1 <= ks <= MATCH_SIZE_MAX && ParserMade(act)
    ensures ReadRule(lx, tsc, RuleWords(pr, m, act, ks)) ==
            if CoveredMatch(m, ks) && CoveredAction(act) then Some((CutKey(m, ks), Restamp(act, tsc))) else None
  {
    SectionReaderReadsSections(lx, pr, tsc, act);
    SectionsAreDistinct();
    forall s ensures s in SECTIONS { AllSections(s); }
    RuleReadsBackBy(lx, pr, tsc, m, act, ks, SectionReader(lx, tsc), SECTIONS);
  }

  /**
   * The raw key `00000000000000010001` is accepted by a hash table of any key size; shown by a table with
   * key size 8 it is read back as the different match of `0000000000000001`.
   */
  lemma LongKeyComesBackCut(lx: Lex, pr: Print, tsc: nat, act: Action)
    requires ReadsBack(lx, pr) && ParserMade(act) && CoveredAction(act)
    ensures var raw := pr.hex([0, 0, 0, 0, 0, 0, 0, 1, 0, 1]);
            ParseMatch(lx, ["match", "hash", "raw", raw]) == Some((MHash(ShortKey(1, 1)), 4))
    ensures ReadRule(lx, tsc, RuleWords(pr, MHash(ShortKey(1, 1)), act, 8))
            == Some((MHash(ShortKey(1, 0)), Restamp(act, tsc)))
    ensures ShortKey(1, 0) != ShortKey(1, 1)
  {
    RawKeyIsRead(lx, pr);
    RuleReadsBack(lx, pr, tsc, MHash(ShortKey(1, 1)), act, 8);
    ShortKeysDiffer();
  }

  lemma RawKeyIsRead(lx: Lex, pr: Print)
    requires KeysBack(lx, pr)
    ensures var raw := pr.hex([0, 0, 0, 0, 0, 0, 0, 1, 0, 1]);
            ParseMatch(lx, ["match", "hash", "raw", raw]) == Some((MHash(ShortKey(1, 1)), 4))
  {
    var bytes: seq<u8> := [0, 0, 0, 0, 0, 0, 0, 1, 0, 1];
    RawIsRead(lx, ["match", "hash", "raw", pr.hex(bytes)], bytes) by {
      assert lx.hex(pr.hex(bytes)) == Some(bytes);
    }
    LongKeyIs(bytes);
  }

  lemma LongKeyIs(bytes: seq<u8>)
    requires bytes == [0, 0, 0, 0, 0, 0, 0, 1, 0, 1]
    ensures KeyFrom(bytes) == ShortKey(1, 1)
  {
  }

  lemma RawIsRead(lx: Lex, ts: seq<string>, bytes: seq<u8>)
    requires |ts| >= 4 && ts[0] == "match" && ts[1] == "hash" && ts[2] == "raw"
    requires |bytes| <= MATCH_SIZE_MAX && lx.hex(ts[3]) == Some(bytes)
    ensures ParseMatch(lx, ts) == Some((MHash(KeyFrom(bytes)), 4))
  {
  }

  lemma ShortKeysDiffer()
    ensures CutKey(MHash(ShortKey(1, 1)), 8) == MHash(ShortKey(1, 0)) && ShortKey(1, 0) != ShortKey(1, 1)
  {
    var (k, k') := (ShortKey(1, 0), ShortKey(1, 1));
    assert k[9] == 0 && k'[9] == 1;
    var cut := KeyFrom(k'[..8]);
    assert forall i :: 0 <= i < MATCH_SIZE_MAX ==> cut[i] == k[i];
    assert cut == k;
  }
}
