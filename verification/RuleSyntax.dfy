/**
 * The documented grammar of rules (processing/dpdk_pipeline/cli.c:2639-2657, 3125-3178) against the
 * parsers: which matches and actions can be written at all, and that each is read as written.
 */
module RuleSyntax {
  import opened Prelude
  import opened Rules
  import opened Lexer
  import opened RuleParser
  import opened RuleShow
  import opened MatchConvert

  // ---- The actions that a parser can produce ----

  predicate TagMade(t: Tag1Q) { t.pcp <= 7 && t.dei <= 1 && t.vid <= 0xFFF }

  predicate EncapMade(e: Encap) {
    match e
    case Vlan(_, _, v) => TagMade(v)
    case QinQ(_, _, sv, cv) => TagMade(sv) && TagMade(cv)
    case QinQPppoe(_, _, sv, cv, _) => TagMade(sv) && TagMade(cv)
    case _ => LabelsMade(e)
  }

  /** One traffic class, or all four. */
  predicate MtrMade(m: Mtr) {
    (m.tcMask == 1 && m.tcs[1] == m.tcs[2] == m.tcs[3] == ZERO_TC) || m.tcMask == 0xF
  }

  predicate SectionMade(s: Section, act: Action) {
    match s
    case SMtr => MtrMade(act.mtr)
    case SEncap => EncapMade(act.encap)
    case _ => true
  }

  /** Zero outside the mask, in range inside it. */
  predicate Made(act: Action) {
    forall s :: if s in act.mask then SectionMade(s, act) else SameField(s, act, ZERO_ACTION)
  }

  predicate Writable(act: Action, tsc: nat) {
    act.mask != {} && Made(act) && (STime in act.mask ==> act.time == tsc)
  }

  lemma MadeIsParserMade(act: Action)
    requires Made(act)
    ensures ParserMade(act)
  {
    assert SEncap in act.mask ==> SectionMade(SEncap, act);
    assert SEncap !in act.mask ==> SameField(SEncap, act, ZERO_ACTION);
  }

  // ---- Whatever is parsed is one of them ----

  /** A section parser changes its own section and the mask, and leaves the section in range. */
  ghost predicate Updates(rd: Reader, tsc: nat) {
    forall s, ts, a :: rd(s, ts, a).Some? ==>
      var b := rd(s, ts, a).value.0;
      && b.mask == a.mask + {s} && SectionMade(s, b) && (s == STime ==> b.time == tsc)
      && forall s' :: s' != s ==> SameField(s', b, a)
  }

  lemma {:induction false} LabelsAreMade(lx: Lex, ts: seq<string>, k: nat)
    ensures var r := ParseLabels(lx, ts, k); r.Some? ==> forall i :: 0 <= i < |r.value| ==> LabelOk(r.value[i])
    decreases |ts|
  {
    if k < 4 && |ts| >= 4 && ts[0] == LabelWord(k) && ParseMpls(lx, ts, 1).Some? { LabelsAreMade(lx, ts[4..], k + 1); }
  }

  lemma EncapIsMade(lx: Lex, ts: seq<string>)
    ensures var r := ParseEncap(lx, ts); r.Some? ==> EncapMade(r.value.0)
  {
    if |ts| >= 9 && ts[1] == "mpls" {
      LabelsAreMade(lx, ts[5..], 0);
      MplsHeadLocal(lx, ts, ts);
      if ParseMplsEncap(lx, ts).Some? { FirstLabelIsRead(lx, ts[5..]); }
    }
  }

  lemma MtrIsMade(lx: Lex, ts: seq<string>)
    ensures var r := ParseMtr(lx, ts); r.Some? ==> MtrMade(r.value.0)
  {
  }

  lemma SectionUpdates(lx: Lex, tsc: nat, s: Section, ts: seq<string>, a: Action)
    requires ParseSection(lx, tsc, s, ts, a).Some?
    ensures var b := ParseSection(lx, tsc, s, ts, a).value.0;
            && b.mask == a.mask + {s} && SectionMade(s, b) && (s == STime ==> b.time == tsc)
            && forall s' :: s' != s ==> SameField(s', b, a)
  {
    if s == SMtr { MtrIsMade(lx, ts); }
    if s == SEncap { EncapIsMade(lx, ts); }
  }

  lemma SectionReaderUpdates(lx: Lex, tsc: nat)
    ensures Updates(SectionReader(lx, tsc), tsc)
  {
    var rd := SectionReader(lx, tsc);
    forall s, ts, a | rd(s, ts, a).Some?
      ensures var b := rd(s, ts, a).value.0;
              && b.mask == a.mask + {s} && SectionMade(s, b) && (s == STime ==> b.time == tsc)
              && forall s' :: s' != s ==> SameField(s', b, a)
    {
      SectionUpdates(lx, tsc, s, ts, a);
    }
  }

  /** Made, and stamped with `tsc` if it has a time stamp. */
  ghost predicate Stamped(act: Action, tsc: nat) { Made(act) && (STime in act.mask ==> act.time == tsc) }

  lemma SectionKeepsMade(s: Section, a: Action, b: Action, tsc: nat)
    requires Stamped(a, tsc) && b.mask == a.mask + {s} && SectionMade(s, b) && (s == STime ==> b.time == tsc)
    requires forall s' :: s' != s ==> SameField(s', b, a)
    ensures Stamped(b, tsc)
  {
    forall x ensures if x in b.mask then SectionMade(x, b) else SameField(x, b, ZERO_ACTION) {
      if x != s {
        assert SameField(x, b, a);
        if x !in a.mask { SameFieldIsTransitive(x, b, a, ZERO_ACTION); }
      }
    }
    if s != STime { assert SameField(STime, b, a); }
  }

  lemma {:induction false} ChainKeepsMade(rd: Reader, tsc: nat, secs: seq<Section>, ts: seq<string>, a: Action)
    requires Updates(rd, tsc) && Stamped(a, tsc)
    ensures var r := ParseSections(rd, secs, ts, a);
            r.Some? ==> Stamped(r.value.0, tsc) && a.mask <= r.value.0.mask && (r.value.1 > 0 ==> r.value.0.mask != {})
    decreases |secs|
  {
    if secs != [] {
      if ts == [] || ts[0] != Keyword(secs[0]) {
        ChainKeepsMade(rd, tsc, secs[1..], ts, a);
      } else {
        var r := rd(secs[0], ts, a);
        if r.Some? && r.value.1 <= |ts| {
          SectionKeepsMade(secs[0], a, r.value.0, tsc);
          ChainKeepsMade(rd, tsc, secs[1..], ts[r.value.1..], r.value.0);
          assert secs[0] in r.value.0.mask;
        }
      }
    }
  }

  lemma {:induction false} ActionByIsWritable(rd: Reader, tsc: nat, secs: seq<Section>, ts: seq<string>)
    requires Updates(rd, tsc)
    ensures var r := ParseActionBy(rd, secs, ts); r.Some? ==> Writable(r.value.0, tsc)
  {
    if |ts| >= 1 { ChainKeepsMade(rd, tsc, secs, ts[1..], ZERO_ACTION); }
  }

  /** Every action that is read satisfies what the round trip of module RuleShow asks of it. */
  lemma {:induction false} ParsedActionIsWritable(lx: Lex, tsc: nat, ts: seq<string>)
    ensures var r := ParseTableAction(lx, tsc, ts); r.Some? ==> Writable(r.value.0, tsc) && ParserMade(r.value.0)
  {
    SectionReaderUpdates(lx, tsc);
    ActionByIsWritable(SectionReader(lx, tsc), tsc, SECTIONS, ts);
    var r := ParseTableAction(lx, tsc, ts);
    if r.Some? { MadeIsParserMade(r.value.0); }
  }

  /** No syntax sets the mask of the protocol of an ACL match. */
  predicate MatchMade(m: Match) { m.MAcl? ==> m.protoMask == 0 }

  lemma ParsedMatchIsMade(lx: Lex, ts: seq<string>)
    ensures var r := ParseMatch(lx, ts); r.Some? ==> MatchMade(r.value.0)
  {
  }

  // ---- The grammar ----

  /** `<pa>`. */
  function PolicerSyntax(p: Policer): string {
    match p
    case Green => "g"
    case Yellow => "y"
    case Red => "r"
    case PolicerDrop => "drop"
  }

  function TcSyntax(pr: Print, tc: MtrTc, k: nat): (ws: seq<string>)
    requires k < 4
    ensures |ws| == 10
  {
    ["tc" + [Digit(k)], "meter", pr.dec(tc.profile), "policer", "g", PolicerSyntax(tc.g), "y", PolicerSyntax(tc.y),
     "r", PolicerSyntax(tc.r)]
  }

  function MtrSyntax(pr: Print, m: Mtr): seq<string> {
    ["meter"] + (TcSyntax(pr, m.tcs[0], 0) +
      if m.tcMask == 1 then [] else TcSyntax(pr, m.tcs[1], 1) + (TcSyntax(pr, m.tcs[2], 2) + TcSyntax(pr, m.tcs[3], 3)))
  }

  function TagSyntax(pr: Print, t: Tag1Q): (ws: seq<string>)
    ensures |ws| == 3
  {
    [pr.dec(t.pcp), pr.dec(t.dei), pr.dec(t.vid)]
  }

  function EncapSyntax(pr: Print, e: Encap): seq<string> {
    match e
    case Vlan(da, sa, v) => ["encap", "vlan", pr.mac(da), pr.mac(sa)] + TagSyntax(pr, v)
    case QinQ(da, sa, sv, cv) => ["encap", "qinq", pr.mac(da), pr.mac(sa)] + TagSyntax(pr, sv) + TagSyntax(pr, cv)
    case QinQPppoe(da, sa, sv, cv, id) =>
      ["encap", "qinq_pppoe", pr.mac(da), pr.mac(sa)] + TagSyntax(pr, sv) + TagSyntax(pr, cv) + [pr.dec(id)]
    case _ => EncapWords(pr, e)
  }

  function SectionSyntax(pr: Print, s: Section, act: Action): (ws: seq<string>)
    ensures ws != [] && ws[0] == Keyword(s)
  {
    match s
    case SMtr => MtrSyntax(pr, act.mtr)
    case SEncap => EncapSyntax(pr, act.encap)
    case _ => SectionWords(pr, s, act)
  }

  function ActionSyntax(pr: Print, secs: seq<Section>, act: Action): seq<string>
    decreases |secs|, act
  {
    if secs == [] then []
    else (if secs[0] in act.mask then SectionSyntax(pr, secs[0], act) else []) + ActionSyntax(pr, secs[1..], act)
  }

  /** A hash match is written with its whole key. */
  function MatchSyntax(pr: Print, m: Match): seq<string> {
    match m
    case MAcl(AclV4(sa, da), sd, dd, sp0, sp1, dp0, dp1, proto, _, priority) =>
      ["match", "acl", "priority", pr.dec(priority), "ipv4", pr.ip4(sa), pr.dec(sd), pr.ip4(da), pr.dec(dd),
       pr.dec(sp0), pr.dec(sp1), pr.dec(dp0), pr.dec(dp1), pr.dec(proto)]
    case MAcl(AclV6(sa, da), sd, dd, sp0, sp1, dp0, dp1, proto, _, priority) =>
      ["match", "acl", "priority", pr.dec(priority), "ipv6", pr.ip6(sa), pr.dec(sd), pr.ip6(da), pr.dec(dd),
       pr.dec(sp0), pr.dec(sp1), pr.dec(dp0), pr.dec(dp1), pr.dec(proto)]
    case MArray(pos) => ["match", "array", pr.dec(pos)]
    case MHash(key) => ["match", "hash", "raw", pr.hex(key)]
    case MLpm(LpmV4(ip), depth) => ["match", "lpm", "ipv4", pr.ip4(ip), pr.dec(depth)]
    case MLpm(LpmV6(ip), depth) => ["match", "lpm", "ipv6", pr.ip6(ip), pr.dec(depth)]
  }

  // ---- What is written is read as written ----

  ghost predicate Inverse4(lx: Lex, pr: Print) { forall a: u32 :: lx.ip4(pr.ip4(a)) == Some(a) }

  ghost predicate Inverse6(lx: Lex, pr: Print) { forall a: Ip6 :: lx.ip6(pr.ip6(a)) == Some(a) }

  ghost predicate Inverse8(lx: Lex, pr: Print) { forall n: u8 :: lx.u8(pr.dec(n)) == Some(n) }

  /** The readers are inverse to the writers, for IPv6 addresses too. */
  ghost predicate Inverse(lx: Lex, pr: Print) {
    && NumbersBack(lx, pr) && Inverse8(lx, pr) && MacsBack(lx, pr) && Inverse4(lx, pr) && Inverse6(lx, pr)
    && KeysBack(lx, pr) && WordsFail(lx)
  }

  lemma AclAddrIsRead(lx: Lex, pr: Print, addr: AclAddr, ts: seq<string>)
    requires Inverse4(lx, pr) && Inverse6(lx, pr) && |ts| >= 14
    requires addr.AclV4? ==> ts[5] == pr.ip4(addr.sa) && ts[7] == pr.ip4(addr.da)
    requires addr.AclV6? ==> ts[5] == pr.ip6(addr.sa6) && ts[7] == pr.ip6(addr.da6)
    ensures ParseAclAddr(lx, ts, addr.AclV4?, 5, 7) == Some(addr)
  {
  }

  lemma AclIsRead(lx: Lex, pr: Print, m: Match, ts: seq<string>)
    requires NumbersBack(lx, pr) && Inverse8(lx, pr) && m.MAcl? && m.protoMask == 0 && |ts| >= 14
    requires ts[2] == "priority" && ts[4] == (if m.addr.AclV4? then "ipv4" else "ipv6")
    requires ParseAclAddr(lx, ts, m.addr.AclV4?, 5, 7) == Some(m.addr)
    requires ts[3] == pr.dec(m.priority) && ts[6] == pr.dec(m.saDepth) && ts[8] == pr.dec(m.daDepth)
    requires ts[9] == pr.dec(m.sp0) && ts[10] == pr.dec(m.sp1) && ts[11] == pr.dec(m.dp0) && ts[12] == pr.dec(m.dp1)
    requires ts[13] == pr.dec(m.proto)
    ensures ParseAcl(lx, ts) == Some((m, 14))
  {
    assert ts[4] == "ipv4" <==> m.addr.AclV4? by { assert "ipv4"[3] != "ipv6"[3]; }
  }

  lemma AclSyntaxIsRead(lx: Lex, pr: Print, m: Match, rest: seq<string>)
    requires NumbersBack(lx, pr) && Inverse8(lx, pr) && Inverse4(lx, pr) && Inverse6(lx, pr)
    requires m.MAcl? && m.protoMask == 0
    ensures ParseMatch(lx, MatchSyntax(pr, m) + rest) == Some((m, |MatchSyntax(pr, m)|))
  {
    var ts := MatchSyntax(pr, m) + rest;
    AclWords(pr, m, rest);
    AclAddrIsRead(lx, pr, m.addr, ts);
    AclIsRead(lx, pr, m, ts);
  }

  /** Where the words of an ACL match stand. */
  lemma AclWords(pr: Print, m: Match, rest: seq<string>)
    requires m.MAcl?
    ensures var (ws, ts) := (MatchSyntax(pr, m), MatchSyntax(pr, m) + rest);
            && |ws| == 14 && |ts| >= 14 && ts[0] == "match" && ts[1] == "acl" && ts[2] == "priority"
            && ts[3] == pr.dec(m.priority) && ts[4] == (if m.addr.AclV4? then "ipv4" else "ipv6")
            && ts[5] == (if m.addr.AclV4? then pr.ip4(m.addr.sa) else pr.ip6(m.addr.sa6))
            && ts[6] == pr.dec(m.saDepth)
            && ts[7] == (if m.addr.AclV4? then pr.ip4(m.addr.da) else pr.ip6(m.addr.da6))
            && ts[8] == pr.dec(m.daDepth) && ts[9] == pr.dec(m.sp0) && ts[10] == pr.dec(m.sp1)
            && ts[11] == pr.dec(m.dp0) && ts[12] == pr.dec(m.dp1) && ts[13] == pr.dec(m.proto)
  {
  }

  lemma LpmSyntaxIsRead(lx: Lex, pr: Print, m: Match, rest: seq<string>)
    requires Inverse8(lx, pr) && Inverse4(lx, pr) && Inverse6(lx, pr) && m.MLpm?
    ensures ParseMatch(lx, MatchSyntax(pr, m) + rest) == Some((m, |MatchSyntax(pr, m)|))
  {
    At(MatchSyntax(pr, m), rest);
  }

  lemma WholeKey(key: HashBytes)
    ensures KeyFrom(key) == key
  {
  }

  lemma HashSyntaxIsRead(lx: Lex, pr: Print, m: Match, rest: seq<string>)
    requires KeysBack(lx, pr) && m.MHash?
    ensures ParseMatch(lx, MatchSyntax(pr, m) + rest) == Some((m, |MatchSyntax(pr, m)|))
  {
    var ts := MatchSyntax(pr, m) + rest;
    At(MatchSyntax(pr, m), rest);
    RawIsRead(lx, ts, m.key) by {
      assert lx.hex(ts[3]) == Some(m.key);
    }
    WholeKey(m.key);
  }

  lemma ArraySyntaxIsRead(lx: Lex, pr: Print, m: Match, rest: seq<string>)
    requires NumbersBack(lx, pr) && m.MArray?
    ensures ParseMatch(lx, MatchSyntax(pr, m) + rest) == Some((m, |MatchSyntax(pr, m)|))
  {
    At(MatchSyntax(pr, m), rest);
  }

  lemma MatchSyntaxIsRead(lx: Lex, pr: Print, m: Match, rest: seq<string>)
    requires Inverse(lx, pr) && MatchMade(m)
    ensures ParseMatch(lx, MatchSyntax(pr, m) + rest) == Some((m, |MatchSyntax(pr, m)|))
  {
    match m
    case MAcl(_, _, _, _, _, _, _, _, _, _) => AclSyntaxIsRead(lx, pr, m, rest);
    case MArray(_) => ArraySyntaxIsRead(lx, pr, m, rest);
    case MHash(_) => HashSyntaxIsRead(lx, pr, m, rest);
    case MLpm(_, _) => LpmSyntaxIsRead(lx, pr, m, rest);
  }

  /** The forms in which the match of a hash table can be written. */
  datatype HashForm =
    | Raw(bytes: seq<u8>)
    | Tuple4(sa: u32, da: u32, sp: u16, dp: u16, proto: u8)
    | Tuple6(sa6: Ip6, da6: Ip6, sp: u16, dp: u16, proto: u8)
    | Addr4(a: u32)
    | Addr6(a6: Ip6)
    | Tags(svlan: u16, cvlan: u16)

  function FormSyntax(pr: Print, f: HashForm): seq<string> {
    match f
    case Raw(bytes) => ["match", "hash", "raw", pr.hex(bytes)]
    case Tuple4(sa, da, sp, dp, proto) =>
      ["match", "hash", "ipv4_5tuple", pr.ip4(sa), pr.ip4(da), pr.dec(sp), pr.dec(dp), pr.dec(proto)]
    case Tuple6(sa, da, sp, dp, proto) =>
      ["match", "hash", "ipv6_5tuple", pr.ip6(sa), pr.ip6(da), pr.dec(sp), pr.dec(dp), pr.dec(proto)]
    case Addr4(a) => ["match", "hash", "ipv4_addr", pr.ip4(a)]
    case Addr6(a) => ["match", "hash", "ipv6_addr", pr.ip6(a)]
    case Tags(svlan, cvlan) => ["match", "hash", "qinq", pr.dec(svlan), pr.dec(cvlan)]
  }

  /** The key that a form makes; what it does not set is zero. */
  function FormKey(f: HashForm): HashBytes
    requires f.Raw? ==> |f.bytes| <= MATCH_SIZE_MAX
  {
    match f
    case Raw(bytes) => KeyFrom(bytes)
    case Tuple4(sa, da, sp, dp, proto) => TupleKey4(sa, da, sp, dp, proto)
    case Tuple6(sa, da, sp, dp, proto) => TupleKey6(sa, da, sp, dp, proto)
    case Addr4(a) => KeyFrom(Be32(a))
    case Addr6(a) => KeyFrom(a)
    case Tags(svlan, cvlan) => QinQKey(svlan, cvlan)
  }

  /** A raw key has an even number of bytes, a VLAN tag has 12 bits. */
  predicate FormOk(f: HashForm) {
    && (f.Raw? ==> |f.bytes| % 2 == 0)
    && (f.Tags? ==> f.svlan <= 0xFFF && f.cvlan <= 0xFFF)
  }

  lemma HashIsDispatched(lx: Lex, ts: seq<string>)
    requires |ts| >= 2 && ts[0] == "match" && ts[1] == "hash"
    ensures ParseMatch(lx, ts) == ParseHash(lx, ts)
  {
  }

  /** `ts` starts with the words of a hash match of the form `name`. */
  predicate HashWords(ts: seq<string>, name: string) {
    |ts| >= 4 && ts[0] == "match" && ts[1] == "hash" && ts[2] == name
  }

  lemma RawIsReadAsKey(lx: Lex, pr: Print, bytes: seq<u8>, ts: seq<string>)
    requires KeysBack(lx, pr) && 1 <= |bytes| <= MATCH_SIZE_MAX
    requires HashWords(ts, "raw") && ts[3] == pr.hex(bytes)
    ensures ParseMatch(lx, ts) == if |bytes| % 2 == 0 then Some((MHash(KeyFrom(bytes)), 4)) else None
  {
    HashIsDispatched(lx, ts);
    assert lx.hex(ts[3]) == if |bytes| % 2 == 0 then Some(bytes) else None;
  }

  lemma Tuple4IsRead(lx: Lex, pr: Print, f: HashForm, ts: seq<string>)
    requires f.Tuple4? && NumbersBack(lx, pr) && Inverse8(lx, pr) && Inverse4(lx, pr)
    requires |ts| >= 8 && HashWords(ts, "ipv4_5tuple") && ts[3] == pr.ip4(f.sa) && ts[4] == pr.ip4(f.da)
    requires ts[5] == pr.dec(f.sp) && ts[6] == pr.dec(f.dp) && ts[7] == pr.dec(f.proto)
    ensures ParseMatch(lx, ts) == Some((MHash(FormKey(f)), 8))
  {
    HashIsDispatched(lx, ts);
    assert Parse5Tuple(lx, ts, true) == Some((MHash(FormKey(f)), 8));
  }

  lemma Tuple6IsRead(lx: Lex, pr: Print, f: HashForm, ts: seq<string>)
    requires f.Tuple6? && NumbersBack(lx, pr) && Inverse8(lx, pr) && Inverse6(lx, pr)
    requires |ts| >= 8 && HashWords(ts, "ipv6_5tuple") && ts[3] == pr.ip6(f.sa6) && ts[4] == pr.ip6(f.da6)
    requires ts[5] == pr.dec(f.sp) && ts[6] == pr.dec(f.dp) && ts[7] == pr.dec(f.proto)
    ensures ParseMatch(lx, ts) == Some((MHash(FormKey(f)), 8))
  {
    HashIsDispatched(lx, ts);
    FormNamesDiffer();
    assert Parse5Tuple(lx, ts, false) == Some((MHash(FormKey(f)), 8));
  }

  lemma AddressIsRead(lx: Lex, pr: Print, f: HashForm, ts: seq<string>)
    requires (f.Addr4? || f.Addr6?) && Inverse4(lx, pr) && Inverse6(lx, pr)
    requires HashWords(ts, if f.Addr4? then "ipv4_addr" else "ipv6_addr")
    requires ts[3] == if f.Addr4? then pr.ip4(f.a) else pr.ip6(f.a6)
    ensures ParseMatch(lx, ts) == Some((MHash(FormKey(f)), 4))
  {
    HashIsDispatched(lx, ts);
    FormNamesDiffer();
  }

  lemma TagsAreRead(lx: Lex, pr: Print, f: HashForm, ts: seq<string>)
    requires f.Tags? && NumbersBack(lx, pr)
    requires |ts| >= 5 && HashWords(ts, "qinq") && ts[3] == pr.dec(f.svlan) && ts[4] == pr.dec(f.cvlan)
    ensures ParseMatch(lx, ts) == if FormOk(f) then Some((MHash(FormKey(f)), 5)) else None
  {
    HashIsDispatched(lx, ts);
  }

  lemma FormNamesDiffer()
    ensures "ipv4_5tuple" != "ipv6_5tuple" && "ipv4_addr" != "ipv6_addr"
  {
    assert "ipv4_5tuple"[3] != "ipv6_5tuple"[3] && "ipv4_addr"[3] != "ipv6_addr"[3];
  }

  /** A form is read as its key, with all its words, or rejected if it is out of range. */
  ghost predicate FormIsRead(lx: Lex, pr: Print, f: HashForm, rest: seq<string>)
    requires f.Raw? ==> |f.bytes| <= MATCH_SIZE_MAX
  {
    ParseMatch(lx, FormSyntax(pr, f) + rest) ==
    if FormOk(f) then Some((MHash(FormKey(f)), |FormSyntax(pr, f)|)) else None
  }

  lemma TupleWords(pr: Print, f: HashForm, rest: seq<string>)
    requires f.Tuple4? || f.Tuple6?
    ensures var (ws, ts) := (FormSyntax(pr, f), FormSyntax(pr, f) + rest);
            && |ws| == 8 && |ts| >= 8 && HashWords(ts, if f.Tuple4? then "ipv4_5tuple" else "ipv6_5tuple")
            && ts[3] == ws[3] && ts[4] == ws[4] && ts[5] == ws[5] && ts[6] == ws[6] && ts[7] == ws[7]
  {
  }

  lemma TupleFormIsRead(lx: Lex, pr: Print, f: HashForm, rest: seq<string>)
    requires Inverse(lx, pr) && (f.Tuple4? || f.Tuple6?)
    ensures FormIsRead(lx, pr, f, rest)
  {
    var ts := FormSyntax(pr, f) + rest;
    TupleWords(pr, f, rest);
    if f.Tuple4? { Tuple4IsRead(lx, pr, f, ts); } else { Tuple6IsRead(lx, pr, f, ts); }
  }

  lemma ShortWords(pr: Print, f: HashForm, rest: seq<string>)
    requires f.Raw? || f.Tags?
    ensures var (ws, ts) := (FormSyntax(pr, f), FormSyntax(pr, f) + rest);
            && |ws| == (if f.Raw? then 4 else 5) && |ts| >= |ws| && HashWords(ts, if f.Raw? then "raw" else "qinq")
            && ts[3] == ws[3] && (f.Tags? ==> ts[4] == ws[4])
  {
  }

  lemma RawFormIsRead(lx: Lex, pr: Print, f: HashForm, rest: seq<string>)
    requires Inverse(lx, pr) && f.Raw? && 1 <= |f.bytes| <= MATCH_SIZE_MAX
    ensures FormIsRead(lx, pr, f, rest)
  {
    ShortWords(pr, f, rest);
    RawIsReadAsKey(lx, pr, f.bytes, FormSyntax(pr, f) + rest);
  }

  lemma TagsFormIsRead(lx: Lex, pr: Print, f: HashForm, rest: seq<string>)
    requires Inverse(lx, pr) && f.Tags?
    ensures FormIsRead(lx, pr, f, rest)
  {
    ShortWords(pr, f, rest);
    TagsAreRead(lx, pr, f, FormSyntax(pr, f) + rest);
  }

  lemma AddressWords(pr: Print, f: HashForm, rest: seq<string>)
    requires f.Addr4? || f.Addr6?
    ensures var (ws, ts) := (FormSyntax(pr, f), FormSyntax(pr, f) + rest);
            |ws| == 4 && HashWords(ts, if f.Addr4? then "ipv4_addr" else "ipv6_addr") && ts[3] == ws[3]
  {
  }

  lemma AddressFormIsRead(lx: Lex, pr: Print, f: HashForm, rest: seq<string>)
    requires Inverse(lx, pr) && (f.Addr4? || f.Addr6?)
    ensures FormIsRead(lx, pr, f, rest)
  {
    AddressWords(pr, f, rest);
    AddressIsRead(lx, pr, f, FormSyntax(pr, f) + rest);
  }

  /** Every form of a hash match is read as its key, or rejected exactly when it is out of range. */
  lemma HashFormIsRead(lx: Lex, pr: Print, f: HashForm, rest: seq<string>)
    requires Inverse(lx, pr) && (f.Raw? ==> 1 <= |f.bytes| <= MATCH_SIZE_MAX)
    ensures FormIsRead(lx, pr, f, rest)
  {
    if f.Tuple4? || f.Tuple6? {
      TupleFormIsRead(lx, pr, f, rest);
    } else if f.Addr4? || f.Addr6? {
      AddressFormIsRead(lx, pr, f, rest);
    } else if f.Raw? {
      RawFormIsRead(lx, pr, f, rest);
    } else {
      TagsFormIsRead(lx, pr, f, rest);
    }
  }

  lemma PolicerIsRead(p: Policer)
    ensures ParsePolicer(PolicerSyntax(p)) == Some(p)
  {
  }

  lemma TcIsRead(lx: Lex, pr: Print, tc: MtrTc, k: nat, ts: seq<string>)
    requires NumbersBack(lx, pr) && k < 4 && |ts| >= 10 && ts[..10] == TcSyntax(pr, tc, k)
    ensures ParseMtrTc(lx, ts, "tc" + [Digit(k)]) == Some(tc)
  {
    assert forall i :: 0 <= i < 10 ==> ts[i] == ts[..10][i];
    PolicerIsRead(tc.g);
    PolicerIsRead(tc.y);
    PolicerIsRead(tc.r);
  }

  predicate NoTc1Next(rest: seq<string>) { rest == [] || rest[0] != "tc1" }

  lemma TcNames()
    ensures "tc0" == "tc" + [Digit(0)] && "tc1" == "tc" + [Digit(1)] && "tc2" == "tc" + [Digit(2)] &&
            "tc3" == "tc" + [Digit(3)]
  {
  }

  lemma OneTcIsRead(lx: Lex, pr: Print, m: Mtr, rest: seq<string>)
    requires NumbersBack(lx, pr) && MtrMade(m) && m.tcMask == 1 && NoTc1Next(rest)
    ensures ParseMtr(lx, MtrSyntax(pr, m) + rest) == Some((m, 11))
  {
    var ts := MtrSyntax(pr, m) + rest;
    TcNames();
    assert ts[0] == "meter" && ts[1..][..10] == TcSyntax(pr, m.tcs[0], 0);
    TcIsRead(lx, pr, m.tcs[0], 0, ts[1..]);
    assert rest != [] ==> ts[11] == rest[0];
    assert m.tcs == [m.tcs[0], ZERO_TC, ZERO_TC, ZERO_TC];
  }

  lemma FourTcsAreRead(lx: Lex, pr: Print, m: Mtr, rest: seq<string>)
    requires NumbersBack(lx, pr) && m.tcMask == 0xF
    ensures ParseMtr(lx, MtrSyntax(pr, m) + rest) == Some((m, 41))
  {
    var ts := MtrSyntax(pr, m) + rest;
    TcNames();
    FourTcWords(pr, m, rest);
    TcIsRead(lx, pr, m.tcs[0], 0, ts[1..]);
    TcIsRead(lx, pr, m.tcs[1], 1, ts[11..]);
    TcIsRead(lx, pr, m.tcs[2], 2, ts[21..]);
    TcIsRead(lx, pr, m.tcs[3], 3, ts[31..]);
    assert m.tcs == [m.tcs[0], m.tcs[1], m.tcs[2], m.tcs[3]];
  }

  /** Where the words of the four traffic classes stand. */
  lemma FourTcWords(pr: Print, m: Mtr, rest: seq<string>)
    requires m.tcMask == 0xF
    ensures var ts := MtrSyntax(pr, m) + rest;
            && |ts| >= 41 && ts[0] == "meter" && ts[11] == TcSyntax(pr, m.tcs[1], 1)[0]
            && ts[1..][..10] == TcSyntax(pr, m.tcs[0], 0) && ts[11..][..10] == TcSyntax(pr, m.tcs[1], 1)
            && ts[21..][..10] == TcSyntax(pr, m.tcs[2], 2) && ts[31..][..10] == TcSyntax(pr, m.tcs[3], 3)
  {
    var ts := MtrSyntax(pr, m) + rest;
    assert ts[11..][..10] == TcSyntax(pr, m.tcs[1], 1);
    assert ts[11] == ts[11..][..10][0];
  }

  lemma TagIsRead(lx: Lex, pr: Print, t: Tag1Q, ts: seq<string>, i: nat)
    requires NumbersBack(lx, pr) && TagMade(t) && i + 3 <= |ts| && ts[i..i + 3] == TagSyntax(pr, t)
    ensures ParseTag1Q(lx, ts, i) == Some(t)
  {
    assert ts[i] == ts[i..i + 3][0] && ts[i + 1] == ts[i..i + 3][1] && ts[i + 2] == ts[i..i + 3][2];
  }

  lemma VlanIsRead(lx: Lex, pr: Print, e: Encap, rest: seq<string>)
    requires NumbersBack(lx, pr) && MacsBack(lx, pr) && e.Vlan? && EncapMade(e)
    ensures ParseEncap(lx, EncapSyntax(pr, e) + rest) == Some((e, |EncapSyntax(pr, e)|))
  {
    var ts := EncapSyntax(pr, e) + rest;
    At(EncapSyntax(pr, e), rest);
    assert ts[4..7] == TagSyntax(pr, e.vlan);
    TagIsRead(lx, pr, e.vlan, ts, 4);
    assert ParseMacs(lx, ts, 2) == Some((e.da, e.sa));
  }

  lemma QinQIsRead(lx: Lex, pr: Print, e: Encap, rest: seq<string>)
    requires NumbersBack(lx, pr) && MacsBack(lx, pr) && (e.QinQ? || e.QinQPppoe?) && EncapMade(e)
    ensures ParseEncap(lx, EncapSyntax(pr, e) + rest) == Some((e, |EncapSyntax(pr, e)|))
  {
    var ts := EncapSyntax(pr, e) + rest;
    At(EncapSyntax(pr, e), rest);
    assert ts[4..7] == TagSyntax(pr, e.svlan) && ts[7..10] == TagSyntax(pr, e.cvlan);
    TagIsRead(lx, pr, e.svlan, ts, 4);
    TagIsRead(lx, pr, e.cvlan, ts, 7);
    assert ParseMacs(lx, ts, 2) == Some((e.da, e.sa));
  }

  lemma EncapSyntaxIsRead(lx: Lex, pr: Print, e: Encap, rest: seq<string>)
    requires NumbersBack(lx, pr) && MacsBack(lx, pr) && WordsFail(lx) && EncapMade(e) && NoLabelNext(rest)
    ensures ParseEncap(lx, EncapSyntax(pr, e) + rest) == Some((e, |EncapSyntax(pr, e)|))
  {
    if e.Vlan? {
      VlanIsRead(lx, pr, e, rest);
    } else if e.QinQ? || e.QinQPppoe? {
      QinQIsRead(lx, pr, e, rest);
    } else {
      EncapReadsBack(lx, pr, e, rest);
    }
  }

  lemma NatSyntaxIsRead(lx: Lex, pr: Print, n: Nat, rest: seq<string>)
    requires NumbersBack(lx, pr) && Inverse4(lx, pr) && Inverse6(lx, pr)
    ensures ParseNat(lx, NatWords(pr, n) + rest) == Some((n, 4))
  {
    At(NatWords(pr, n), rest);
  }

  /** Section `s`, written as the grammar says, is read as written. */
  ghost predicate IsRead(rd: Reader, pr: Print, tsc: nat, s: Section, act: Action, rest: seq<string>, acc: Action) {
    rd(s, SectionSyntax(pr, s, act) + rest, acc) == Some((SetSection(tsc, s, acc, act), |SectionSyntax(pr, s, act)|))
  }

  lemma MtrSectionIsRead(lx: Lex, pr: Print, tsc: nat, act: Action, rest: seq<string>, acc: Action)
    requires NumbersBack(lx, pr) && MtrMade(act.mtr) && NoTc1Next(rest)
    ensures IsRead(SectionReader(lx, tsc), pr, tsc, SMtr, act, rest, acc)
  {
    if act.mtr.tcMask == 1 { OneTcIsRead(lx, pr, act.mtr, rest); } else { FourTcsAreRead(lx, pr, act.mtr, rest); }
  }

  lemma EncapSectionIsRead(lx: Lex, pr: Print, tsc: nat, act: Action, rest: seq<string>, acc: Action)
    requires NumbersBack(lx, pr) && MacsBack(lx, pr) && WordsFail(lx) && EncapMade(act.encap) && NoLabelNext(rest)
    ensures IsRead(SectionReader(lx, tsc), pr, tsc, SEncap, act, rest, acc)
  {
    EncapSyntaxIsRead(lx, pr, act.encap, rest);
  }

  lemma NatSectionIsRead(lx: Lex, pr: Print, tsc: nat, act: Action, rest: seq<string>, acc: Action)
    requires NumbersBack(lx, pr) && Inverse4(lx, pr) && Inverse6(lx, pr)
    ensures IsRead(SectionReader(lx, tsc), pr, tsc, SNat, act, rest, acc)
  {
    NatSyntaxIsRead(lx, pr, act.nat_, rest);
  }

  lemma CoveredIsRead(lx: Lex, pr: Print, tsc: nat, s: Section, act: Action, rest: seq<string>, acc: Action)
    requires SectionBack(lx, pr, tsc, s, act, rest, acc) && CoveredSection(s, act) && s != SEncap
    ensures IsRead(SectionReader(lx, tsc), pr, tsc, s, act, rest, acc)
  {
  }

  lemma SectionIsRead(lx: Lex, pr: Print, tsc: nat, s: Section, act: Action, rest: seq<string>, acc: Action)
    requires Inverse(lx, pr) && SectionMade(s, act) && NoLabelNext(rest) && NoTc1Next(rest)
    ensures IsRead(SectionReader(lx, tsc), pr, tsc, s, act, rest, acc)
  {
    match s
    case SMtr => MtrSectionIsRead(lx, pr, tsc, act, rest, acc);
    case SEncap => EncapSectionIsRead(lx, pr, tsc, act, rest, acc);
    case SNat => NatSectionIsRead(lx, pr, tsc, act, rest, acc);
    case SFwd =>
      FwdSection(lx, pr, tsc, act, rest, acc);
      CoveredIsRead(lx, pr, tsc, s, act, rest, acc);
    case SLb =>
      LbSection(lx, pr, tsc, act, rest, acc);
      CoveredIsRead(lx, pr, tsc, s, act, rest, acc);
    case STm =>
      TmSection(lx, pr, tsc, act, rest, acc);
      CoveredIsRead(lx, pr, tsc, s, act, rest, acc);
    case _ =>
      SmallSection(lx, pr, tsc, s, act, rest, acc);
      CoveredIsRead(lx, pr, tsc, s, act, rest, acc);
  }

  // ---- The chain ----

  /** What the chain needs of a section parser on the words of `act`. */
  ghost predicate ReadsSyntax(rd: Reader, pr: Print, tsc: nat, act: Action) {
    forall s, rest, acc :: s in act.mask && NoLabelNext(rest) && NoTc1Next(rest) ==>
      IsRead(rd, pr, tsc, s, act, rest, acc)
  }

  lemma KeywordsDiffer(s: Section, s': Section)
    ensures s != s' ==> Keyword(s) != Keyword(s')
    ensures Keyword(s) != "tc1" && forall k :: 0 <= k < 4 ==> Keyword(s) != LabelWord(k)
  {
    var h, k := Keyword(s'), Keyword(s);
    assert s != s' ==> |h| != |k| || h[0] != k[0] || h[1] != k[1];
    assert |k| != 3 || k[1] != 'c';
    assert |k| != 6;
    assert forall i :: 0 <= i < 4 ==> |LabelWord(i)| == 6;
  }

  lemma {:induction false} SyntaxStartsAtKeyword(pr: Print, secs: seq<Section>, act: Action)
    ensures var ws := ActionSyntax(pr, secs, act);
            && (ws != [] ==> exists s :: s in secs && ws[0] == Keyword(s))
            && NoLabelNext(ws) && NoTc1Next(ws)
    decreases |secs|
  {
    if secs != [] {
      SyntaxStartsAtKeyword(pr, secs[1..], act);
      if secs[0] in act.mask {
        assert ActionSyntax(pr, secs, act)[0] == Keyword(secs[0]);
        KeywordsDiffer(secs[0], secs[0]);
      }
    }
  }

  lemma {:induction false} ChainTakesSyntax(rd: Reader, pr: Print, tsc: nat, secs: seq<Section>, act: Action,
                                            acc: Action)
    requires ReadsSyntax(rd, pr, tsc, act) && secs != [] && secs[0] in act.mask
    ensures var (ws, rest) := (ActionSyntax(pr, secs, act), ActionSyntax(pr, secs[1..], act));
            var n := |SectionSyntax(pr, secs[0], act)|;
            && |ws| == n + |rest|
            && ParseSections(rd, secs, ws, acc) ==
               After(n, ParseSections(rd, secs[1..], rest, SetSection(tsc, secs[0], acc, act)))
  {
    var (ws, rest) := (ActionSyntax(pr, secs, act), ActionSyntax(pr, secs[1..], act));
    var sw := SectionSyntax(pr, secs[0], act);
    SyntaxStartsAtKeyword(pr, secs[1..], act);
    assert ws == sw + rest;
    assert IsRead(rd, pr, tsc, secs[0], act, rest, acc);
    TakeStep(rd, secs, sw, rest, acc, true, SetSection(tsc, secs[0], acc, act));
  }

  lemma {:induction false} ChainSkipsSyntax(rd: Reader, pr: Print, secs: seq<Section>, act: Action, acc: Action)
    requires secs != [] && secs[0] !in act.mask && DistinctSections(secs)
    ensures var ws := ActionSyntax(pr, secs, act);
            && ws == ActionSyntax(pr, secs[1..], act)
            && ParseSections(rd, secs, ws, acc) == ParseSections(rd, secs[1..], ws, acc)
  {
    var ws := ActionSyntax(pr, secs[1..], act);
    assert ActionSyntax(pr, secs, act) == ws;
    SyntaxStartsAtKeyword(pr, secs[1..], act);
    if ws != [] {
      var s' :| s' in secs[1..] && ws[0] == Keyword(s');
      KeywordsDiffer(s', secs[0]);
    }
  }

  lemma {:induction false} TakenIsRead(rd: Reader, pr: Print, tsc: nat, secs: seq<Section>, act: Action, acc: Action)
    requires ReadsSyntax(rd, pr, tsc, act) && secs != [] && secs[0] in act.mask
    requires var (rest, acc1) := (ActionSyntax(pr, secs[1..], act), SetSection(tsc, secs[0], acc, act));
             ParseSections(rd, secs[1..], rest, acc1) == Some((CopyAll(tsc, secs[1..], acc1, act), |rest|))
    ensures var ws := ActionSyntax(pr, secs, act);
            ParseSections(rd, secs, ws, acc) == Some((CopyAll(tsc, secs, acc, act), |ws|))
  {
    ChainTakesSyntax(rd, pr, tsc, secs, act, acc);
  }

  lemma {:induction false} ChainReadsSyntax(rd: Reader, pr: Print, tsc: nat, secs: seq<Section>, act: Action,
                                            acc: Action)
    requires ReadsSyntax(rd, pr, tsc, act) && DistinctSections(secs)
    ensures var ws := ActionSyntax(pr, secs, act);
            ParseSections(rd, secs, ws, acc) == Some((CopyAll(tsc, secs, acc, act), |ws|))
    decreases |secs|
  {
    if secs != [] {
      if secs[0] in act.mask {
        ChainReadsSyntax(rd, pr, tsc, secs[1..], act, SetSection(tsc, secs[0], acc, act));
        TakenIsRead(rd, pr, tsc, secs, act, acc);
      } else {
        ChainReadsSyntax(rd, pr, tsc, secs[1..], act, acc);
        ChainSkipsSyntax(rd, pr, secs, act, acc);
      }
    }
  }

  lemma {:induction false} SyntaxOfMask(pr: Print, secs: seq<Section>, act: Action)
    ensures ActionSyntax(pr, secs, act) == [] <==> forall s :: s in secs ==> s !in act.mask
    decreases |secs|
  {
    if secs != [] {
      assert forall x :: x in secs <==> x == secs[0] || x in secs[1..];
      SyntaxOfMask(pr, secs[1..], act);
    }
  }

  lemma {:induction false} ActionSyntaxIsRead(rd: Reader, pr: Print, tsc: nat, secs: seq<Section>, act: Action)
    requires ReadsSyntax(rd, pr, tsc, act) && DistinctSections(secs) && (forall s :: s in secs)
    requires ParserMade(act) && act.mask != {}
    ensures var ts := ["action"] + ActionSyntax(pr, secs, act);
            ParseActionBy(rd, secs, ts) == Some((Restamp(act, tsc), |ts|))
  {
    var ws := ActionSyntax(pr, secs, act);
    ChainReadsSyntax(rd, pr, tsc, secs, act, ZERO_ACTION);
    CopyIsRestamp(tsc, secs, act);
    SyntaxOfMask(pr, secs, act);
    var s :| s in act.mask;
    assert s in secs;
    ChainIsAction(rd, secs, ws, Restamp(act, tsc));
  }

  /** A chain that takes all words makes the action behind the keyword. */
  lemma {:induction false} ChainIsAction(rd: Reader, secs: seq<Section>, ws: seq<string>, act: Action)
    requires ws != [] && ParseSections(rd, secs, ws, ZERO_ACTION) == Some((act, |ws|))
    ensures ParseActionBy(rd, secs, ["action"] + ws) == Some((act, |["action"] + ws|))
  {
    assert (["action"] + ws)[1..] == ws;
  }

  lemma SectionReaderReadsSyntax(lx: Lex, pr: Print, tsc: nat, act: Action)
    requires Inverse(lx, pr) && Made(act)
    ensures ReadsSyntax(SectionReader(lx, tsc), pr, tsc, act)
  {
    forall s, rest, acc | s in act.mask && NoLabelNext(rest) && NoTc1Next(rest)
      ensures IsRead(SectionReader(lx, tsc), pr, tsc, s, act, rest, acc)
    {
      assert SectionMade(s, act);
      SectionIsRead(lx, pr, tsc, s, act, rest, acc);
    }
  }

  function RuleSyntax(pr: Print, secs: seq<Section>, m: Match, act: Action): seq<string> {
    MatchSyntax(pr, m) + (["action"] + ActionSyntax(pr, secs, act))
  }

  /**
   * A match and an action can be read from some line if and only if they are in range; the line that
   * the grammar documents for them is such a line.
   */
  lemma ReadableIffMade(lx: Lex, pr: Print, tsc: nat, m: Match, act: Action)
    requires Inverse(lx, pr)
    ensures MatchMade(m) && Writable(act, tsc) <==> exists ts :: ReadRule(lx, tsc, ts) == Some((m, act))
    ensures MatchMade(m) && Writable(act, tsc) ==> ReadRule(lx, tsc, RuleSyntax(pr, SECTIONS, m, act)) == Some((m, act))
  {
    if MatchMade(m) && Writable(act, tsc) {
      SyntaxIsRead(lx, pr, tsc, m, act);
    }
    if ts :| ReadRule(lx, tsc, ts) == Some((m, act)) {
      ReadIsMade(lx, tsc, ts);
    }
  }

  lemma SyntaxIsRead(lx: Lex, pr: Print, tsc: nat, m: Match, act: Action)
    requires Inverse(lx, pr) && MatchMade(m) && Writable(act, tsc)
    ensures ReadRule(lx, tsc, RuleSyntax(pr, SECTIONS, m, act)) == Some((m, act))
  {
    SectionReaderReadsSyntax(lx, pr, tsc, act);
    MadeIsParserMade(act);
    SectionsAreDistinct();
    forall s ensures s in SECTIONS { AllSections(s); }
    SyntaxIsReadBy(lx, pr, tsc, m, act, SectionReader(lx, tsc), SECTIONS);
  }

  lemma {:induction false} SyntaxIsReadBy(lx: Lex, pr: Print, tsc: nat, m: Match, act: Action, rd: Reader,
                                          secs: seq<Section>)
    requires Inverse(lx, pr) && MatchMade(m) && Writable(act, tsc) && ParserMade(act)
    requires ReadsSyntax(rd, pr, tsc, act) && DistinctSections(secs) && forall s :: s in secs
    ensures ReadRuleBy(MatchReader(lx), ActionReader(rd, secs), RuleSyntax(pr, secs, m, act)) == Some((m, act))
  {
    var (mw, aw) := (MatchSyntax(pr, m), ["action"] + ActionSyntax(pr, secs, act));
    MatchSyntaxIsRead(lx, pr, m, aw);
    ActionSyntaxIsRead(rd, pr, tsc, secs, act);
    assert Restamp(act, tsc) == act;
    BothReadBack(MatchReader(lx), ActionReader(rd, secs), mw, aw, m, act, true, true);
  }

  lemma ReadIsMade(lx: Lex, tsc: nat, ts: seq<string>)
    requires ReadRule(lx, tsc, ts).Some?
    ensures MatchMade(ReadRule(lx, tsc, ts).value.0) && Writable(ReadRule(lx, tsc, ts).value.1, tsc)
  {
    ParsedMatchIsMade(lx, ts);
    var n := ParseMatch(lx, ts).value.1;
    ParsedActionIsWritable(lx, tsc, ts[n..]);
  }

  /** The readers and printers of module Lexer are inverse, given an inverse of `inet_pton` for IPv6. */
  lemma LexIsInverse(pton6: string -> Option<Ip6>, ntop6: Ip6 -> string)
    requires forall a: Ip6 :: |ntop6(a)| < 46 && pton6(ntop6(a)) == Some(a)
    ensures Inverse(LexOf(pton6), PrintOf().(ip6 := ntop6))
  {
    var (lx, pr) := (LexOf(pton6), PrintOf().(ip6 := ntop6));
    LexNumbersBack(pton6);
    LexMacsBack(pton6);
    LexKeysBack(pton6);
    LexWordsFail(pton6);
    LexInverse8(pton6);
    LexInverse4(pton6);
  }

  lemma LexInverse8(pton6: string -> Option<Ip6>)
    ensures Inverse8(LexOf(pton6), PrintOf())
  {
    var (lx, pr) := (LexOf(pton6), PrintOf());
    forall n: u8 ensures lx.u8(pr.dec(n)) == Some(n) { ReadMaxDec(n, 0xFF); }
  }

  lemma LexInverse4(pton6: string -> Option<Ip6>)
    ensures Inverse4(LexOf(pton6), PrintOf())
  {
    var (lx, pr) := (LexOf(pton6), PrintOf());
    forall a: u32 ensures lx.ip4(pr.ip4(a)) == Some(a) { ParseIp4ReadsBack(a); }
  }

  // ---- The layout of the composite hash keys ----

  /** Network byte order at the offsets of `struct pkt_key_ipv4_5tuple`; the bytes of no field are zero. */
  lemma TupleKey4Layout(sa: u32, da: u32, sp: u16, dp: u16, proto: u8)
    ensures var k := TupleKey4(sa, da, sp, dp, proto);
            && k[0] == 0 && k[1] == proto && k[2] == k[3] == 0
            && BigEndian(k[4..8]) == sa && BigEndian(k[8..12]) == da
            && BigEndian(k[12..14]) == sp && BigEndian(k[14..16]) == dp
            && forall i :: 16 <= i < MATCH_SIZE_MAX ==> k[i] == 0
  {
    var k := TupleKey4(sa, da, sp, dp, proto);
    assert k[4..8] == Be32(sa) && k[8..12] == Be32(da) && k[12..14] == Be16(sp) && k[14..16] == Be16(dp);
    Be32Value(sa);
    Be32Value(da);
    Be16Value(sp);
    Be16Value(dp);
  }

  /** The same for `struct pkt_key_ipv6_5tuple`. */
  lemma TupleKey6Layout(sa: Ip6, da: Ip6, sp: u16, dp: u16, proto: u8)
    ensures var k := TupleKey6(sa, da, sp, dp, proto);
            && k[0] == k[1] == 0 && k[2] == proto && k[3] == 0
            && k[4..20] == sa && k[20..36] == da && BigEndian(k[36..38]) == sp && BigEndian(k[38..40]) == dp
            && forall i :: 40 <= i < MATCH_SIZE_MAX ==> k[i] == 0
  {
    var k := TupleKey6(sa, da, sp, dp, proto);
    assert k[36..38] == Be16(sp) && k[38..40] == Be16(dp);
    Be16Value(sp);
    Be16Value(dp);
  }

  /** The same for `struct pkt_key_qinq`. */
  lemma QinQKeyLayout(svlan: u16, cvlan: u16)
    ensures var k := QinQKey(svlan, cvlan);
            && k[0] == k[1] == k[4] == k[5] == 0
            && BigEndian(k[2..4]) == svlan && BigEndian(k[6..8]) == cvlan
            && forall i :: 8 <= i < MATCH_SIZE_MAX ==> k[i] == 0
  {
    var k := QinQKey(svlan, cvlan);
    assert k[2..4] == Be16(svlan) && k[6..8] == Be16(cvlan);
    Be16Value(svlan);
    Be16Value(cvlan);
  }

  lemma Be16Value(x: u16)
    ensures BigEndian(Be16(x)) == x
  {
    BigEndianSnoc([], x / 0x100);
    BigEndianSnoc([x / 0x100], x % 0x100);
    assert [] + [x / 0x100] == [x / 0x100] && [x / 0x100] + [x % 0x100] == Be16(x);
  }

  lemma Be32Value(x: u32)
    ensures BigEndian(Be32(x)) == x
  {
    var bs := Be32(x);
    BigEndianAppend4([], bs[0], bs[1], bs[2], bs[3]);
    assert [] + [bs[0], bs[1], bs[2], bs[3]] == bs;
    BytesOfAddress(x);
  }
}
