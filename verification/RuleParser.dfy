/**
 * The parsers of rule matches and actions (processing/dpdk_pipeline/cli.c:2657-3122, 3180-3796,
 * 4168-4391). A parser sees the remaining tokens and returns what it read and how many tokens it
 * used; the C code's return value 0 is None. `inet_pton` for IPv6 and the time stamp counter are
 * arguments.
 */
module RuleParser {
  import opened Prelude
  import opened Rules
  import opened Lexer

  /** The lexical readers that the parsers call. */
  datatype Lex = Lex(u32: string -> Option<u32>, u16: string -> Option<u16>, u8: string -> Option<u8>,
                     mac: string -> Option<Mac>, ip4: string -> Option<u32>, ip6: string -> Option<Ip6>,
                     hex: string -> Option<seq<u8>>)

  /** `parse_ipv6_addr`; `pton6` is `inet_pton(AF_INET6)`. */
  function ParseIp6(pton6: string -> Option<Ip6>, s: string): Option<Ip6> {
    if |s| >= 46 then None else pton6(s)
  }

  /** An address of 46 or more characters is refused unseen, every other one is what `inet_pton` says. */
  lemma LongAddressIsRefused(pton6: string -> Option<Ip6>, s: string)
    ensures |s| <= 45 ==> ParseIp6(pton6, s) == pton6(s)
    ensures |s| > 45 ==> ParseIp6(pton6, s) == None
  {
  }

  /** The readers of module Lexer. */
  function LexOf(pton6: string -> Option<Ip6>): Lex {
    Lex(ReadU32, ReadU16, ReadU8, EtherAton, ParseIp4, s => ParseIp6(pton6, s), s => ParseHex(s, MATCH_SIZE_MAX))
  }

  // ---- Matches ----

  /** Host order to the two bytes in memory. */
  function Be16(x: u16): (s: seq<u8>)
    ensures |s| == 2
  {
    [x / 0x100, x % 0x100]
  }

  /** A zeroed hash key with `bytes` at its start. */
  function KeyFrom(bytes: seq<u8>): HashBytes
    requires |bytes| <= MATCH_SIZE_MAX
  {
    bytes + Zeros(MATCH_SIZE_MAX - |bytes|)
  }

  /** The two addresses at positions `i` and `j`. */
  function ParseAclAddr(lx: Lex, ts: seq<string>, v4: bool, i: nat, j: nat): Option<AclAddr>
    requires i < |ts| && j < |ts|
  {
    if v4 then
      (match (lx.ip4(ts[i]), lx.ip4(ts[j]))
       case (Some(sa), Some(da)) => Some(AclV4(sa, da))
       case _ => None)
    else
      (match (lx.ip6(ts[i]), lx.ip6(ts[j]))
       case (Some(sa), Some(da)) => Some(AclV6(sa, da))
       case _ => None)
  }

  function ParseAcl(lx: Lex, ts: seq<string>): Option<(Match, nat)> {
    if |ts| < 14 || ts[2] != "priority" || (ts[4] != "ipv4" && ts[4] != "ipv6") then None
    else
      match (lx.u32(ts[3]), ParseAclAddr(lx, ts, ts[4] == "ipv4", 5, 7), lx.u32(ts[6]), lx.u32(ts[8]))
      case (Some(priority), Some(a), Some(sd), Some(dd)) =>
        (match (lx.u16(ts[9]), lx.u16(ts[10]), lx.u16(ts[11]), lx.u16(ts[12]), lx.u8(ts[13]))
         case (Some(sp0), Some(sp1), Some(dp0), Some(dp1), Some(proto)) =>
           Some((MAcl(a, sd, dd, sp0, sp1, dp0, dp1, proto, 0, priority), 14))
         case _ => None)
      case _ => None
  }

  function TupleKey4(sa: u32, da: u32, sp: u16, dp: u16, proto: u8): HashBytes {
    KeyFrom([0, proto, 0, 0] + Be32(sa) + Be32(da) + Be16(sp) + Be16(dp))
  }

  function TupleKey6(sa: Ip6, da: Ip6, sp: u16, dp: u16, proto: u8): HashBytes {
    KeyFrom([0, 0, proto, 0] + sa + da + Be16(sp) + Be16(dp))
  }

  function QinQKey(svlan: u16, cvlan: u16): HashBytes {
    KeyFrom([0, 0] + Be16(svlan) + [0, 0] + Be16(cvlan))
  }

  function Parse5Tuple(lx: Lex, ts: seq<string>, v4: bool): Option<(Match, nat)> {
    if |ts| < 8 then None
    else match (lx.u16(ts[5]), lx.u16(ts[6]), lx.u8(ts[7]))
      case (Some(sp), Some(dp), Some(proto)) =>
        if v4 then
          (match (lx.ip4(ts[3]), lx.ip4(ts[4]))
           case (Some(sa), Some(da)) => Some((MHash(TupleKey4(sa, da, sp, dp, proto)), 8))
           case _ => None)
        else
          (match (lx.ip6(ts[3]), lx.ip6(ts[4]))
           case (Some(sa), Some(da)) => Some((MHash(TupleKey6(sa, da, sp, dp, proto)), 8))
           case _ => None)
      case _ => None
  }

  function ParseHash(lx: Lex, ts: seq<string>): Option<(Match, nat)> {
    if |ts| < 3 then None
    else if ts[2] == "raw" then
      if |ts| < 4 then None
      else (match lx.hex(ts[3])
            case None => None
            case Some(key) => Some((MHash(KeyFrom(if |key| <= MATCH_SIZE_MAX then key else key[..MATCH_SIZE_MAX])), 4)))
    else if ts[2] == "ipv4_5tuple" then Parse5Tuple(lx, ts, true)
    else if ts[2] == "ipv6_5tuple" then Parse5Tuple(lx, ts, false)
    else if ts[2] == "ipv4_addr" then
      if |ts| < 4 then None
      else (match lx.ip4(ts[3]) case None => None case Some(a) => Some((MHash(KeyFrom(Be32(a))), 4)))
    else if ts[2] == "ipv6_addr" then
      if |ts| < 4 then None
      else (match lx.ip6(ts[3]) case None => None case Some(a) => Some((MHash(KeyFrom(a)), 4)))
    else if ts[2] == "qinq" then
      if |ts| < 5 then None
      else (match (lx.u16(ts[3]), lx.u16(ts[4]))
            case (Some(svlan), Some(cvlan)) =>
              if svlan > 0xFFF || cvlan > 0xFFF then None
              else Some((MHash(QinQKey(svlan, cvlan)), 5))
            case _ => None)
    else None
  }

  function ParseLpmAddr(lx: Lex, t: string, v4: bool): Option<LpmAddr> {
    if v4 then (match lx.ip4(t) case None => None case Some(a) => Some(LpmV4(a)))
    else (match lx.ip6(t) case None => None case Some(a) => Some(LpmV6(a)))
  }

  function ParseLpm(lx: Lex, ts: seq<string>): Option<(Match, nat)> {
    if |ts| < 5 || (ts[2] != "ipv4" && ts[2] != "ipv6") then None
    else match (ParseLpmAddr(lx, ts[3], ts[2] == "ipv4"), lx.u8(ts[4]))
      case (Some(a), Some(depth)) => Some((MLpm(a, depth), 5))
      case _ => None
  }

  /** `parse_match`. */
  function ParseMatch(lx: Lex, ts: seq<string>): Option<(Match, nat)> {
    if |ts| < 2 || ts[0] != "match" then None
    else if ts[1] == "acl" then ParseAcl(lx, ts)
    else if ts[1] == "array" then
      if |ts| < 3 then None
      else (match lx.u32(ts[2]) case None => None case Some(pos) => Some((MArray(pos), 3)))
    else if ts[1] == "hash" then ParseHash(lx, ts)
    else if ts[1] == "lpm" then ParseLpm(lx, ts)
    else None
  }

  // ---- Sections of an action ----

  function Keyword(s: Section): string {
    match s
    case SFwd => "fwd"
    case SLb => "balance"
    case SMtr => "meter"
    case STm => "tm"
    case SEncap => "encap"
    case SNat => "nat"
    case STtl => "ttl"
    case SStats => "stats"
    case STime => "time"
    case STag => "tag"
    case SDecap => "decap"
  }

  function ParseFwd(lx: Lex, ts: seq<string>): Option<(Fwd, nat)> {
    if |ts| < 2 || ts[0] != "fwd" then None
    else if ts[1] == "drop" then Some((Drop, 2))
    else if ts[1] == "port" || ts[1] == "table" then
      if |ts| < 3 then None
      else (match lx.u32(ts[2])
            case None => None
            case Some(id) => Some((if ts[1] == "port" then Port(id) else ToTable(id), 3)))
    else if ts[1] == "meta" then Some((PortMeta, 2))
    else None
  }

  /** The first `n` tokens as 32-bit numbers. */
  function ReadAll(lx: Lex, ts: seq<string>, n: nat): (r: Option<seq<u32>>)
    requires n <= |ts|
    ensures r.Some? ==> |r.value| == n
  {
    if n == 0 then Some([])
    else match (ReadAll(lx, ts, n - 1), lx.u32(ts[n - 1]))
      case (Some(xs), Some(x)) => Some(xs + [x])
      case _ => None
  }

  function ParseLb(lx: Lex, ts: seq<string>): Option<(LbTable, nat)> {
    if |ts| < 1 + LB_TABLE_SIZE || ts[0] != "balance" then None
    else match ReadAll(lx, ts[1..], LB_TABLE_SIZE)
      case None => None
      case Some(out) => Some((out, 1 + LB_TABLE_SIZE))
  }

  /** The loop of `parse_table_action_balance`. */
  method ParseBalance(lx: Lex, ts: seq<string>) returns (r: Option<(LbTable, nat)>)
    ensures r == ParseLb(lx, ts)
  {
    if ts == [] || ts[0] != "balance" {
      return None;
    }
    var tokens := ts[1..];
    if |tokens| < LB_TABLE_SIZE {
      return None;
    }
    var out: seq<u32> := [];
    for i := 0 to LB_TABLE_SIZE
      invariant ReadAll(lx, tokens, i) == Some(out)
    {
      var x := lx.u32(tokens[i]);
      if x.None? {
        ReadAllFails(lx, tokens, i, LB_TABLE_SIZE);
        return None;
      }
      out := out + [x.value];
    }
    return Some((out, 1 + LB_TABLE_SIZE));
  }

  lemma {:induction false} ReadAllFails(lx: Lex, ts: seq<string>, i: nat, n: nat)
    requires i < n <= |ts| && lx.u32(ts[i]).None?
    ensures ReadAll(lx, ts, n).None?
  {
    if i < n - 1 { ReadAllFails(lx, ts, i, n - 1); }
  }

  function ParsePolicer(t: string): Option<Policer> {
    if t == "g" then Some(Green)
    else if t == "y" then Some(Yellow)
    else if t == "r" then Some(Red)
    else if t == "drop" then Some(PolicerDrop)
    else None
  }

  /** `tc<k>` and the nine tokens of its meter. */
  function ParseMtrTc(lx: Lex, ts: seq<string>, tc: string): Option<MtrTc> {
    if || |ts| < 10 || ts[0] != tc || ts[1] != "meter" || ts[3] != "policer"
       || ts[4] != "g" || ts[6] != "y" || ts[8] != "r"
    then None
    else match (lx.u32(ts[2]), ParsePolicer(ts[5]), ParsePolicer(ts[7]), ParsePolicer(ts[9]))
      case (Some(id), Some(g), Some(y), Some(r)) => Some(MtrTc(id, g, y, r))
      case _ => None
  }

  function ParseMtr(lx: Lex, ts: seq<string>): Option<(Mtr, nat)> {
    if ts == [] || ts[0] != "meter" then None
    else match ParseMtrTc(lx, ts[1..], "tc0")
      case None => None
      case Some(tc0) =>
        if |ts| == 11 || ts[11] != "tc1" then Some((Mtr([tc0, ZERO_TC, ZERO_TC, ZERO_TC], 1), 11))
        else if |ts| < 41 then None
        else match (ParseMtrTc(lx, ts[11..], "tc1"), ParseMtrTc(lx, ts[21..], "tc2"), ParseMtrTc(lx, ts[31..], "tc3"))
          case (Some(tc1), Some(tc2), Some(tc3)) => Some((Mtr([tc0, tc1, tc2, tc3], 0xF), 41))
          case _ => None
  }

  function ParseTm(lx: Lex, ts: seq<string>): Option<(Tm, nat)> {
    if |ts| < 5 || ts[0] != "tm" || ts[1] != "subport" || ts[3] != "pipe" then None
    else match (lx.u32(ts[2]), lx.u32(ts[4]))
      case (Some(subport), Some(pipe)) => Some((Tm(subport, pipe), 5))
      case _ => None
  }

  function ParseTag1Q(lx: Lex, ts: seq<string>, i: nat): Option<Tag1Q>
    requires i + 3 <= |ts|
  {
    match (lx.u32(ts[i]), lx.u32(ts[i + 1]), lx.u32(ts[i + 2]))
    case (Some(pcp), Some(dei), Some(vid)) =>
      if pcp > 7 || dei > 1 || vid > 0xFFF then None else Some(Tag1Q(pcp, dei, vid))
    case _ => None
  }

  /** The three numbers after a `label<k>`. */
  function ParseMpls(lx: Lex, ts: seq<string>, i: nat): Option<Mpls>
    requires i + 3 <= |ts|
  {
    match (lx.u32(ts[i]), lx.u32(ts[i + 1]), lx.u32(ts[i + 2]))
    case (Some(label_), Some(tc), Some(ttl)) =>
      if label_ > 0xFFFFF || tc > 7 || ttl > 0x3F then None else Some(Mpls(label_, tc, ttl))
    case _ => None
  }

  function LabelWord(k: nat): string
    requires k < 4
  {
    "label" + [Digit(k)]
  }

  /** Labels `k`, `k + 1`, ... as long as their keywords follow, at most four in all. */
  function ParseLabels(lx: Lex, ts: seq<string>, k: nat): (r: Option<seq<Mpls>>)
    ensures r.Some? ==> 4 * |r.value| <= |ts|
    ensures r.Some? && k <= 4 ==> |r.value| + k <= 4
    decreases |ts|
  {
    if k >= 4 || ts == [] || ts[0] != LabelWord(k) then Some([])
    else if |ts| < 4 then None
    else match ParseMpls(lx, ts, 1)
      case None => None
      case Some(l) =>
        match ParseLabels(lx, ts[4..], k + 1)
        case None => None
        case Some(rest) => Some([l] + rest)
  }

  function ParseMacs(lx: Lex, ts: seq<string>, i: nat): Option<(Mac, Mac)>
    requires i + 2 <= |ts|
  {
    match (lx.mac(ts[i]), lx.mac(ts[i + 1]))
    case (Some(da), Some(sa)) => Some((da, sa))
    case _ => None
  }

  /** `mpls unicast | multicast <da> <sa> label0`. */
  function ParseMplsHead(lx: Lex, ts: seq<string>): Option<(bool, Mac, Mac)>
    requires |ts| >= 6
  {
    if (ts[2] != "unicast" && ts[2] != "multicast") || ts[5] != LabelWord(0) then None
    else match ParseMacs(lx, ts, 3)
      case None => None
      case Some(macs) => Some((ts[2] == "unicast", macs.0, macs.1))
  }

  function ParseMplsEncap(lx: Lex, ts: seq<string>): Option<(Encap, nat)> {
    if |ts| < 9 then None
    else match ParseMplsHead(lx, ts)
      case None => None
      case Some(h) =>
        match ParseLabels(lx, ts[5..], 0)
        case None => None
        case Some(labels) => Some((MplsHdr(h.0, h.1, h.2, labels), 5 + 4 * |labels|))
  }

  function ParseEncap(lx: Lex, ts: seq<string>): Option<(Encap, nat)> {
    if |ts| < 2 || ts[0] != "encap" then None
    else if ts[1] == "ether" then
      if |ts| < 4 then None
      else (match ParseMacs(lx, ts, 2) case None => None case Some(macs) => Some((Ether(macs.0, macs.1), 4)))
    else if ts[1] == "vlan" then
      if |ts| < 7 then None
      else (match (ParseMacs(lx, ts, 2), ParseTag1Q(lx, ts, 4))
            case (Some(macs), Some(vlan)) => Some((Vlan(macs.0, macs.1, vlan), 7))
            case _ => None)
    else if ts[1] == "qinq" then
      if |ts| < 10 then None
      else (match (ParseMacs(lx, ts, 2), ParseTag1Q(lx, ts, 4), ParseTag1Q(lx, ts, 7))
            case (Some(macs), Some(sv), Some(cv)) => Some((QinQ(macs.0, macs.1, sv, cv), 10))
            case _ => None)
    else if ts[1] == "qinq_pppoe" then
      if |ts| < 11 then None
      else (match (ParseMacs(lx, ts, 2), ParseTag1Q(lx, ts, 4), ParseTag1Q(lx, ts, 7), lx.u16(ts[10]))
            case (Some(macs), Some(sv), Some(cv), Some(id)) => Some((QinQPppoe(macs.0, macs.1, sv, cv, id), 11))
            case _ => None)
    else if ts[1] == "mpls" then ParseMplsEncap(lx, ts)
    else if ts[1] == "pppoe" then
      if |ts| < 5 then None
      else (match (ParseMacs(lx, ts, 2), lx.u16(ts[4]))
            case (Some(macs), Some(id)) => Some((Pppoe(macs.0, macs.1, id), 5))
            case _ => None)
    else None
  }

  function ParseNat(lx: Lex, ts: seq<string>): Option<(Nat, nat)> {
    if |ts| < 4 || ts[0] != "nat" then None
    else match lx.u16(ts[3])
      case None => None
      case Some(port) =>
        if ts[1] == "ipv4" then (match lx.ip4(ts[2]) case None => None case Some(a) => Some((Nat4(a, port), 4)))
        else if ts[1] == "ipv6" then
          (match lx.ip6(ts[2]) case None => None case Some(a) => Some((Nat6(a, port), 4)))
        else None
  }

  /** One section parser: the action with the section filled in and its mask bit set. */
  function ParseSection(lx: Lex, tsc: nat, s: Section, ts: seq<string>, a: Action): Option<(Action, nat)> {
    var m := a.mask + {s};
    match s
    case SFwd => (match ParseFwd(lx, ts) case None => None case Some((x, n)) => Some((a.(fwd := x, mask := m), n)))
    case SLb => (match ParseLb(lx, ts) case None => None case Some((x, n)) => Some((a.(lb := x, mask := m), n)))
    case SMtr => (match ParseMtr(lx, ts) case None => None case Some((x, n)) => Some((a.(mtr := x, mask := m), n)))
    case STm => (match ParseTm(lx, ts) case None => None case Some((x, n)) => Some((a.(tm := x, mask := m), n)))
    case SEncap =>
      (match ParseEncap(lx, ts) case None => None case Some((x, n)) => Some((a.(encap := x, mask := m), n)))
    case SNat => (match ParseNat(lx, ts) case None => None case Some((x, n)) => Some((a.(nat_ := x, mask := m), n)))
    case STtl =>
      if |ts| < 2 || ts[0] != "ttl" || (ts[1] != "dec" && ts[1] != "keep") then None
      else Some((a.(decTtl := ts[1] == "dec", mask := m), 2))
    case SStats => if |ts| < 1 || ts[0] != "stats" then None else Some((a.(mask := m), 1))
    case STime => if |ts| < 1 || ts[0] != "time" then None else Some((a.(time := tsc, mask := m), 1))
    case STag =>
      if |ts| < 2 || ts[0] != "tag" then None
      else (match lx.u32(ts[1]) case None => None case Some(x) => Some((a.(tag := x, mask := m), 2)))
    case SDecap =>
      if |ts| < 2 || ts[0] != "decap" then None
      else (match lx.u16(ts[1]) case None => None case Some(x) => Some((a.(decap := x, mask := m), 2)))
  }

  type Reader = (Section, seq<string>, Action) -> Option<(Action, nat)>

  function SectionReader(lx: Lex, tsc: nat): Reader {
    (s, ts, a) => ParseSection(lx, tsc, s, ts, a)
  }

  /** The chain of `if` statements of `parse_table_action`, one section after the other. */
  function ParseSections(rd: Reader, secs: seq<Section>, ts: seq<string>, a: Action): Option<(Action, nat)>
    decreases |secs|, |ts|
  {
    if secs == [] then Some((a, 0))
    else if ts == [] || ts[0] != Keyword(secs[0]) then ParseSections(rd, secs[1..], ts, a)
    else match rd(secs[0], ts, a)
      case None => None
      case Some((a1, n)) =>
        if n > |ts| then None
        else match ParseSections(rd, secs[1..], ts[n..], a1)
          case None => None
          case Some((a2, k)) => Some((a2, n + k))
  }

  /** A result that is reached after `k` more tokens. */
  function After(k: nat, r: Option<(Action, nat)>): Option<(Action, nat)> {
    match r
    case None => None
    case Some((a, n)) => Some((a, k + n))
  }

  /** The section parser takes the words `sw`, or fails at them. */
  lemma {:induction false} TakeStep(rd: Reader, secs: seq<Section>, sw: seq<string>, rest: seq<string>, acc: Action,
                                    ok: bool, a1: Action)
    requires secs != [] && sw != [] && sw[0] == Keyword(secs[0])
    requires rd(secs[0], sw + rest, acc) == if ok then Some((a1, |sw|)) else None
    ensures ParseSections(rd, secs, sw + rest, acc) ==
            if ok then After(|sw|, ParseSections(rd, secs[1..], rest, a1)) else None
  {
    var ts := sw + rest;
    assert ts[0] == sw[0] && ts[|sw|..] == rest;
  }

  lemma {:induction false} SkipStep(rd: Reader, secs: seq<Section>, ts: seq<string>, acc: Action)
    requires secs != [] && (ts == [] || ts[0] != Keyword(secs[0]))
    ensures ParseSections(rd, secs, ts, acc) == ParseSections(rd, secs[1..], ts, acc)
  {
  }

  /** `parse_table_action`, for any section parser and any order of the sections. */
  function ParseActionBy(rd: Reader, secs: seq<Section>, ts: seq<string>): Option<(Action, nat)> {
    if |ts| < 2 || ts[0] != "action" then None
    else match ParseSections(rd, secs, ts[1..], ZERO_ACTION)
      case None => None
      case Some((a, k)) => if k == 0 then None else Some((a, 1 + k))
  }

  /** `parse_table_action`. */
  function ParseTableAction(lx: Lex, tsc: nat, ts: seq<string>): Option<(Action, nat)> {
    ParseActionBy(SectionReader(lx, tsc), SECTIONS, ts)
  }

  // ---- What a section parser uses ----

  /** A successful section parser uses at least one token and no more than there are. */
  lemma SectionUses(lx: Lex, tsc: nat, s: Section, ts: seq<string>, a: Action)
    ensures var r := ParseSection(lx, tsc, s, ts, a);
            r.Some? ==> 1 <= r.value.1 <= |ts| && ts[0] == Keyword(s) && r.value.0.mask == a.mask + {s}
  {
  }

  /** The same first `k` tokens, and the same token or the same end after them. */
  ghost predicate SamePrefix(ts: seq<string>, us: seq<string>, k: nat) {
    && k <= |ts| && k <= |us| && ts[..k] == us[..k]
    && (|ts| == k <==> |us| == k) && (k < |ts| ==> ts[k] == us[k])
  }

  lemma {:induction false} ReadAllLocal(lx: Lex, ts: seq<string>, us: seq<string>, n: nat)
    requires n <= |ts| && n <= |us| && forall i :: 0 <= i < n ==> ts[i] == us[i]
    ensures ReadAll(lx, ts, n) == ReadAll(lx, us, n)
  {
    if n > 0 { ReadAllLocal(lx, ts, us, n - 1); }
  }

  lemma SamePrefixAt(ts: seq<string>, us: seq<string>, k: nat, i: nat)
    requires SamePrefix(ts, us, k) && i < k
    ensures ts[i] == us[i]
  {
    assert ts[..k][i] == us[..k][i];
  }

  lemma {:induction false} LabelsLocal(lx: Lex, ts: seq<string>, us: seq<string>, k: nat)
    requires ParseLabels(lx, ts, k).Some? && SamePrefix(ts, us, 4 * |ParseLabels(lx, ts, k).value|)
    ensures ParseLabels(lx, us, k) == ParseLabels(lx, ts, k)
    decreases |ts|
  {
    var n := |ParseLabels(lx, ts, k).value|;
    if n > 0 {
      SamePrefixAt(ts, us, 4 * n, 0);
      SamePrefixAt(ts, us, 4 * n, 1);
      SamePrefixAt(ts, us, 4 * n, 2);
      SamePrefixAt(ts, us, 4 * n, 3);
      assert ParseMpls(lx, us, 1) == ParseMpls(lx, ts, 1);
      SamePrefixDrop(ts, us, 4 * n, 4);
      LabelsLocal(lx, ts[4..], us[4..], k + 1);
    }
  }

  lemma SamePrefixDrop(ts: seq<string>, us: seq<string>, k: nat, n: nat)
    requires SamePrefix(ts, us, k) && n <= k
    ensures SamePrefix(ts[n..], us[n..], k - n)
  {
    assert ts[n..][..k - n] == ts[..k][n..];
    assert us[n..][..k - n] == us[..k][n..];
  }

  lemma {:induction false} FirstLabelIsRead(lx: Lex, ts: seq<string>)
    requires ts != [] && ts[0] == LabelWord(0) && ParseLabels(lx, ts, 0).Some?
    ensures ParseLabels(lx, ts, 0).value != []
  {
  }

  lemma MplsHeadLocal(lx: Lex, ts: seq<string>, us: seq<string>)
    requires |ts| >= 6 && |us| >= 6 && ts[2] == us[2] && ts[3] == us[3] && ts[4] == us[4] && ts[5] == us[5]
    ensures ParseMplsHead(lx, us) == ParseMplsHead(lx, ts)
    ensures ParseMplsHead(lx, ts).Some? ==> ts[5] == LabelWord(0)
  {
  }

  lemma MplsLocal(lx: Lex, ts: seq<string>, us: seq<string>)
    requires ParseMplsEncap(lx, ts).Some? && SamePrefix(ts, us, ParseMplsEncap(lx, ts).value.1)
    ensures ParseMplsEncap(lx, us) == ParseMplsEncap(lx, ts) && ParseMplsEncap(lx, ts).value.1 >= 9
  {
    var k := ParseMplsEncap(lx, ts).value.1;
    MplsHeadLocal(lx, ts, ts);
    FirstLabelIsRead(lx, ts[5..]);
    SamePrefixAt(ts, us, k, 2);
    SamePrefixAt(ts, us, k, 3);
    SamePrefixAt(ts, us, k, 4);
    SamePrefixAt(ts, us, k, 5);
    MplsHeadLocal(lx, ts, us);
    SamePrefixDrop(ts, us, k, 5);
    LabelsLocal(lx, ts[5..], us[5..], 0);
  }

  lemma MtrTcLocal(lx: Lex, ts: seq<string>, us: seq<string>, tc: string)
    requires |ts| >= 10 && |us| >= 10 && forall i :: 0 <= i < 10 ==> ts[i] == us[i]
    ensures ParseMtrTc(lx, ts, tc) == ParseMtrTc(lx, us, tc)
  {
  }

  lemma MtrLocal(lx: Lex, ts: seq<string>, us: seq<string>)
    requires ParseMtr(lx, ts).Some? && SamePrefix(ts, us, ParseMtr(lx, ts).value.1)
    ensures ParseMtr(lx, us) == ParseMtr(lx, ts)
  {
    var k := ParseMtr(lx, ts).value.1;
    assert forall i :: 0 <= i < k ==> ts[i] == ts[..k][i] && us[i] == us[..k][i];
    MtrTcLocal(lx, ts[1..], us[1..], "tc0");
    if k == 41 {
      MtrTcLocal(lx, ts[11..], us[11..], "tc1");
      MtrTcLocal(lx, ts[21..], us[21..], "tc2");
      MtrTcLocal(lx, ts[31..], us[31..], "tc3");
    }
  }

  lemma EncapLocal(lx: Lex, ts: seq<string>, us: seq<string>)
    requires ParseEncap(lx, ts).Some? && SamePrefix(ts, us, ParseEncap(lx, ts).value.1)
    ensures ParseEncap(lx, us) == ParseEncap(lx, ts)
  {
    var k := ParseEncap(lx, ts).value.1;
    if ts[1] == "mpls" {
      MplsLocal(lx, ts, us);
      assert ts[..k][0] == us[..k][0] && ts[..k][1] == us[..k][1];
    } else {
      assert k >= 4;
      assert forall i :: 0 <= i < k ==> ts[i] == ts[..k][i] && us[i] == us[..k][i];
    }
  }

  lemma SectionLocal(lx: Lex, tsc: nat, s: Section, ts: seq<string>, us: seq<string>, a: Action)
    requires var r := ParseSection(lx, tsc, s, ts, a); r.Some? && SamePrefix(ts, us, r.value.1)
    ensures ParseSection(lx, tsc, s, us, a) == ParseSection(lx, tsc, s, ts, a)
  {
    var k := ParseSection(lx, tsc, s, ts, a).value.1;
    SectionUses(lx, tsc, s, ts, a);
    if s == SMtr {
      MtrLocal(lx, ts, us);
    } else if s == SEncap {
      EncapLocal(lx, ts, us);
    } else {
      assert forall i :: 0 <= i < k ==> ts[i] == ts[..k][i] && us[i] == us[..k][i];
      if s == SLb { ReadAllLocal(lx, ts[1..], us[1..], LB_TABLE_SIZE); }
    }
  }

  /** What the proofs about the chain need of a section parser. */
  ghost predicate GoodReader(rd: Reader) {
    && (forall s, ts, a :: rd(s, ts, a).Some? ==>
          1 <= rd(s, ts, a).value.1 <= |ts| && ts[0] == Keyword(s) && rd(s, ts, a).value.0.mask == a.mask + {s})
    && (forall s, ts, us, a :: rd(s, ts, a).Some? && SamePrefix(ts, us, rd(s, ts, a).value.1) ==>
          rd(s, us, a) == rd(s, ts, a))
  }

  lemma SectionReaderIsGood(lx: Lex, tsc: nat)
    ensures GoodReader(SectionReader(lx, tsc))
  {
    var rd := SectionReader(lx, tsc);
    forall s, ts, a | rd(s, ts, a).Some?
      ensures 1 <= rd(s, ts, a).value.1 <= |ts| && ts[0] == Keyword(s) && rd(s, ts, a).value.0.mask == a.mask + {s}
    {
      SectionUses(lx, tsc, s, ts, a);
    }
    forall s, ts, us, a | rd(s, ts, a).Some? && SamePrefix(ts, us, rd(s, ts, a).value.1)
      ensures rd(s, us, a) == rd(s, ts, a)
    {
      SectionLocal(lx, tsc, s, ts, us, a);
    }
  }

  lemma {:induction false} SectionsUse(rd: Reader, secs: seq<Section>, ts: seq<string>, a: Action)
    ensures var r := ParseSections(rd, secs, ts, a); r.Some? ==> r.value.1 <= |ts|
    decreases |secs|
  {
    if secs != [] {
      if ts == [] || ts[0] != Keyword(secs[0]) {
        SectionsUse(rd, secs[1..], ts, a);
      } else {
        var r := rd(secs[0], ts, a);
        if r.Some? && r.value.1 <= |ts| { SectionsUse(rd, secs[1..], ts[r.value.1..], r.value.0); }
      }
    }
  }

  lemma SamePrefixOfShorter(ts: seq<string>, us: seq<string>, k: nat, n: nat)
    requires SamePrefix(ts, us, k) && n <= k
    ensures SamePrefix(ts, us, n)
  {
    assert ts[..n] == ts[..k][..n] && us[..n] == us[..k][..n];
    if n < k { assert ts[..k][n] == us[..k][n]; }
  }

  lemma {:induction false} SectionsLocal(rd: Reader, secs: seq<Section>, ts: seq<string>, us: seq<string>, a: Action)
    requires GoodReader(rd)
    requires var r := ParseSections(rd, secs, ts, a); r.Some? && SamePrefix(ts, us, r.value.1)
    ensures ParseSections(rd, secs, us, a) == ParseSections(rd, secs, ts, a)
    decreases |secs|
  {
    if secs != [] {
      var k := ParseSections(rd, secs, ts, a).value.1;
      SamePrefixOfShorter(ts, us, k, 0);
      if ts == [] || ts[0] != Keyword(secs[0]) {
        SectionsLocal(rd, secs[1..], ts, us, a);
      } else {
        var (a1, n) := rd(secs[0], ts, a).value;
        SamePrefixOfShorter(ts, us, k, n);
        SamePrefixDrop(ts, us, k, n);
        SectionsLocal(rd, secs[1..], ts[n..], us[n..], a1);
      }
    }
  }

  lemma ActionByIsLocal(rd: Reader, secs: seq<Section>, ts: seq<string>, us: seq<string>)
    requires GoodReader(rd) && ParseActionBy(rd, secs, ts).Some?
    ensures 1 < ParseActionBy(rd, secs, ts).value.1 <= |ts|
    ensures SamePrefix(ts, us, ParseActionBy(rd, secs, ts).value.1) ==>
            ParseActionBy(rd, secs, us) == ParseActionBy(rd, secs, ts)
  {
    var k := ParseActionBy(rd, secs, ts).value.1;
    SectionsUse(rd, secs, ts[1..], ZERO_ACTION);
    if SamePrefix(ts, us, k) {
      SamePrefixAt(ts, us, k, 0);
      SamePrefixDrop(ts, us, k, 1);
      SectionsLocal(rd, secs, ts[1..], us[1..], ZERO_ACTION);
    }
  }

  /**
   * On success `parse_table_action` uses more than one token and no more than there are, and its
   * result depends on nothing but those tokens and the one that follows them.
   */
  lemma ActionIsLocal(lx: Lex, tsc: nat, ts: seq<string>, us: seq<string>)
    requires ParseTableAction(lx, tsc, ts).Some?
    ensures 1 < ParseTableAction(lx, tsc, ts).value.1 <= |ts|
    ensures SamePrefix(ts, us, ParseTableAction(lx, tsc, ts).value.1) ==>
              ParseTableAction(lx, tsc, us) == ParseTableAction(lx, tsc, ts)
  {
    SectionReaderIsGood(lx, tsc);
    ActionByIsLocal(SectionReader(lx, tsc), SECTIONS, ts, us);
  }

  // ---- The mask ----

  /** The sections that are read, with the positions of their keywords. */
  function Trace(rd: Reader, secs: seq<Section>, ts: seq<string>, a: Action, at: nat): seq<(Section, nat)>
    decreases |secs|, |ts|
  {
    if secs == [] then []
    else if ts == [] || ts[0] != Keyword(secs[0]) then Trace(rd, secs[1..], ts, a, at)
    else match rd(secs[0], ts, a)
      case None => []
      case Some((a1, n)) =>
        if n > |ts| then [] else [(secs[0], at)] + Trace(rd, secs[1..], ts[n..], a1, at + n)
  }

  function TraceSet(tr: seq<(Section, nat)>): set<Section> {
    if tr == [] then {} else {tr[0].0} + TraceSet(tr[1..])
  }

  /** Sections in the order of `secs`, positions strictly increasing, each at its keyword. */
  ghost predicate InOrder(tr: seq<(Section, nat)>, secs: seq<Section>, all: seq<string>, from: nat)
    decreases |secs|, |tr|
  {
    if tr == [] then true
    else if secs == [] then false
    else if tr[0].0 == secs[0] then
      from <= tr[0].1 < |all| && all[tr[0].1] == Keyword(secs[0]) && InOrder(tr[1..], secs[1..], all, tr[0].1 + 1)
    else InOrder(tr, secs[1..], all, from)
  }

  lemma {:induction false} InOrderLater(tr: seq<(Section, nat)>, secs: seq<Section>, all: seq<string>, from: nat,
                                        from': nat)
    requires InOrder(tr, secs, all, from) && from' <= from
    ensures InOrder(tr, secs, all, from')
    decreases |secs|
  {
    if tr != [] && secs != [] && tr[0].0 != secs[0] { InOrderLater(tr, secs[1..], all, from, from'); }
  }

  lemma {:induction false} TraceStartsIn(rd: Reader, secs: seq<Section>, ts: seq<string>, a: Action, at: nat)
    ensures var tr := Trace(rd, secs, ts, a, at); tr != [] ==> tr[0].0 in secs
    decreases |secs|
  {
    if secs != [] {
      if ts == [] || ts[0] != Keyword(secs[0]) {
        TraceStartsIn(rd, secs[1..], ts, a, at);
      }
    }
  }

  /** One more section at the front of a trace. */
  lemma InOrderCons(tr: seq<(Section, nat)>, secs: seq<Section>, all: seq<string>, at: nat, n: nat)
    requires secs != [] && n > 0 && at < |all| && all[at] == Keyword(secs[0]) && InOrder(tr, secs[1..], all, at + n)
    ensures InOrder([(secs[0], at)] + tr, secs, all, at)
    ensures TraceSet([(secs[0], at)] + tr) == {secs[0]} + TraceSet(tr)
  {
    InOrderLater(tr, secs[1..], all, at + n, at + 1);
    assert ([(secs[0], at)] + tr)[1..] == tr;
  }

  /** What `MaskIsTrace` says, of one chain. */
  ghost predicate Traced(rd: Reader, secs: seq<Section>, ts: seq<string>, a: Action, all: seq<string>, at: nat) {
    var (tr, p) := (Trace(rd, secs, ts, a, at), ParseSections(rd, secs, ts, a));
    p.Some? ==> p.value.0.mask == a.mask + TraceSet(tr) && InOrder(tr, secs, all, at) && (tr == [] <==> p.value.1 == 0)
  }

  lemma TracedSkip(rd: Reader, secs: seq<Section>, ts: seq<string>, a: Action, all: seq<string>, at: nat)
    requires secs != [] && DistinctSections(secs) && (ts == [] || ts[0] != Keyword(secs[0]))
    requires Traced(rd, secs[1..], ts, a, all, at)
    ensures Traced(rd, secs, ts, a, all, at)
  {
    TraceStartsIn(rd, secs[1..], ts, a, at);
    assert secs[0] !in secs[1..];
  }

  lemma TracedTake(rd: Reader, secs: seq<Section>, ts: seq<string>, a: Action, all: seq<string>, at: nat, a1: Action,
                   n: nat)
    requires secs != [] && ts != [] && ts[0] == Keyword(secs[0]) && rd(secs[0], ts, a) == Some((a1, n)) &&
             1 <= n <= |ts|
    requires at < |all| && all[at] == ts[0] && a1.mask == a.mask + {secs[0]}
    requires Traced(rd, secs[1..], ts[n..], a1, all, at + n)
    ensures Traced(rd, secs, ts, a, all, at)
  {
    if ParseSections(rd, secs[1..], ts[n..], a1).Some? {
      InOrderCons(Trace(rd, secs[1..], ts[n..], a1, at + n), secs, all, at, n);
    }
  }

  lemma {:induction false} MaskIsTrace(rd: Reader, secs: seq<Section>, ts: seq<string>, a: Action, all: seq<string>,
                                       at: nat)
    requires GoodReader(rd) && at <= |all| && all[at..] == ts && DistinctSections(secs)
    ensures Traced(rd, secs, ts, a, all, at)
    decreases |secs|
  {
    if secs != [] {
      if ts == [] || ts[0] != Keyword(secs[0]) {
        MaskIsTrace(rd, secs[1..], ts, a, all, at);
        TracedSkip(rd, secs, ts, a, all, at);
      } else if rd(secs[0], ts, a).Some? {
        var (a1, n) := rd(secs[0], ts, a).value;
        assert all[at + n..] == ts[n..] && all[at] == ts[0];
        MaskIsTrace(rd, secs[1..], ts[n..], a1, all, at + n);
        TracedTake(rd, secs, ts, a, all, at, a1, n);
      }
    }
  }

  ghost predicate DistinctSections(secs: seq<Section>) {
    forall i, j :: 0 <= i < j < |secs| ==> secs[i] != secs[j]
  }

  lemma {:induction false} ActionByMask(rd: Reader, secs: seq<Section>, ts: seq<string>)
    requires GoodReader(rd) && DistinctSections(secs) && ParseActionBy(rd, secs, ts).Some?
    ensures var tr := Trace(rd, secs, ts[1..], ZERO_ACTION, 1);
            ParseActionBy(rd, secs, ts).value.0.mask == TraceSet(tr) && tr != [] && InOrder(tr, secs, ts, 1)
  {
    MaskIsTrace(rd, secs, ts[1..], ZERO_ACTION, ts, 1);
  }

  lemma SectionsAreDistinct()
    ensures DistinctSections(SECTIONS)
  {
  }

  /** `ts` with the sections in an order that a caller may choose freely among distinct ones. */
  lemma {:induction false} ActionMaskBy(lx: Lex, tsc: nat, ts: seq<string>, secs: seq<Section>)
    requires DistinctSections(secs) && ParseActionBy(SectionReader(lx, tsc), secs, ts).Some?
    ensures var tr := Trace(SectionReader(lx, tsc), secs, ts[1..], ZERO_ACTION, 1);
            && ParseActionBy(SectionReader(lx, tsc), secs, ts).value.0.mask == TraceSet(tr) && tr != []
            && InOrder(tr, secs, ts, 1)
  {
    SectionReaderIsGood(lx, tsc);
    ActionByMask(SectionReader(lx, tsc), secs, ts);
  }

  /** What `parse_table_action` reads, and that it stands in the fixed order. */
  function ActionTrace(lx: Lex, tsc: nat, ts: seq<string>): seq<(Section, nat)>
    requires ts != []
  {
    Trace(SectionReader(lx, tsc), SECTIONS, ts[1..], ZERO_ACTION, 1)
  }

  ghost predicate InFixedOrder(tr: seq<(Section, nat)>, ts: seq<string>) { InOrder(tr, SECTIONS, ts, 1) }

  /**
   * On success the mask holds exactly the sections that were read; they stand in the fixed order,
   * each at its keyword, and there is at least one.
   */
  lemma ActionMaskIsWhatWasRead(lx: Lex, tsc: nat, ts: seq<string>)
    requires ParseTableAction(lx, tsc, ts).Some?
    ensures ParseTableAction(lx, tsc, ts).value.0.mask == TraceSet(ActionTrace(lx, tsc, ts))
    ensures ActionTrace(lx, tsc, ts) != [] && InFixedOrder(ActionTrace(lx, tsc, ts), ts)
  {
    SectionsAreDistinct();
    ActionMaskBy(lx, tsc, ts, SECTIONS);
  }
}
