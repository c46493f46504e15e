/**
 * What `table_rule_show` writes where (processing/dpdk_pipeline/cli.c:4826-5163), also for the parts that
 * no reader takes back.
 */
module ShownText {
  import opened Prelude
  import opened Rules
  import opened Lexer
  import opened RuleParser
  import opened RuleShow
  import opened RuleFile

  // ---- Matches ----

  /** An address and its depth, and the depth of the second address and the first port, run together. */
  lemma AclWordsAre(pr: Print, m: Match, ks: nat)
    requires m.MAcl? && ks <= MATCH_SIZE_MAX
    ensures var ws := MatchWords(pr, m, ks);
            && |ws| == 10 && ws[0] == "match" && ws[1] == "acl" && ws[2] == "priority"
            && ws[3] == pr.dec(m.priority) && ws[4] == (if m.addr.AclV4? then "ipv4" else "ipv6")
            && ws[6] == pr.dec(m.sp1) && ws[7] == pr.dec(m.dp0) && ws[8] == pr.dec(m.dp1) && ws[9] == pr.dec(m.proto)
            && ws[5] == (if m.addr.AclV4? then pr.ip4(m.addr.sa) else pr.ip6(m.addr.sa6)) + pr.dec(m.saDepth)
                        + (if m.addr.AclV4? then pr.ip4(m.addr.da) else pr.ip6(m.addr.da6)) + pr.dec(m.daDepth)
                        + pr.dec(m.sp0)
  {
  }

  lemma OtherMatchWordsAre(pr: Print, m: Match, ks: nat)
    requires !m.MAcl? && ks <= MATCH_SIZE_MAX
    ensures var ws := MatchWords(pr, m, ks);
            && |ws| >= 3 && ws[0] == "match"
            && (m.MArray? ==> |ws| == 3 && ws[1] == "array" && ws[2] == pr.dec(m.pos))
            && (m.MHash? ==> |ws| == 4 && ws[1] == "hash" && ws[2] == "raw" && ws[3] == pr.hex(m.key[..ks]))
            && (m.MLpm? ==>
                  && |ws| == 4 && ws[1] == "lpm" && ws[2] == (if m.lpm.LpmV4? then "ipv4" else "ipv6")
                  && ws[3] == (if m.lpm.LpmV4? then pr.ip4(m.lpm.ip) else pr.ip6(m.lpm.ip6)) + pr.dec(m.depth))
  {
  }

  /** Two different access rules can be shown as the same text: nothing separates a depth from what follows it. */
  lemma AclTextIsAmbiguous(pr: Print)
    requires pr == PrintOf()
    ensures var m := MAcl(AclV4(0, 0), 0, 1, 23, 0, 0, 0, 0, 0, 0);
            var m' := MAcl(AclV4(0, 0), 0, 12, 3, 0, 0, 0, 0, 0, 0);
            m != m' && MatchWords(pr, m, 8) == MatchWords(pr, m', 8)
  {
    assert Dec(1) == "1" && Dec(2) == "2" && Dec(3) == "3";
    assert Dec(12) == Dec(1) + "2" && Dec(23) == Dec(2) + "3";
    var a := pr.ip4(0) + pr.dec(0) + pr.ip4(0);
    RunTogether(a);
    assert a + pr.dec(1) + pr.dec(23) == a + pr.dec(12) + pr.dec(3);
  }

  lemma RunTogether(a: string)
    ensures a + "1" + "23" == a + "12" + "3"
  {
  }

  /** An IPv6 address is shown as groups of two bytes, each with a colon behind it. */
  lemma {:induction false} Ip6TextIs(bs: seq<u8>, i: nat)
    requires |bs| % 2 == 0 && 2 * i + 1 < |bs|
    ensures var s := Ip6String(bs);
            && |s| >= 5 * i + 5
            && s[5 * i..5 * i + 5] == Hex2(bs[2 * i]) + Hex2(bs[2 * i + 1]) + ":"
  {
    var (first, rest) := (Hex2(bs[0]) + Hex2(bs[1]) + ":", Ip6String(bs[2..]));
    if i > 0 {
      Ip6TextIs(bs[2..], i - 1);
      SliceBehind(first, rest, 5 * (i - 1));
    }
  }

  lemma SliceBehind(first: string, rest: string, k: nat)
    requires |first| == 5 && k + 5 <= |rest|
    ensures (first + rest)[k + 5..k + 10] == rest[k..k + 5]
  {
  }

  // ---- Sections ----

  /** The four bits of a mask of traffic classes. */
  lemma BitsOfMask(mask: nat)
    ensures mask % 16 == Bit(mask, 0) + 2 * Bit(mask, 1) + 4 * Bit(mask, 2) + 8 * Bit(mask, 3)
    ensures forall i :: 0 <= i < 4 ==> Bit(mask, i) <= 1
  {
    Halves(mask);
    var (h, q, e) := (mask / 2, mask / 4, mask / 8);
    assert mask == 2 * h + Bit(mask, 0) && h == 2 * q + Bit(mask, 1) && q == 2 * e + Bit(mask, 2);
    assert e == 2 * (e / 2) + Bit(mask, 3);
    Sixteen(mask, e / 2, Bit(mask, 0) + 2 * Bit(mask, 1) + 4 * Bit(mask, 2) + 8 * Bit(mask, 3));
  }

  lemma Halves(x: nat)
    ensures x / 4 == x / 2 / 2 && x / 8 == x / 4 / 2
  {
  }

  lemma Sixteen(x: nat, q: nat, r: nat)
    requires x == 16 * q + r && r < 16
    ensures x % 16 == r
  {
  }

  function Letter(p: Policer): char {
    match p case Green => 'G' case Yellow => 'Y' case Red => 'R' case PolicerDrop => 'D'
  }

  function ClassName(i: nat): string
    requires i < 4
  {
    match i case 0 => "tc0" case 1 => "tc1" case 2 => "tc2" case _ => "tc3"
  }

  /** The ten words of class `i` if its bit is set, none otherwise. */
  function ClassWords(pr: Print, m: Mtr, i: nat): seq<string>
    requires i < 4
  {
    var tc := m.tcs[i];
    if Bit(m.tcMask, i) == 0 then []
    else [ClassName(i), "meter", pr.dec(tc.profile), "policer", "g", [Letter(tc.g)], "y", [Letter(tc.y)],
          "r", [Letter(tc.r)]]
  }

  lemma {:induction false} FirstClass(pr: Print, m: Mtr, i: nat)
    requires i < 4
    ensures MtrWords(pr, m, i) == ClassWords(pr, m, i) + MtrWords(pr, m, i + 1)
  {
    assert "tc" + [Digit(i)] == ClassName(i);
    var tc := m.tcs[i];
    PolicerIs(tc.g);
    PolicerIs(tc.y);
    PolicerIs(tc.r);
  }

  lemma PolicerIs(p: Policer)
    ensures PolicerWord(p) == [Letter(p)]
  {
  }

  /** A meter shows the classes of its mask, in order, ten words each. */
  lemma {:induction false} MeterWordsAre(pr: Print, act: Action)
    ensures var m := act.mtr;
            SectionWords(pr, SMtr, act) ==
            ["mtr"] + (ClassWords(pr, m, 0) + (ClassWords(pr, m, 1) + (ClassWords(pr, m, 2) + ClassWords(pr, m, 3))))
  {
    var m := act.mtr;
    FirstClass(pr, m, 0);
    FirstClass(pr, m, 1);
    FirstClass(pr, m, 2);
    FirstClass(pr, m, 3);
    FourJoined(MtrWords(pr, m, 0), MtrWords(pr, m, 1), MtrWords(pr, m, 2), MtrWords(pr, m, 3),
               ClassWords(pr, m, 0), ClassWords(pr, m, 1), ClassWords(pr, m, 2), ClassWords(pr, m, 3));
  }

  lemma FourJoined(w0: seq<string>, w1: seq<string>, w2: seq<string>, w3: seq<string>,
                   c0: seq<string>, c1: seq<string>, c2: seq<string>, c3: seq<string>)
    requires w0 == c0 + w1 && w1 == c1 + w2 && w2 == c2 + w3 && w3 == c3 + []
    ensures w0 == c0 + (c1 + (c2 + c3))
  {
    assert c3 + [] == c3;
  }

  /** The sections that are one or two values. */
  lemma SmallWordsAre(pr: Print, act: Action)
    ensures SectionWords(pr, SFwd, act) ==
            match act.fwd
            case Drop => ["fwd", "drop"]
            case Port(id) => ["fwd", "port", pr.dec(id)]
            case PortMeta => ["fwd", "meta"]
            case ToTable(id) => ["fwd", "table", pr.dec(id)]
    ensures var ws := SectionWords(pr, SLb, act);
            |ws| == 9 && ws[0] == "balance" && forall i :: 0 <= i < 8 ==> ws[i + 1] == pr.dec(act.lb[i])
    ensures SectionWords(pr, STm, act) == ["tm", "subport", pr.dec(act.tm.subport), "pipe", pr.dec(act.tm.pipe)]
    ensures SectionWords(pr, SNat, act) ==
            ["nat"] + (if act.nat_.Nat4? then ["ipv4", pr.ip4(act.nat_.addr)] else ["ipv6", pr.ip6(act.nat_.addr6)])
            + [pr.dec(act.nat_.port)]
    ensures SectionWords(pr, STtl, act) == ["ttl", if act.decTtl then "dec" else "keep"]
    ensures SectionWords(pr, SStats, act) == ["stats"] && SectionWords(pr, STime, act) == ["time"]
    ensures SectionWords(pr, STag, act) == ["tag", pr.dec(act.tag)]
    ensures SectionWords(pr, SDecap, act) == ["decap", pr.dec(act.decap)]
  {
  }

  /** A VLAN tag with its field names, which the parser does not take. */
  ghost predicate TagAt(pr: Print, ws: seq<string>, at: nat, t: Tag1Q) {
    && at + 6 <= |ws| && ws[at] == "pcp" && ws[at + 1] == pr.dec(t.pcp) && ws[at + 2] == "dei"
    && ws[at + 3] == pr.dec(t.dei) && ws[at + 4] == "vid" && ws[at + 5] == pr.dec(t.vid)
  }

  function LabelName(i: nat): string
    requires i < 4
  {
    match i case 0 => "label0" case 1 => "label1" case 2 => "label2" case _ => "label3"
  }

  /** Label `i` with its three numbers. */
  ghost predicate LabelAt(pr: Print, ws: seq<string>, at: nat, l: Mpls, i: nat)
    requires i < 4
  {
    && at + 4 <= |ws| && ws[at] == LabelName(i)
    && ws[at + 1] == pr.dec(l.value) && ws[at + 2] == pr.dec(l.tc) && ws[at + 3] == pr.dec(l.ttl)
  }

  /** Labels `k`, `k + 1`, ... one after the other. */
  ghost predicate LabelsAt(pr: Print, ws: seq<string>, ls: seq<Mpls>, k: nat)
    requires k + |ls| <= 4
  {
    |ws| == 4 * |ls| && forall i :: 0 <= i < |ls| ==> LabelAt(pr, ws, 4 * i, ls[i], k + i)
  }

  lemma {:induction false} LabelsAreShown(pr: Print, ls: seq<Mpls>, k: nat)
    requires k + |ls| <= 4
    ensures LabelsAt(pr, LabelWords(pr, ls, k), ls, k)
    decreases |ls|
  {
    if ls != [] {
      LabelsAreShown(pr, ls[1..], k + 1);
      assert LabelWord(k) == LabelName(k);
      LabelsCons(pr, [LabelWord(k), pr.dec(ls[0].value), pr.dec(ls[0].tc), pr.dec(ls[0].ttl)],
                 LabelWords(pr, ls[1..], k + 1), ls, k);
    }
  }

  lemma LabelsCons(pr: Print, first: seq<string>, rest: seq<string>, ls: seq<Mpls>, k: nat)
    requires ls != [] && k + |ls| <= 4
    requires |first| == 4 && LabelAt(pr, first, 0, ls[0], k) && LabelsAt(pr, rest, ls[1..], k + 1)
    ensures LabelsAt(pr, first + rest, ls, k)
  {
    forall i | 0 <= i < |ls| ensures LabelAt(pr, first + rest, 4 * i, ls[i], k + i) {
      if i > 0 {
        assert LabelAt(pr, rest, 4 * (i - 1), ls[1..][i - 1], k + 1 + (i - 1));
        LabelBehind(pr, first, rest, 4 * (i - 1), ls[i], k + i);
      }
    }
  }

  lemma LabelBehind(pr: Print, first: seq<string>, rest: seq<string>, at: nat, l: Mpls, i: nat)
    requires i < 4 && |first| == 4 && LabelAt(pr, rest, at, l, i)
    ensures LabelAt(pr, first + rest, at + 4, l, i)
  {
  }

  lemma MplsWordsAre(pr: Print, act: Action)
    requires act.encap.MplsHdr?
    ensures var (ws, e) := (SectionWords(pr, SEncap, act), act.encap);
            && |ws| == 5 + 4 * |e.labels| && ws[0] == "encap" && ws[1] == "mpls"
            && ws[2] == (if e.unicast then "unicast" else "multicast")
            && ws[3] == pr.mac(e.da) && ws[4] == pr.mac(e.sa)
            && LabelsAt(pr, ws[5..], e.labels, 0)
  {
    LabelsAreShown(pr, act.encap.labels, 0);
    assert SectionWords(pr, SEncap, act)[5..] == LabelWords(pr, act.encap.labels, 0);
  }

  lemma EncapWordsAre(pr: Print, act: Action)
    ensures var ws := SectionWords(pr, SEncap, act);
            && |ws| >= 2 && ws[0] == "encap"
            && match act.encap
               case Vlan(da, sa, v) =>
                 |ws| == 10 && ws[1] == "vlan" && ws[2] == pr.mac(da) && ws[3] == pr.mac(sa) && TagAt(pr, ws, 4, v)
               case QinQ(da, sa, sv, cv) =>
                 && |ws| == 16 && ws[1] == "qinq" && ws[2] == pr.mac(da) && ws[3] == pr.mac(sa)
                 && TagAt(pr, ws, 4, sv) && TagAt(pr, ws, 10, cv)
               case QinQPppoe(_, _, _, _, _) => |ws| == 2 && ws[1] == "unknown"
               case Ether(da, sa) => |ws| == 4 && ws[1] == "ether" && ws[2] == pr.mac(da) && ws[3] == pr.mac(sa)
               case Pppoe(da, sa, id) =>
                 |ws| == 5 && ws[1] == "pppoe" && ws[2] == pr.mac(da) && ws[3] == pr.mac(sa) && ws[4] == pr.dec(id)
               case MplsHdr(_, _, _, _) => true
  {
  }

  /** A second space is written behind the word that selects the kind of `mpls` and of `nat`, and nowhere else. */
  lemma GapsAre(pr: Print, s: Section, act: Action)
    ensures var ws := SectionWords(pr, s, act);
            SectionText(pr, s, act) ==
            if s == SNat then Line(["nat", if act.nat_.Nat4? then "ipv4" else "ipv6"]) + " " + Line(ws[2..])
            else if s == SEncap && act.encap.MplsHdr? then
              Line(["encap", "mpls", if act.encap.unicast then "unicast" else "multicast"]) + " " + Line(ws[3..])
            else Line(ws)
  {
    var ws := SectionWords(pr, s, act);
    if s == SNat { assert ws[..2] == ["nat", if act.nat_.Nat4? then "ipv4" else "ipv6"]; }
    if s == SEncap && act.encap.MplsHdr? {
      assert ws[..3] == ["encap", "mpls", if act.encap.unicast then "unicast" else "multicast"];
    }
  }

  /** The comment at the end shows the forwarding of the default rule, `drop` without one. */
  lemma DefaultTextIs(pr: Print, act: Action)
    ensures DefaultText(pr, None) == "# match default action fwd drop "
    ensures DefaultText(pr, Some(act)) ==
            match act.fwd
            case Drop => "# match default action fwd drop "
            case Port(id) => "# match default action fwd port " + (pr.dec(id) + " ")
            case PortMeta => "# match default action fwd meta "
            case ToTable(id) => "# match default action fwd table " + (pr.dec(id) + " ")
  {
    TwoWords("drop");
    TwoWords("meta");
    match act.fwd
    case Port(id) => ThreeWords("port", pr.dec(id));
    case ToTable(id) => ThreeWords("table", pr.dec(id));
    case _ =>
  }

  lemma TwoWords(w: string)
    ensures "# match default action " + Line(["fwd", w]) == "# match default action fwd " + w + " "
  {
    assert Line([w]) == w + " " + Line([]);
    assert Line(["fwd", w]) == "fwd" + " " + Line([w]);
  }

  lemma ThreeWords(w: string, x: string)
    ensures "# match default action " + Line(["fwd", w, x]) == "# match default action fwd " + w + " " + (x + " ")
  {
    assert Line([x]) == x + " " + Line([]);
    assert Line([w, x]) == w + " " + Line([x]);
    assert Line(["fwd", w, x]) == "fwd" + " " + Line([w, x]);
  }
}
