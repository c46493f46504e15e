/**
 * Conversion of a rule match to the form that the low-level tables take
 * (processing/dpdk_pipeline/thread.c:2303-2656), what an IPv6 prefix becomes in it, and which
 * matches a table cannot tell apart afterwards.
 */
module MatchConvert {
  import opened Prelude
  import opened Rules

  // ---- Prefixes ----

  function Pow2(n: nat): (p: nat)
    ensures p > 0
  {
    if n == 0 then 1 else 2 * Pow2(n - 1)
  }

  /** Do the top `depth` bits of two `width`-bit numbers agree? */
  predicate PrefixEq(width: nat, depth: nat, x: nat, y: nat)
    requires depth <= width
  {
    Shr(x, width - depth) == Shr(y, width - depth)
  }

  /** `x >> n`. */
  function Shr(x: nat, n: nat): nat
    decreases n
  {
    if n == 0 then x else Shr(x / 2, n - 1)
  }

  /** The number that a byte string spells, most significant byte first. */
  function BigEndian(s: seq<u8>): nat {
    if s == [] then 0 else BigEndian(s[..|s| - 1]) * 0x100 + (s[|s| - 1] as nat)
  }

  /** `rte_be_to_cpu_32` of the i-th 32-bit word of an address. */
  function Word(a: Ip6, i: nat): u32
    requires i < 4
  {
    var b0: nat, b1: nat, b2: nat, b3: nat := a[4 * i], a[4 * i + 1], a[4 * i + 2], a[4 * i + 3];
    b0 * 0x100_0000 + b1 * 0x1_0000 + b2 * 0x100 + b3
  }

  /** `match_convert_ipv6_depth`: one 128-bit depth as four 32-bit depths. */
  function Depth32(depth: nat): Option<seq<nat>> {
    if depth > 128 then None
    else match depth / 32
      case 0 => Some([depth, 0, 0, 0])
      case 1 => Some([32, depth - 32, 0, 0])
      case 2 => Some([32, 32, depth - 64, 0])
      case 3 => Some([32, 32, 32, depth - 96])
      case _ => Some([32, 32, 32, 32])
  }

  // ---- Low-level match ----

  datatype Field = Field(value: nat, range: nat)

  /** `union table_rule_match_low_level`. */
  datatype LowMatch =
    | AclAdd(priority: int, categoryMask: nat, addFields: seq<Field>)
    | AclDelete(delFields: seq<Field>)
    | ArrayKey(pos: nat)
    | HashKey(key: seq<u8>)
    | LpmKey4(ip: nat, depth: nat)
    | LpmKey6(ip6: seq<u8>, depth: nat)

  /** `(int32_t)` applied to a `uint32_t`. */
  function Int32(x: u32): int { if x < 0x8000_0000 then x else x - 0x1_0000_0000 }

  function Fields4(m: Match): seq<Field>
    requires m.MAcl? && m.addr.AclV4?
  {
    [Field(m.proto, m.protoMask), Field(m.addr.sa, m.saDepth), Field(m.addr.da, m.daDepth),
     Field(m.sp0, m.sp1), Field(m.dp0, m.dp1)]
  }

  function Fields6(m: Match, sd: seq<nat>, dd: seq<nat>): seq<Field>
    requires m.MAcl? && m.addr.AclV6? && |sd| == |dd| == 4
  {
    var s, d := m.addr.sa6, m.addr.da6;
    [Field(m.proto, m.protoMask),
     Field(Word(s, 0), sd[0]), Field(Word(s, 1), sd[1]), Field(Word(s, 2), sd[2]), Field(Word(s, 3), sd[3]),
     Field(Word(d, 0), dd[0]), Field(Word(d, 1), dd[1]), Field(Word(d, 2), dd[2]), Field(Word(d, 3), dd[3]),
     Field(m.sp0, m.sp1), Field(m.dp0, m.dp1)]
  }

  /** `match_convert`; `add` selects the parameters of an add or of a delete. */
  function Convert(m: Match, add: bool): Option<LowMatch> {
    match m
    case MAcl(AclV4(_, _), _, _, _, _, _, _, _, _, priority) =>
      Some(if add then AclAdd(Int32(priority), 1, Fields4(m)) else AclDelete(Fields4(m)))
    case MAcl(AclV6(_, _), saDepth, daDepth, _, _, _, _, _, _, priority) =>
      var sd, dd := Depth32(saDepth), Depth32(daDepth);
      if sd.None? || dd.None? then None
      else
        var fields := Fields6(m, sd.value, dd.value);
        Some(if add then AclAdd(Int32(priority), 1, fields) else AclDelete(fields))
    case MArray(pos) => Some(ArrayKey(pos))
    case MHash(key) => Some(HashKey(key))
    case MLpm(LpmV4(ip), depth) => Some(LpmKey4(ip, depth))
    case MLpm(LpmV6(ip6), depth) => Some(LpmKey6(ip6, depth))
  }

  /**
   * What identifies an entry inside a table: an ACL table finds a rule by its fields alone, an LPM
   * table keeps one entry per prefix, a hash table compares the masked first bytes of the key, as many
   * as its mask has.
   */
  datatype Key =
    | KAcl(fields: seq<Field>)
    | KArray(pos: nat)
    | KHash(masked: seq<nat>)
    | KLpm(v6: bool, prefix: nat, depth: nat)

  function PrefixBits(width: nat, depth: nat, x: nat): nat {
    if depth <= width then Shr(x, width - depth) else x
  }

  /** Bitwise `x & y`. */
  function BitAnd(x: nat, y: nat): nat {
    if x == 0 then 0 else (x % 2) * (y % 2) + 2 * BitAnd(x / 2, y / 2)
  }

  /** A bit is set in the result exactly when it is set in both numbers. */
  lemma {:induction false} BitAndBits(x: nat, y: nat, i: nat)
    ensures Shr(BitAnd(x, y), i) % 2 == 1 <==> Shr(x, i) % 2 == 1 && Shr(y, i) % 2 == 1
    decreases i
  {
    if x == 0 {
      ShrOfZero(i);
    } else if i > 0 {
      BitAndHalf(x, y);
      BitAndBits(x / 2, y / 2, i - 1);
    }
  }

  lemma {:induction false} BitAndHalf(x: nat, y: nat)
    requires x > 0
    ensures BitAnd(x, y) / 2 == BitAnd(x / 2, y / 2)
  {
    var b := (x % 2) * (y % 2);
    assert b < 2 by { if x % 2 == 0 { assert b == 0; } else { assert b == y % 2; } }
  }

  lemma {:induction false} ShrOfZero(n: nat)
    ensures Shr(0, n) == 0
  {
    if n > 0 { ShrOfZero(n - 1); }
  }

  function Masked(key: seq<u8>, mask: seq<u8>): (r: seq<nat>)
    ensures |r| == if |key| <= |mask| then |key| else |mask|
    ensures forall i :: 0 <= i < |r| ==> r[i] == BitAnd(key[i], mask[i])
  {
    if key == [] || mask == [] then [] else [BitAnd(key[0], mask[0])] + Masked(key[1..], mask[1..])
  }

  function MaskOf(p: MatchParams): seq<u8> { if p.PHash? then p.keyMask else [] }

  /** The key of a converted match in a table with parameters `p`. */
  function TableKey(p: MatchParams, low: LowMatch): Key {
    match low
    case AclAdd(_, _, fields) => KAcl(fields)
    case AclDelete(fields) => KAcl(fields)
    case ArrayKey(pos) => KArray(pos)
    case HashKey(key) => KHash(Masked(key, MaskOf(p)))
    case LpmKey4(ip, depth) => KLpm(false, PrefixBits(32, depth, ip), depth)
    case LpmKey6(ip6, depth) => KLpm(true, PrefixBits(128, depth, BigEndian(ip6)), depth)
  }

  function KeyOf(p: MatchParams, m: Match): Option<Key> {
    match Convert(m, true)
    case None => None
    case Some(low) => Some(TableKey(p, low))
  }

  /** The key of every match in one table. */
  function KeyIn(p: MatchParams): Match -> Option<Key> { m => KeyOf(p, m) }

  // ---- An IPv6 prefix split into four fields keeps its meaning ----

  lemma Pow2Add(a: nat, b: nat)
    ensures Pow2(a + b) == Pow2(a) * Pow2(b)
  {
    if a > 0 { Pow2Add(a - 1, b); }
  }

  lemma Pow2Values()
    ensures Pow2(8) == 0x100 && Pow2(32) == 0x1_0000_0000
    ensures Pow2(64) == 0x1_0000_0000_0000_0000
    ensures Pow2(96) == 0x1_0000_0000_0000_0000_0000_0000
  {
    Pow2Add(4, 4); Pow2Add(8, 8); Pow2Add(16, 16); Pow2Add(32, 32); Pow2Add(64, 32);
  }

  lemma MulMono(a: nat, b: nat, c: nat)
    requires a <= b
    ensures a * c <= b * c
  {
  }

  lemma MulStep(a: nat, b: nat, c: nat)
    requires a < b
    ensures a * c + c <= b * c
  {
    MulMono(a + 1, b, c);
  }

  lemma MulAssoc(a: nat, b: nat, c: nat)
    ensures (a * b) * c == a * (b * c)
  {
  }

  lemma {:induction false} ShrBounds(x: nat, n: nat)
    ensures Shr(x, n) * Pow2(n) <= x < Shr(x, n) * Pow2(n) + Pow2(n)
    decreases n
  {
    if n > 0 {
      ShrBounds(x / 2, n - 1);
      MulAssoc(Shr(x, n), 2, Pow2(n - 1));
      assert Shr(x, n) * 2 == 2 * Shr(x, n);
      MulAssoc(2, Shr(x, n), Pow2(n - 1));
    }
  }

  /** A shift is the only quotient with a remainder in range. */
  lemma {:induction false} ShrIs(x: nat, n: nat, q: nat)
    requires q * Pow2(n) <= x < q * Pow2(n) + Pow2(n)
    ensures Shr(x, n) == q
  {
    var p, q' := Pow2(n), Shr(x, n);
    ShrBounds(x, n);
    if q' > q { MulStep(q, q', p); }
    if q' < q { MulStep(q', q, p); }
  }

  lemma {:induction false} BigEndianSnoc(s: seq<u8>, b: u8)
    ensures BigEndian(s + [b]) == BigEndian(s) * 0x100 + (b as nat)
  {
    assert (s + [b])[..|s + [b]| - 1] == s;
  }

  lemma {:induction false} BigEndianAppend4(s: seq<u8>, b0: u8, b1: u8, b2: u8, b3: u8)
    ensures var w: nat, x: nat, y: nat, z: nat := b0, b1, b2, b3;
            BigEndian(s + [b0, b1, b2, b3]) ==
            BigEndian(s) * 0x1_0000_0000 + (w * 0x100_0000 + x * 0x1_0000 + y * 0x100 + z)
  {
    BigEndianSnoc(s, b0);
    BigEndianSnoc(s + [b0], b1);
    BigEndianSnoc(s + [b0] + [b1], b2);
    BigEndianSnoc(s + [b0] + [b1] + [b2], b3);
    assert s + [b0, b1, b2, b3] == s + [b0] + [b1] + [b2] + [b3];
  }

  lemma {:induction false} BigEndianWords(a: Ip6)
    ensures BigEndian(a) == Push32(Push32(Push32(Word(a, 0), Word(a, 1)), Word(a, 2)), Word(a, 3))
  {
    Pow2Values();
    assert a[..4] == [] + [a[0], a[1], a[2], a[3]];
    assert a[..8] == a[..4] + [a[4], a[5], a[6], a[7]];
    assert a[..12] == a[..8] + [a[8], a[9], a[10], a[11]];
    assert a == a[..12] + [a[12], a[13], a[14], a[15]];
    BigEndianAppend4([], a[0], a[1], a[2], a[3]);
    BigEndianAppend4(a[..4], a[4], a[5], a[6], a[7]);
    BigEndianAppend4(a[..8], a[8], a[9], a[10], a[11]);
    BigEndianAppend4(a[..12], a[12], a[13], a[14], a[15]);
  }

  lemma ScaleBounds(hi: nat, lo: nat, q: nat, pn: nat, pk: nat)
    requires q * pk <= hi < q * pk + pk && lo < pn
    ensures q * (pn * pk) <= hi * pn + lo < q * (pn * pk) + pn * pk
  {
    var t := q * pk;
    MulMono(t, hi, pn);
    MulMono(hi + 1, t + pk, pn);
    assert (hi + 1) * pn == hi * pn + pn;
    assert (t + pk) * pn == t * pn + pk * pn;
    calc { t * pn; { MulAssoc(q, pk, pn); } q * (pk * pn); { assert pk * pn == pn * pk; } q * (pn * pk); }
  }

  /** Shifting a number `hi:lo` (lo has `n` bits) right by more than `n` forgets `lo`. */
  lemma ShiftPast(hi: nat, lo: nat, n: nat, k: nat)
    requires lo < Pow2(n)
    ensures Shr(hi * Pow2(n) + lo, n + k) == Shr(hi, k)
  {
    Pow2Add(n, k);
    ShrBounds(hi, k);
    ScaleBounds(hi, lo, Shr(hi, k), Pow2(n), Pow2(k));
    ShrIs(hi * Pow2(n) + lo, n + k, Shr(hi, k));
  }

  lemma PlaceBounds(h: nat, l: nat, q: nat, pm: nat, pk: nat)
    requires q * pk <= l < q * pk + pk && l < pm * pk
    ensures (h * pm + q) * pk <= h * (pm * pk) + l < (h * pm + q) * pk + pk
    ensures q < pm
  {
    MulAssoc(h, pm, pk);
    var t := h * pm;
    assert (t + q) * pk == t * pk + q * pk;
    if q >= pm { MulMono(pm, q, pk); }
  }

  lemma ShiftIntoLow(h: nat, l: nat, n: nat, k: nat)
    requires l < Pow2(n) && k <= n
    ensures Shr(h * Pow2(n) + l, k) == h * Pow2(n - k) + Shr(l, k)
    ensures Shr(l, k) < Pow2(n - k)
  {
    var (pm, pk, q) := (Pow2(n - k), Pow2(k), Shr(l, k));
    Pow2Add(n - k, k);
    ShrBounds(l, k);
    PlaceBounds(h, l, q, pm, pk);
    ShrIs(h * (pm * pk) + l, k, h * pm + q);
  }

  /** Equal `hi:lo` pairs are equal part by part. */
  lemma PairUnique(h: nat, l: nat, h': nat, l': nat, p: nat)
    requires l < p && l' < p && h * p + l == h' * p + l'
    ensures h == h' && l == l'
  {
    if h > h' { MulStep(h', h, p); }
    if h < h' { MulStep(h, h', p); }
  }

  /** A prefix that ends inside the low word is the high part exactly and a prefix of the low word. */
  lemma PrefixIntoLow(hx: nat, lx: nat, hy: nat, ly: nat, n: nat, k: nat)
    requires lx < Pow2(n) && ly < Pow2(n) && k <= n
    ensures Shr(hx * Pow2(n) + lx, k) == Shr(hy * Pow2(n) + ly, k)
            <==> hx == hy && Shr(lx, k) == Shr(ly, k)
  {
    ShiftIntoLow(hx, lx, n, k);
    ShiftIntoLow(hy, ly, n, k);
    if Shr(hx * Pow2(n) + lx, k) == Shr(hy * Pow2(n) + ly, k) {
      PairUnique(hx, Shr(lx, k), hy, Shr(ly, k), Pow2(n - k));
    }
  }

  /** The test that a 32-bit masked ACL field makes on a word of the packet. */
  predicate FieldHolds(f: Field, w: u32) {
    f.range <= 32 && PrefixEq(32, f.range, w, f.value)
  }

  /** With no shift a prefix is the whole number, with a full shift it is nothing. */
  lemma {:induction false} ShrEnds(x: nat, n: nat)
    requires x < Pow2(n)
    ensures Shr(x, 0) == x && Shr(x, n) == 0
  {
    ShrIs(x, 0, x);
    ShrIs(x, n, 0);
  }

  /** The four words of an address under the split depth, written out. */
  predicate WordsHold(a: Ip6, r: Ip6, d: seq<nat>)
    requires |d| == 4
  {
    && FieldHolds(Field(Word(r, 0), d[0]), Word(a, 0))
    && FieldHolds(Field(Word(r, 1), d[1]), Word(a, 1))
    && FieldHolds(Field(Word(r, 2), d[2]), Word(a, 2))
    && FieldHolds(Field(Word(r, 3), d[3]), Word(a, 3))
  }

  /** `hi` then one 32-bit word. */
  function Push32(hi: nat, w: u32): nat { hi * Pow2(32) + w }

  /** How much of a shift by `k` falls into the lowest word, and how much is left above it. */
  function Cut(k: nat): nat { if k <= 32 then k else 32 }
  function Above(k: nat): nat { if k <= 32 then 0 else k - 32 }

  lemma {:induction false} U32Fits(w: u32)
    ensures w < Pow2(32) && Shr(w, 32) == 0
  {
    Pow2Values();
    ShrEnds(w, 32);
  }

  lemma {:induction false} Push32Prefix(h: nat, w: u32, h': nat, w': u32, k: nat)
    ensures Shr(Push32(h, w), k) == Shr(Push32(h', w'), k) <==>
            Shr(h, Above(k)) == Shr(h', Above(k)) && Shr(w, Cut(k)) == Shr(w', Cut(k))
  {
    U32Fits(w);
    U32Fits(w');
    SplitAt(h, w, h', w', 32, k);
  }

  lemma SplitAt(h: nat, w: nat, h': nat, w': nat, n: nat, k: nat)
    requires w < Pow2(n) && w' < Pow2(n)
    ensures k <= n ==> (Shr(h * Pow2(n) + w, k) == Shr(h' * Pow2(n) + w', k) <==> h == h' && Shr(w, k) == Shr(w', k))
    ensures n < k ==> Shr(h * Pow2(n) + w, k) == Shr(h, k - n) && Shr(h' * Pow2(n) + w', k) == Shr(h', k - n)
  {
    if k <= n {
      PrefixIntoLow(h, w, h', w', n, k);
    } else {
      ShiftPast(h, w, n, k - n);
      ShiftPast(h', w', n, k - n);
    }
  }

  /** The split depths are the parts of the shift that fall into each word. */
  lemma DepthIsCut(depth: nat)
    requires depth <= 128
    ensures var d, k := Depth32(depth).value, 128 - depth;
            && 32 - d[3] == Cut(k) && 32 - d[2] == Cut(Above(k))
            && 32 - d[1] == Cut(Above(Above(k))) && 32 - d[0] == Above(Above(Above(k)))
  {
  }

  /** A 128-bit prefix test is the four 32-bit tests under the split depth. */
  lemma {:induction false} PrefixSplit(a: Ip6, r: Ip6, depth: nat)
    requires depth <= 128
    ensures PrefixEq(128, depth, BigEndian(a), BigEndian(r)) <==> WordsHold(a, r, Depth32(depth).value)
  {
    BigEndianWords(a);
    BigEndianWords(r);
    WordsAreShifts(a, r, depth);
    FourWordsPrefix(Word(a, 0), Word(a, 1), Word(a, 2), Word(a, 3), Word(r, 0), Word(r, 1), Word(r, 2), Word(r, 3),
                    128 - depth);
  }

  /** Two numbers of four words agree behind a shift iff each word does behind its part of the shift. */
  lemma {:induction false} FourWordsPrefix(a0: u32, a1: u32, a2: u32, a3: u32,
                                           r0: u32, r1: u32, r2: u32, r3: u32, k: nat)
    ensures Shr(Push32(Push32(Push32(a0, a1), a2), a3), k) == Shr(Push32(Push32(Push32(r0, r1), r2), r3), k) <==>
            && Shr(a0, Above(Above(Above(k)))) == Shr(r0, Above(Above(Above(k))))
            && Shr(a1, Cut(Above(Above(k)))) == Shr(r1, Cut(Above(Above(k))))
            && Shr(a2, Cut(Above(k))) == Shr(r2, Cut(Above(k))) && Shr(a3, Cut(k)) == Shr(r3, Cut(k))
  {
    Push32Prefix(Push32(Push32(a0, a1), a2), a3, Push32(Push32(r0, r1), r2), r3, k);
    Push32Prefix(Push32(a0, a1), a2, Push32(r0, r1), r2, Above(k));
    Push32Prefix(a0, a1, r0, r1, Above(Above(k)));
  }

  /** The four tests under the split depth as shifts. */
  lemma WordsAreShifts(a: Ip6, r: Ip6, depth: nat)
    requires depth <= 128
    ensures var k := 128 - depth;
            WordsHold(a, r, Depth32(depth).value) <==>
            && Shr(Word(a, 0), Above(Above(Above(k)))) == Shr(Word(r, 0), Above(Above(Above(k))))
            && Shr(Word(a, 1), Cut(Above(Above(k)))) == Shr(Word(r, 1), Cut(Above(Above(k))))
            && Shr(Word(a, 2), Cut(Above(k))) == Shr(Word(r, 2), Cut(Above(k)))
            && Shr(Word(a, 3), Cut(k)) == Shr(Word(r, 3), Cut(k))
  {
    DepthIsCut(depth);
  }

  /** All masked address fields of a converted IPv6 ACL rule, source words before destination words. */
  predicate AddressFieldsHold(f: seq<Field>, sa: Ip6, da: Ip6)
    requires |f| == 11
  {
    && FieldHolds(f[1], Word(sa, 0)) && FieldHolds(f[2], Word(sa, 1))
    && FieldHolds(f[3], Word(sa, 2)) && FieldHolds(f[4], Word(sa, 3))
    && FieldHolds(f[5], Word(da, 0)) && FieldHolds(f[6], Word(da, 1))
    && FieldHolds(f[7], Word(da, 2)) && FieldHolds(f[8], Word(da, 3))
  }

  lemma AddressFieldsAreWords(m: Match, sd: seq<nat>, dd: seq<nat>, sa: Ip6, da: Ip6)
    requires m.MAcl? && m.addr.AclV6? && |sd| == |dd| == 4
    ensures AddressFieldsHold(Fields6(m, sd, dd), sa, da) <==>
            WordsHold(sa, m.addr.sa6, sd) && WordsHold(da, m.addr.da6, dd)
  {
  }

  /** The header fields that an ACL table looks at. */
  datatype Header =
    | Header4(proto: u8, sa: u32, da: u32, sp: u16, dp: u16)
    | Header6(proto: u8, sa6: Ip6, da6: Ip6, sp: u16, dp: u16)

  /** The test of a bitmask field: value, mask, byte of the packet. */
  type ByteTest = (nat, nat, u8) -> bool

  predicate PortHolds(f: Field, x: u16) { f.value <= x <= f.range }

  /** What a rule of the low-level table accepts: fields in the order of the table's field format. */
  predicate FieldsAccept(test: ByteTest, f: seq<Field>, h: Header) {
    match h
    case Header4(proto, sa, da, sp, dp) =>
      && |f| == 5 && test(f[0].value, f[0].range, proto) && FieldHolds(f[1], sa) && FieldHolds(f[2], da)
      && PortHolds(f[3], sp) && PortHolds(f[4], dp)
    case Header6(proto, sa, da, sp, dp) =>
      && |f| == 11 && test(f[0].value, f[0].range, proto) && AddressFieldsHold(f, sa, da)
      && PortHolds(f[9], sp) && PortHolds(f[10], dp)
  }

  /** What a rule means: the protocol, both prefixes, and both port ranges. */
  predicate RuleAccepts(test: ByteTest, m: Match, h: Header)
    requires m.MAcl? && DepthsOk(m)
  {
    && test(m.proto, m.protoMask, h.proto) && m.sp0 <= h.sp <= m.sp1 && m.dp0 <= h.dp <= m.dp1
    && match (m.addr, h)
       case (AclV4(sa, da), Header4(_, hsa, hda, _, _)) =>
         PrefixEq(32, m.saDepth, hsa, sa) && PrefixEq(32, m.daDepth, hda, da)
       case (AclV6(sa, da), Header6(_, hsa, hda, _, _)) =>
         && PrefixEq(128, m.saDepth, BigEndian(hsa), BigEndian(sa))
         && PrefixEq(128, m.daDepth, BigEndian(hda), BigEndian(da))
       case _ => false
  }

  function FieldsOf(low: LowMatch): seq<Field>
    requires low.AclAdd? || low.AclDelete?
  {
    if low.AclAdd? then low.addFields else low.delFields
  }

  /** The converted rule accepts exactly the packets that the rule means, for IPv4 and IPv6. */
  lemma {:induction false} AclConvertKeepsMeaning(test: ByteTest, m: Match, add: bool, h: Header)
    requires m.MAcl? && DepthsOk(m)
    ensures var low := Convert(m, add);
            && low.Some? && (if add then low.value.AclAdd? else low.value.AclDelete?)
            && (FieldsAccept(test, FieldsOf(low.value), h) <==> RuleAccepts(test, m, h))
  {
    if m.addr.AclV6? && h.Header6? {
      PrefixSplit(h.sa6, m.addr.sa6, m.saDepth);
      PrefixSplit(h.da6, m.addr.da6, m.daDepth);
      AddressFieldsAreWords(m, Depth32(m.saDepth).value, Depth32(m.daDepth).value, h.sa6, h.da6);
    }
  }

  /** The add form carries the rule's priority, read as a signed 32-bit number, and one category. */
  lemma AclAddCarriesPriority(m: Match)
    requires m.MAcl? && DepthsOk(m)
    ensures var low := Convert(m, true);
            && low.Some? && low.value.AclAdd? && low.value.categoryMask == 1
            && low.value.priority ==
               if m.priority < 2_147_483_648 then m.priority else m.priority - 4_294_967_296
  {
  }

  /** What a packet presents to a table that is not an access table: an index, a key, or an address. */
  datatype Probe = AtIndex(i: nat) | WithKey(k: HashBytes) | ToAddress4(a4: u32) | ToAddress6(a6: Ip6)

  predicate ConvertedAccepts(low: LowMatch, x: Probe) {
    match (low, x)
    case (ArrayKey(pos), AtIndex(i)) => i == pos
    case (HashKey(key), WithKey(k)) => k == key
    case (LpmKey4(ip, depth), ToAddress4(a)) => depth <= 32 && PrefixEq(32, depth, a, ip)
    case (LpmKey6(ip6, depth), ToAddress6(a)) => depth <= 128 && PrefixEq(128, depth, BigEndian(a), BigEndian(ip6))
    case _ => false
  }

  /** What an array, hash or LPM rule means. */
  predicate RuleSelects(m: Match, x: Probe)
    requires DepthsOk(m)
  {
    || (m.MArray? && x.AtIndex? && x.i == m.pos)
    || (m.MHash? && x.WithKey? && x.k == m.key)
    || (m.MLpm? && m.lpm.LpmV4? && x.ToAddress4? && Shr(x.a4, 32 - m.depth) == Shr(m.lpm.ip, 32 - m.depth))
    || (m.MLpm? && m.lpm.LpmV6? && x.ToAddress6?
        && Shr(BigEndian(x.a6), 128 - m.depth) == Shr(BigEndian(m.lpm.ip6), 128 - m.depth))
  }

  /** The converted array, hash or LPM rule selects what the rule means. */
  lemma ConvertKeepsSelection(m: Match, add: bool, x: Probe)
    requires DepthsOk(m) && !m.MAcl?
    ensures Convert(m, add).Some? && (ConvertedAccepts(Convert(m, add).value, x) <==> RuleSelects(m, x))
  {
  }

  // ---- Which matches a table cannot tell apart ----

  /** The checks of `match_check` that do not look at the table. */
  predicate DepthsOk(m: Match) {
    match m
    case MAcl(AclV4(_, _), saDepth, daDepth, _, _, _, _, _, _, _) => saDepth <= 32 && daDepth <= 32
    case MAcl(AclV6(_, _), saDepth, daDepth, _, _, _, _, _, _, _) => saDepth <= 128 && daDepth <= 128
    case MLpm(LpmV4(_), depth) => depth <= 32
    case MLpm(LpmV6(_), depth) => depth <= 128
    case _ => true
  }

  /** Two keys agree in every bit that the mask selects; bytes past the mask do not count. */
  predicate SameMaskedBytes(key: HashBytes, key': HashBytes, mask: seq<u8>) {
    forall i :: 0 <= i < |mask| && i < MATCH_SIZE_MAX ==> BitAnd(key[i], mask[i]) == BitAnd(key'[i], mask[i])
  }

  /**
   * Equal but for what the table does not look at: an ACL priority, the host bits of an LPM rule, the
   * bits of a hash key past the key size or outside the key mask.
   */
  predicate Alias(p: MatchParams, m: Match, m': Match) {
    match (m, m')
    case (MAcl(_, _, _, _, _, _, _, _, _, priority), MAcl(_, _, _, _, _, _, _, _, _, _)) =>
      m == m'.(priority := priority)
    case (MLpm(LpmV4(ip), d), MLpm(LpmV4(ip'), d')) =>
      d == d' && (d <= 32 ==> PrefixEq(32, d, ip, ip'))
    case (MLpm(LpmV6(ip), d), MLpm(LpmV6(ip'), d')) =>
      d == d' && (d <= 128 ==> PrefixEq(128, d, BigEndian(ip), BigEndian(ip')))
    case (MHash(key), MHash(key')) => p.PHash? ==> SameMaskedBytes(key, key', p.keyMask)
    case _ => m == m'
  }

  lemma WordsDetermineAddress(a: Ip6, b: Ip6)
    requires Word(a, 0) == Word(b, 0) && Word(a, 1) == Word(b, 1) && Word(a, 2) == Word(b, 2) &&
             Word(a, 3) == Word(b, 3)
    ensures a == b
  {
    WordDeterminesBytes(a, b, 0);
    WordDeterminesBytes(a, b, 1);
    WordDeterminesBytes(a, b, 2);
    WordDeterminesBytes(a, b, 3);
  }

  lemma WordDeterminesBytes(a: Ip6, b: Ip6, i: nat)
    requires i < 4 && Word(a, i) == Word(b, i)
    ensures a[4 * i] == b[4 * i] && a[4 * i + 1] == b[4 * i + 1] && a[4 * i + 2] == b[4 * i + 2] &&
            a[4 * i + 3] == b[4 * i + 3]
  {
  }

  lemma DepthFromSplit(d: nat, e: nat)
    requires d <= 128 && e <= 128 && Depth32(d) == Depth32(e)
    ensures d == e
  {
    var s, t := Depth32(d).value, Depth32(e).value;
    assert s[0] + s[1] + s[2] + s[3] == d && t[0] + t[1] + t[2] + t[3] == e;
  }

  lemma Fields6Determine(m: Match, m': Match)
    requires m.MAcl? && m'.MAcl? && m.addr.AclV6? && m'.addr.AclV6? && DepthsOk(m) && DepthsOk(m')
    requires Fields6(m, Depth32(m.saDepth).value, Depth32(m.daDepth).value)
          == Fields6(m', Depth32(m'.saDepth).value, Depth32(m'.daDepth).value)
    ensures m == m'.(priority := m.priority)
  {
    var sd, dd := Depth32(m.saDepth).value, Depth32(m.daDepth).value;
    var sd', dd' := Depth32(m'.saDepth).value, Depth32(m'.daDepth).value;
    var f, f' := Fields6(m, sd, dd), Fields6(m', sd', dd');
    assert f[0] == f'[0] && f[9] == f'[9] && f[10] == f'[10];
    assert f[1] == f'[1] && f[2] == f'[2] && f[3] == f'[3] && f[4] == f'[4];
    assert f[5] == f'[5] && f[6] == f'[6] && f[7] == f'[7] && f[8] == f'[8];
    WordsDetermineAddress(m.addr.sa6, m'.addr.sa6);
    WordsDetermineAddress(m.addr.da6, m'.addr.da6);
    assert sd == sd' && dd == dd';
    DepthFromSplit(m.saDepth, m'.saDepth);
    DepthFromSplit(m.daDepth, m'.daDepth);
  }

  lemma AclSameKey(p: MatchParams, m: Match, m': Match)
    requires m.MAcl? && m'.MAcl? && DepthsOk(m) && DepthsOk(m')
    ensures KeyOf(p, m).Some? && KeyOf(p, m').Some?
    ensures KeyOf(p, m) == KeyOf(p, m') ==> m == m'.(priority := m.priority)
  {
    if KeyOf(p, m) == KeyOf(p, m') {
      var f, f' := KeyOf(p, m).value.fields, KeyOf(p, m').value.fields;
      assert |f| == |f'| && f[0] == f'[0];
      if m.addr.AclV6? {
        Fields6Determine(m, m');
      } else {
        assert f[1] == f'[1] && f[2] == f'[2] && f[3] == f'[3] && f[4] == f'[4];
      }
    }
  }

  /** Two checked matches share a table entry exactly when they are aliases. */
  lemma SameKeyIffAlias(p: MatchParams, m: Match, m': Match)
    requires DepthsOk(m) && DepthsOk(m')
    ensures KeyOf(p, m).Some? && KeyOf(p, m').Some?
    ensures KeyOf(p, m) == KeyOf(p, m') <==> Alias(p, m, m')
  {
    if m.MAcl? && m'.MAcl? {
      AclSameKey(p, m, m');
      if Alias(p, m, m') { AclKeyIgnoresPriority(p, m', m.priority); }
    } else if m.MHash? && m'.MHash? {
      HashSameKeyIff(p, m, m');
    } else if !m.MAcl? && !m'.MAcl? {
      OtherSameKeyIff(p, m, m');
    } else {
      AclKeyIsAcl(p, if m.MAcl? then m else m');
    }
  }

  lemma HashSameKeyIff(p: MatchParams, m: Match, m': Match)
    requires m.MHash? && m'.MHash?
    ensures KeyOf(p, m) == KeyOf(p, m') <==> Alias(p, m, m')
  {
    var (k, k') := (Masked(m.key, MaskOf(p)), Masked(m'.key, MaskOf(p)));
    assert (forall i :: 0 <= i < |k| ==> k[i] == k'[i]) ==> k == k';
  }

  lemma OtherSameKeyIff(p: MatchParams, m: Match, m': Match)
    requires !m.MAcl? && !m'.MAcl? && !(m.MHash? && m'.MHash?) && DepthsOk(m) && DepthsOk(m')
    ensures KeyOf(p, m) == KeyOf(p, m') <==> Alias(p, m, m')
  {
  }

  lemma AclKeyIsAcl(p: MatchParams, m: Match)
    requires m.MAcl? && DepthsOk(m)
    ensures KeyOf(p, m).Some? && KeyOf(p, m).value.KAcl?
  {
  }

  lemma AclKeyIgnoresPriority(p: MatchParams, m: Match, priority: u32)
    requires m.MAcl?
    ensures KeyOf(p, m.(priority := priority)) == KeyOf(p, m)
  {
  }

  /** A delete looks for the entry that an add of the same match made, although it drops the priority. */
  lemma DeleteFindsWhatAddMade(p: MatchParams, m: Match)
    requires DepthsOk(m)
    ensures Convert(m, true).Some? && Convert(m, false).Some?
    ensures TableKey(p, Convert(m, false).value) == TableKey(p, Convert(m, true).value)
  {
  }
}
