/**
 * Lexical readers and printers of the command line (processing/dpdk_pipeline/parser.c:24-375,
 * parser.h:13-22, cli.c:4826-4858). A C string is the sequence of characters before its NUL.
 */
module Lexer {
  import opened Prelude
  import opened Rules

  // ---- Characters ----

  /** `isspace`; the same six characters are PARSE_DELIMITER. */
  predicate IsSpace(c: char) {
    c == ' ' || c == '\t' || c == '\n' || c == '\r' || c == '\U{000B}' || c == '\U{000C}'
  }

  predicate NotSpace(c: char) { !IsSpace(c) }

  predicate IsDigit(c: char) { '0' <= c <= '9' }

  predicate IsHexDigit(c: char) { IsDigit(c) || 'A' <= c <= 'F' || 'a' <= c <= 'f' }

  /** `get_hex_val`. */
  function HexVal(c: char): (v: nat)
    ensures v < 16
  {
    if IsDigit(c) then c as int - '0' as int
    else if 'A' <= c <= 'F' then c as int - 'A' as int + 10
    else if 'a' <= c <= 'f' then c as int - 'a' as int + 10
    else 0
  }

  /** Length of the longest prefix whose characters all satisfy `p`. */
  function Span(s: string, p: char -> bool): (n: nat)
    ensures n <= |s|
  {
    if s == [] || !p(s[0]) then 0 else 1 + Span(s[1..], p)
  }

  lemma {:induction false} SpanEnds(s: string, p: char -> bool)
    ensures forall i :: 0 <= i < Span(s, p) ==> p(s[i])
    ensures Span(s, p) < |s| ==> !p(s[Span(s, p)])
  {
    if s != [] && p(s[0]) {
      SpanEnds(s[1..], p);
      forall i | 0 <= i < Span(s, p) ensures p(s[i]) { assert i == 0 || s[i] == s[1..][i - 1]; }
    }
  }

  lemma {:induction false} SpanIs(s: string, p: char -> bool, n: nat)
    requires n <= |s| && (forall i :: 0 <= i < n ==> p(s[i])) && (n < |s| ==> !p(s[n]))
    ensures Span(s, p) == n
  {
    if n > 0 {
      assert p(s[0]);
      assert forall i :: 0 <= i < n - 1 ==> s[1..][i] == s[i + 1];
      SpanIs(s[1..], p, n - 1);
    }
  }

  /** `skip_white_spaces`. */
  function SkipSpace(s: string): string { s[Span(s, IsSpace)..] }

  // ---- Numbers ----

  /** Value of a digit string in a base, most significant digit first. */
  function Value(s: string, base: nat): nat {
    if s == [] then 0 else Value(s[..|s| - 1], base) * base + HexVal(s[|s| - 1])
  }

  /** What `strtoul` returns for a number: the largest `unsigned long` when it does not fit. */
  function Saturate(v: nat): u64 { if v <= UINT64_MAX then v else UINT64_MAX }

  /** The multiplier of a size suffix. */
  function SuffixFactor(c: char): nat {
    match c
    case 'T' => 0x100_0000_0000
    case 'G' => 0x4000_0000
    case 'M' => 0x10_0000
    case 'k' => 0x400
    case 'K' => 0x400
    case _ => 1
  }

  predicate IsSuffix(c: char) { c == 'T' || c == 'G' || c == 'M' || c == 'k' || c == 'K' }

  /** The optional suffix and what may follow it. */
  function Finish(v: u64, t: string): Option<u64> {
    if t != [] && IsSuffix(t[0]) then
      if SkipSpace(t[1..]) != [] then None else Some((v * SuffixFactor(t[0])) % U64_MOD)
    else if SkipSpace(t) != [] then None else Some(v)
  }

  /** `parser_read_uint64`. */
  function ReadU64(p: string): Option<u64> {
    var s := SkipSpace(p);
    if s == [] || !IsDigit(s[0]) then None
    else
      var n := Span(s, IsDigit);
      Finish(Saturate(Value(s[..n], 10)), s[n..])
  }

  /** `parser_read_uint32`, `_uint16` and `_uint8`. */
  function ReadMax(p: string, max: nat): Option<nat> {
    match ReadU64(p)
    case None => None
    case Some(v) => if v > max then None else Some(v)
  }

  function ReadU32(p: string): Option<u32> { ReadMax(p, 0xFFFF_FFFF) }
  function ReadU16(p: string): Option<u16> { ReadMax(p, 0xFFFF) }
  function ReadU8(p: string): Option<u8> { ReadMax(p, 0xFF) }

  /** `parser_read_uint64` as the C code runs it, character by character. */
  method ParserReadUint64(p: string) returns (r: Option<u64>)
    ensures r == ReadU64(p)
  {
    var first := SkipFrom(p, 0);
    assert p[0..] == p;
    if first == |p| || !IsDigit(p[first]) {
      return None;
    }
    var i, v := ReadDigits(p, first);
    assert p[first..][i - first..] == p[i..];
    r := FinishNumber(Saturate(v), p, i);
  }

  method FinishNumber(v: u64, p: string, i: nat) returns (r: Option<u64>)
    requires i <= |p|
    ensures r == Finish(v, p[i..])
  {
    var suffix := i < |p| && IsSuffix(p[i]);
    var j := SkipFrom(p, if suffix then i + 1 else i);
    assert suffix ==> p[i..][1..] == p[i + 1..];
    if j < |p| {
      return None;
    }
    return Some(if suffix then (v * SuffixFactor(p[i])) % U64_MOD else v);
  }

  /** The digits that `strtoul` consumes from position `first`, and their value. */
  method ReadDigits(p: string, first: nat) returns (i: nat, v: nat)
    requires first <= |p|
    ensures first <= i <= |p| && i - first == Span(p[first..], IsDigit)
    ensures v == Value(p[first..][..i - first], 10)
  {
    i, v := first, 0;
    while i < |p| && IsDigit(p[i])
      invariant first <= i <= |p|
      invariant forall k :: first <= k < i ==> IsDigit(p[k])
      invariant v == Value(p[first..i], 10)
    {
      DigitStep(p, first, i);
      v := v * 10 + HexVal(p[i]);
      i := i + 1;
    }
    SpanIs(p[first..], IsDigit, i - first);
    SliceOfSuffix(p, first, i);
  }

  /** One more digit. */
  lemma {:induction false} DigitStep(p: string, first: nat, i: nat)
    requires first <= i < |p|
    ensures Value(p[first..i + 1], 10) == Value(p[first..i], 10) * 10 + HexVal(p[i])
  {
    var (s, t) := (p[first..i + 1], p[first..i]);
    assert s == t + [p[i]];
    assert s[..|s| - 1] == t;
  }

  /** The loop of `skip_white_spaces`, from position `i`. */
  method SkipFrom(p: string, i: nat) returns (j: nat)
    requires i <= |p|
    ensures i <= j <= |p| && SkipSpace(p[i..]) == p[j..]
  {
    j := i;
    while j < |p| && IsSpace(p[j])
      invariant i <= j <= |p| && forall k :: i <= k < j ==> IsSpace(p[k])
    {
      j := j + 1;
    }
    SpanIs(p[i..], IsSpace, j - i);
    assert p[i..][j - i..] == p[j..];
  }

  function Digit(v: nat): char
    requires v < 16
  {
    "0123456789abcdef"[v]
  }

  /** `%x` prints the ten digits and then the lower-case letters. */
  lemma DigitIsLowerCase(v: nat)
    requires v < 16
    ensures Digit(v) as int == if v < 10 then '0' as int + v else 'a' as int + v - 10
  {
    var s := "0123456789abcdef";
    assert s[0] == '0' && s[1] == '1' && s[2] == '2' && s[3] == '3' && s[4] == '4' && s[5] == '5' && s[6] == '6';
    assert s[7] == '7' && s[8] == '8' && s[9] == '9' && s[10] == 'a' && s[11] == 'b' && s[12] == 'c';
    assert s[13] == 'd' && s[14] == 'e' && s[15] == 'f';
  }

  /** `%u`. */
  function Dec(n: nat): (s: string)
    ensures s != [] && forall i :: 0 <= i < |s| ==> IsDigit(s[i])
  {
    if n < 10 then [Digit(n)] else Dec(n / 10) + [Digit(n % 10)]
  }

  lemma DigitVal(v: nat)
    requires v < 16
    ensures HexVal(Digit(v)) == v && IsHexDigit(Digit(v)) && (v < 10 ==> IsDigit(Digit(v)))
    ensures !IsSpace(Digit(v)) && Digit(v) != ':' && Digit(v) != 'x' && Digit(v) != 'X'
  {
  }

  lemma {:induction false} ValueSnoc(s: string, c: char, base: nat)
    ensures Value(s + [c], base) == Value(s, base) * base + HexVal(c)
  {
    assert (s + [c])[..|s + [c]| - 1] == s;
  }

  lemma {:induction false} DecValue(n: nat)
    ensures Value(Dec(n), 10) == n
  {
    DigitVal(n % 10);
    if n < 10 {
      ValueSnoc([], Digit(n), 10);
      assert [] + [Digit(n)] == [Digit(n)];
    } else {
      DecValue(n / 10);
      ValueSnoc(Dec(n / 10), Digit(n % 10), 10);
    }
  }

  lemma SpaceFree(s: string)
    requires s == [] || !IsSpace(s[0])
    ensures SkipSpace(s) == s
  {
  }

  /** 1024 to the power of `j`. */
  function Kilo(j: nat): nat { if j == 0 then 1 else 1024 * Kilo(j - 1) }

  /** How many factors of 1024 the character after a number stands for. */
  function KilosOf(t: string): (j: nat)
    ensures j <= 4
  {
    if t == [] then 0
    else match t[0] case 'k' => 1 case 'K' => 1 case 'M' => 2 case 'G' => 3 case 'T' => 4 case _ => 0
  }

  lemma KiloValues()
    ensures Kilo(0) == 1 && Kilo(1) == 1024 && Kilo(2) == 1_048_576
    ensures Kilo(3) == 1_073_741_824 && Kilo(4) == 1_099_511_627_776
  {
    assert Kilo(1) == 1024 * Kilo(0) && Kilo(2) == 1024 * Kilo(1) && Kilo(3) == 1024 * Kilo(2);
  }

  ghost predicate Blank(s: string) {
    forall i :: 0 <= i < |s| ==>
                  s[i] == ' ' || s[i] == '\t' || s[i] == '\n' || s[i] == '\r'
                  || s[i] as int == 11 || s[i] as int == 12
  }

  lemma {:induction false} SkipsAllIffBlank(s: string)
    ensures SkipSpace(s) == [] <==> Blank(s)
  {
    SpanEnds(s, IsSpace);
  }

  lemma {:induction false} SkipsBlank(sp: string, s: string)
    requires Blank(sp) && (s == [] || !IsSpace(s[0]))
    ensures SkipSpace(sp + s) == s
  {
    SpanIs(sp + s, IsSpace, |sp|);
  }

  lemma FinishMultiplies(v: u64, t: string)
    ensures var rest := if KilosOf(t) == 0 then t else t[1..];
            Finish(v, t) == if Blank(rest) then Some(v * Kilo(KilosOf(t)) % 0x1_0000_0000_0000_0000) else None
  {
    KiloValues();
    SkipsAllIffBlank(t);
    if t != [] { SkipsAllIffBlank(t[1..]); }
  }

  /**
   * A number with blanks before it and anything behind it: `k` or `K`, `M`, `G` and `T` multiply by 1024 to
   * the power of 1, 2, 3 and 4, modulo 2^64; behind number and suffix only blanks may follow. A number
   * from 2^64 on counts as the largest 64-bit number.
   */
  lemma {:induction false} NumberWithTail(sp: string, n: nat, t: string)
    requires Blank(sp) && (t != [] ==> !('0' <= t[0] <= '9'))
    ensures var v := if n < 0x1_0000_0000_0000_0000 then n else 0xFFFF_FFFF_FFFF_FFFF;
            var rest := if KilosOf(t) == 0 then t else t[1..];
            ReadU64(sp + (Dec(n) + t)) ==
            if Blank(rest) then Some(v * Kilo(KilosOf(t)) % 0x1_0000_0000_0000_0000) else None
  {
    var s := Dec(n) + t;
    SkipsBlank(sp, s);
    SpanIs(s, IsDigit, |Dec(n)|);
    assert s[..|Dec(n)|] == Dec(n) && s[|Dec(n)|..] == t;
    DecValue(n);
    FinishMultiplies(Saturate(n), t);
  }

  lemma {:induction false} PlainNumber(n: nat)
    ensures ReadU64(Dec(n)) == Some(Saturate(n))
  {
    var s := Dec(n);
    SpaceFree(s);
    SpanIs(s, IsDigit, |s|);
    assert s[..|s|] == s && s[|s|..] == [];
    DecValue(n);
  }

  /** A narrow reader accepts a printed number exactly when it fits, and then returns it. */
  lemma {:induction false} ReadMaxDec(n: nat, max: nat)
    requires max < UINT64_MAX
    ensures ReadMax(Dec(n), max) == if n <= max then Some(n) else None
  {
    PlainNumber(n);
  }

  lemma NotANumber(p: string)
    requires p != [] && !IsSpace(p[0]) && !IsDigit(p[0])
    ensures ReadU64(p) == None
  {
    SpaceFree(p);
  }

  // ---- Hexadecimal strings ----

  /** `%02x`. */
  function Hex2(b: u8): (s: string)
    ensures |s| == 2
  {
    [Digit(b / 16), Digit(b % 16)]
  }

  function HexString(bs: seq<u8>): (s: string)
    ensures |s| == 2 * |bs|
  {
    if bs == [] then [] else Hex2(bs[0]) + HexString(bs[1..])
  }

  function HexByte(hi: char, lo: char): u8 { HexVal(hi) * 16 + HexVal(lo) }

  /** The bytes that pairs of hex digits spell. */
  function HexBytes(s: string): (bs: seq<u8>)
    requires |s| % 2 == 0
    ensures |bs| == |s| / 2
    decreases |s|
  {
    if s == [] then [] else [HexByte(s[0], s[1])] + HexBytes(s[2..])
  }

  lemma {:induction false} HexBytesAt(s: string, i: nat)
    requires |s| % 2 == 0 && i < |s| / 2
    ensures HexBytes(s)[i] == HexByte(s[2 * i], s[2 * i + 1])
    decreases |s|
  {
    if i > 0 { HexBytesAt(s[2..], i - 1); }
  }

  /** `parse_hex_string` into a buffer of `size` bytes; the length must be a multiple of four. */
  function ParseHex(s: string, size: nat): Option<seq<u8>> {
    if size == 0 || |s| % 4 != 0 || |s| > 2 * size then None
    else if exists i :: 0 <= i < |s| && !IsHexDigit(s[i]) then None
    else Some(HexBytes(s))
  }

  /** `parse_hex_string`: checks first, then fills `dst` in place; what lies past the result is untouched. */
  method ParseHexString(src: string, dst: array<u8>) returns (r: Option<nat>)
    modifies dst
    ensures match ParseHex(src, dst.Length)
            case None => r == None && dst[..] == old(dst[..])
            case Some(bs) => r == Some(|bs|) && dst[..] == bs + old(dst[..])[|bs|..]
  {
    if dst.Length == 0 || |src| % 4 != 0 || |src| > 2 * dst.Length {
      return None;
    }
    var c := 0;
    while c < |src|
      invariant c <= |src| && forall i :: 0 <= i < c ==> IsHexDigit(src[i])
    {
      if !IsHexDigit(src[c]) {
        return None;
      }
      c := c + 1;
    }
    FillBytes(src, dst);
    r := Some(|src| / 2);
  }

  method FillBytes(src: string, dst: array<u8>)
    requires |src| % 2 == 0 && |src| / 2 <= dst.Length
    modifies dst
    ensures dst[..] == HexBytes(src) + old(dst[..])[|src| / 2..]
  {
    var i := 0;
    ghost var bs := HexBytes(src);
    while i < |src| / 2
      invariant i <= |bs|
      invariant forall k :: 0 <= k < dst.Length ==> dst[k] == if k < i then bs[k] else old(dst[k])
    {
      HexBytesAt(src, i);
      dst[i] := HexByte(src[2 * i], src[2 * i + 1]);
      i := i + 1;
    }
  }

  lemma Hex2Byte(b: u8)
    ensures IsHexDigit(Hex2(b)[0]) && IsHexDigit(Hex2(b)[1]) && HexByte(Hex2(b)[0], Hex2(b)[1]) == b
  {
    DigitVal(b / 16);
    DigitVal(b % 16);
  }

  lemma {:induction false} HexStringBytes(bs: seq<u8>)
    ensures HexBytes(HexString(bs)) == bs
    ensures forall i :: 0 <= i < |HexString(bs)| ==> IsHexDigit(HexString(bs)[i])
  {
    if bs != [] {
      HexStringBytes(bs[1..]);
      Hex2Byte(bs[0]);
      var (h, t) := (Hex2(bs[0]), HexString(bs[1..]));
      assert (h + t)[2..] == t && (h + t)[0] == h[0] && (h + t)[1] == h[1];
    }
  }

  /** Printed bytes are read back exactly when they fit and are even in number. */
  lemma {:induction false} ParseHexReadsBack(bs: seq<u8>, size: nat)
    ensures ParseHex(HexString(bs), size) == if size > 0 && |bs| % 2 == 0 && |bs| <= size then Some(bs) else None
  {
    HexStringBytes(bs);
    EvenMeansFour(|bs|);
  }

  /** The upper-case spelling of a hexadecimal digit; other characters stay. */
  function UpperHex(c: char): char {
    match c
    case 'a' => 'A' case 'b' => 'B' case 'c' => 'C' case 'd' => 'D' case 'e' => 'E' case 'f' => 'F'
    case _ => c
  }

  function Upper(s: string): (u: string)
    ensures |u| == |s| && forall i :: 0 <= i < |s| ==> u[i] == UpperHex(s[i])
  {
    seq(|s|, i requires 0 <= i < |s| => UpperHex(s[i]))
  }

  lemma UpperHexVal(c: char)
    ensures HexVal(UpperHex(c)) == HexVal(c) && (IsHexDigit(UpperHex(c)) <==> IsHexDigit(c))
  {
  }

  /** Hexadecimal bytes may be spelled in upper case, in lower case, or in a mixture of both. */
  lemma {:induction false} UpperHexString(s: string, size: nat)
    ensures ParseHex(Upper(s), size) == ParseHex(s, size)
  {
    UpperHexDigits(s);
    if |s| % 4 == 0 {
      FourIsEven(|s|);
      UpperHexBytes(s);
    }
  }

  lemma FourIsEven(n: nat)
    requires n % 4 == 0
    ensures n % 2 == 0
  {
    TwiceIsEven(2 * (n / 4), n);
  }

  lemma TwiceIsEven(k: nat, n: nat)
    requires n == 2 * k
    ensures n % 2 == 0
  {
  }

  lemma {:induction false} UpperHexDigits(s: string)
    ensures (exists i :: 0 <= i < |Upper(s)| && !IsHexDigit(Upper(s)[i])) <==>
            (exists i :: 0 <= i < |s| && !IsHexDigit(s[i]))
  {
    var u := Upper(s);
    if i :| 0 <= i < |u| && !IsHexDigit(u[i]) {
      UpperHexVal(s[i]);
      assert !IsHexDigit(s[i]);
    }
    if i :| 0 <= i < |s| && !IsHexDigit(s[i]) {
      UpperHexVal(s[i]);
      assert !IsHexDigit(u[i]);
    }
  }

  lemma {:induction false} UpperHexBytes(s: string)
    requires |s| % 2 == 0
    ensures HexBytes(Upper(s)) == HexBytes(s)
  {
    forall i | 0 <= i < |s| / 2 ensures HexBytes(Upper(s))[i] == HexBytes(s)[i] {
      HexBytesAt(s, i);
      HexBytesAt(Upper(s), i);
      UpperHexVal(s[2 * i]);
      UpperHexVal(s[2 * i + 1]);
    }
  }

  lemma EvenMeansFour(n: nat)
    ensures 2 * n % 4 == 0 <==> n % 2 == 0
  {
  }

  // ---- Ethernet addresses ----

  /** Is there a sign behind the spaces? */
  predicate HasSign(s: string) {
    var sp := Span(s, IsSpace);
    sp < |s| && (s[sp] == '-' || s[sp] == '+')
  }

  /** Where the digits begin, behind spaces, sign and `0x`. */
  function FirstDigit(s: string): (first: nat)
    ensures first <= |s|
  {
    var sp := Span(s, IsSpace);
    var d := if HasSign(s) then sp + 1 else sp;
    var prefixed := d + 2 < |s| && s[d] == '0' && (s[d + 1] == 'x' || s[d + 1] == 'X') && IsHexDigit(s[d + 2]);
    if prefixed then d + 2 else d
  }

  /** `strtoul(s, &end, 16)`: the value, the characters consumed, and whether errno was set. */
  function StrToUl16(s: string): (r: (nat, nat, bool))
    ensures r.1 <= |s|
  {
    var first := FirstDigit(s);
    var n := DigitCount(s, first);
    if n == 0 then (0, 0, false) else Signed(DigitsValue(s, first), IsNegative(s), first + n)
  }

  /** How many digits there are from a position on, and their value. */
  function DigitCount(s: string, first: nat): (n: nat)
    requires first <= |s|
    ensures first + n <= |s|
  {
    Span(s[first..], IsHexDigit)
  }

  function DigitsValue(s: string, first: nat): nat
    requires first <= |s|
  {
    Value(s[first..first + DigitCount(s, first)], 16)
  }

  /** The result for a digit string of value `v` that ends at `end`. */
  function Signed(v: nat, minus: bool, end: nat): (r: (nat, nat, bool))
    ensures r.1 == end
  {
    if v > UINT64_MAX then (UINT64_MAX, end, true) else ((if minus then (U64_MOD - v) % U64_MOD else v), end, false)
  }

  predicate IsNegative(s: string) { HasSign(s) && s[Span(s, IsSpace)] == '-' }

  /**
   * At most `max` groups separated by colons, up to the end of the string; `read` is `strtoul` as
   * above: value, characters consumed, error.
   */
  function Groups(read: string -> (nat, nat, bool), s: string, max: nat): (r: Option<seq<nat>>)
    ensures r.Some? ==> 1 <= |r.value| <= max
    decreases |s|
  {
    var (v, n, bad) := read(s);
    if max == 0 || bad || n == 0 || n > |s| then None
    else if n == |s| then Some([v])
    else if s[n] != ':' || max == 1 then None
    else match Groups(read, s[n + 1..], max - 1)
      case None => None
      case Some(rest) => Some([v] + rest)
  }

  function Byte(x: nat): u8 { x % 0x100 }

  function MacOfBytes(o: seq<nat>): Option<Mac>
    requires |o| == 6
  {
    if o[0] > 0xFF || o[1] > 0xFF || o[2] > 0xFF || o[3] > 0xFF || o[4] > 0xFF || o[5] > 0xFF then None
    else Some([Byte(o[0]), Byte(o[1]), Byte(o[2]), Byte(o[3]), Byte(o[4]), Byte(o[5])])
  }

  function MacOfWords(o: seq<nat>): Option<Mac>
    requires |o| == 3
  {
    if o[0] > 0xFFFF || o[1] > 0xFFFF || o[2] > 0xFFFF then None
    else Some([Byte(o[0] / 0x100), Byte(o[0]), Byte(o[1] / 0x100), Byte(o[1]), Byte(o[2] / 0x100), Byte(o[2])])
  }

  /** Six groups of one byte or three groups of two. */
  function MacOfGroups(o: Option<seq<nat>>): Option<Mac> {
    if o.None? then None
    else if |o.value| == 6 then MacOfBytes(o.value)
    else if |o.value| == 3 then MacOfWords(o.value)
    else None
  }

  /** `my_ether_aton`. */
  function EtherAton(s: string): Option<Mac> { MacOfGroups(Groups(StrToUl16, s, 6)) }

  /** The do-while loop of `my_ether_aton` that fills `o[]`. */
  method ReadGroups(read: string -> (nat, nat, bool), s: string) returns (r: Option<seq<nat>>)
    ensures r == Groups(read, s, 6)
  {
    var o: seq<nat> := [];
    var a, more := s, true;
    ghost var all := Groups(read, s, 6);
    assert all.Some? ==> [] + all.value == all.value;
    while more
      invariant more ==> |o| < 6
      invariant more ==> all == match Groups(read, a, 6 - |o|) { case None => None case Some(g) => Some(o + g) }
      invariant !more ==> all == Some(o)
      decreases more, |a|
    {
      var (v, n, bad) := read(a);
      if bad || n == 0 || n > |a| || (n < |a| && a[n] != ':') {
        return None;
      }
      if n == |a| {
        more := false;
      } else if |o| == 5 {
        return None;
      } else {
        a := a[n + 1..];
        ghost var g := Groups(read, a, 5 - |o|);
        assert g.Some? ==> o + ([v] + g.value) == o + [v] + g.value;
      }
      o := o + [v];
    }
    return Some(o);
  }

  /** `my_ether_aton` as the C code runs it. */
  method MyEtherAton(s: string) returns (r: Option<Mac>)
    ensures r == EtherAton(s)
  {
    var o := ReadGroups(StrToUl16, s);
    return MacOfGroups(o);
  }

  function Colons(gs: seq<string>): string
    requires gs != []
  {
    if |gs| == 1 then gs[0] else gs[0] + ":" + Colons(gs[1..])
  }

  /** `ether_addr_show`. */
  function MacString(m: Mac): string {
    Colons([Hex2(m[0]), Hex2(m[1]), Hex2(m[2]), Hex2(m[3]), Hex2(m[4]), Hex2(m[5])])
  }

  /** The other accepted notation, three groups of four digits. */
  function MacWords(m: Mac): string {
    Colons([Hex2(m[0]) + Hex2(m[1]), Hex2(m[2]) + Hex2(m[3]), Hex2(m[4]) + Hex2(m[5])])
  }

  /** `strtoul` on hex digits followed by a colon or by nothing. */
  lemma {:induction false} StrToUlHex(h: string, rest: string)
    requires HexGroup(h)
    requires rest == [] || rest[0] == ':'
    ensures StrToUl16(h + rest) == (Value(h, 16), |h|, false)
  {
    var s := h + rest;
    SpanIs(s, IsSpace, 0);
    assert s[0..] == s;
    SpanIs(s, IsHexDigit, |h|);
    assert s[..|h|] == h;
    ShortHexFits(h);
  }

  /** `s` is blanks, an optional sign, an optional `0x`, and from `first` on digits up to `end`. */
  ghost predicate HexNumber(s: string, sp: nat, first: nat, end: nat) {
    && sp <= first < end <= |s| && Blank(s[..sp]) && !IsSpace(s[sp])
    && (forall i :: first <= i < end ==> IsHexDigit(s[i])) && (end < |s| ==> !IsHexDigit(s[end]))
    && var d := if s[sp] == '-' || s[sp] == '+' then sp + 1 else sp;
       || (first == d && !(end == d + 1 && s[d] == '0' && end + 1 < |s| && (s[end] == 'x' || s[end] == 'X')))
       || (first == d + 2 && s[d] == '0' && (s[d + 1] == 'x' || s[d + 1] == 'X'))
  }

  /**
   * `strtoul` in base 16: blanks, sign and `0x` are skipped, a value from 2^64 on is an error, and a minus
   * negates modulo 2^64.
   */
  lemma {:induction false} StrToUlForm(s: string, sp: nat, first: nat, end: nat)
    requires HexNumber(s, sp, first, end)
    ensures var v := Value(s[first..end], 16);
            StrToUl16(s) ==
            if v >= 0x1_0000_0000_0000_0000 then (0xFFFF_FFFF_FFFF_FFFF, end, true)
            else if s[sp] == '-' && v > 0 then (0x1_0000_0000_0000_0000 - v, end, false)
            else (v, end, false)
  {
    forall i | 0 <= i < sp ensures IsSpace(s[i]) { assert s[..sp][i] == s[i]; }
    SpanIs(s, IsSpace, sp);
    FirstDigitIs(s, sp, first, end);
    DigitsAre(s, first, end);
    SignedIs(Value(s[first..end], 16), s[sp] == '-', end);
  }

  lemma {:induction false} DigitsAre(s: string, first: nat, end: nat)
    requires first < end <= |s| && forall i :: first <= i < end ==> IsHexDigit(s[i])
    requires end < |s| ==> !IsHexDigit(s[end])
    ensures DigitCount(s, first) == end - first && DigitsValue(s, first) == Value(s[first..end], 16)
  {
    SpanIs(s[first..], IsHexDigit, end - first);
  }

  lemma SignedIs(v: nat, minus: bool, end: nat)
    ensures Signed(v, minus, end) ==
            if v >= 0x1_0000_0000_0000_0000 then (0xFFFF_FFFF_FFFF_FFFF, end, true)
            else if minus && v > 0 then (0x1_0000_0000_0000_0000 - v, end, false)
            else (v, end, false)
  {
  }

  lemma {:induction false} FirstDigitIs(s: string, sp: nat, first: nat, end: nat)
    requires HexNumber(s, sp, first, end) && Span(s, IsSpace) == sp
    ensures FirstDigit(s) == first
  {
  }

  function Pow16(k: nat): nat { if k == 0 then 1 else 16 * Pow16(k - 1) }

  lemma {:induction false} HexFits(h: string)
    ensures Value(h, 16) < Pow16(|h|)
  {
    if h != [] { HexFits(h[..|h| - 1]); }
  }

  lemma {:induction false} ShortHexFits(h: string)
    requires |h| <= 4
    ensures Value(h, 16) <= 0xFFFF
  {
    HexFits(h);
    assert Pow16(0) == 1 && Pow16(1) == 16 && Pow16(2) == 256 && Pow16(3) == 4096 && Pow16(4) == 65536;
  }

  lemma Hex2Value(b: u8)
    ensures Value(Hex2(b), 16) == b && IsHexDigit(Hex2(b)[0]) && IsHexDigit(Hex2(b)[1])
  {
    DigitVal(b / 16);
    DigitVal(b % 16);
    ValueSnoc([], Digit(b / 16), 16);
    ValueSnoc([Digit(b / 16)], Digit(b % 16), 16);
    assert [] + [Digit(b / 16)] == [Digit(b / 16)];
    assert [Digit(b / 16)] + [Digit(b % 16)] == Hex2(b);
  }

  lemma Hex4Value(b: u8, c: u8)
    ensures Value(Hex2(b) + Hex2(c), 16) == Word16(b, c) && HexGroup(Hex2(b) + Hex2(c))
  {
    Hex2Value(b);
    Hex2Value(c);
    DigitVal(c / 16);
    DigitVal(c % 16);
    ValueSnoc(Hex2(b), Digit(c / 16), 16);
    ValueSnoc(Hex2(b) + [Digit(c / 16)], Digit(c % 16), 16);
    assert Hex2(b) + [Digit(c / 16)] + [Digit(c % 16)] == Hex2(b) + Hex2(c);
  }

  function Values(gs: seq<string>): (v: seq<nat>)
    ensures |v| == |gs|
  {
    if gs == [] then [] else [Value(gs[0], 16)] + Values(gs[1..])
  }

  ghost predicate HexGroup(g: string) { 1 <= |g| <= 4 && forall i :: 0 <= i < |g| ==> IsHexDigit(g[i]) }

  /** `read` takes a group off the front of a string. */
  ghost predicate ReadsGroups(read: string -> (nat, nat, bool)) {
    forall h, rest :: HexGroup(h) && (rest == [] || rest[0] == ':') ==> read(h + rest) == (Value(h, 16), |h|, false)
  }

  lemma {:induction false} GroupsFront(read: string -> (nat, nat, bool), h: string, rest: string, max: nat)
    requires ReadsGroups(read) && HexGroup(h) && max > 1
    ensures Groups(read, h + ":" + rest, max) ==
            match Groups(read, rest, max - 1) { case None => None case Some(r) => Some([Value(h, 16)] + r) }
  {
    FrontWords(h, rest);
    assert read(h + (":" + rest)) == (Value(h, 16), |h|, false);
  }

  lemma FrontWords(h: string, rest: string)
    ensures var s := h + ":" + rest;
            s == h + (":" + rest) && |s| == |h| + 1 + |rest| && s[|h|] == ':' && s[|h| + 1..] == rest
  {
  }

  lemma {:induction false} GroupsSingle(read: string -> (nat, nat, bool), h: string, max: nat)
    requires ReadsGroups(read) && HexGroup(h) && max > 0
    ensures Groups(read, h, max) == Some([Value(h, 16)])
  {
    assert h + [] == h;
    assert read(h + []) == (Value(h, 16), |h|, false);
  }

  lemma {:induction false} GroupsOfColons(read: string -> (nat, nat, bool), gs: seq<string>, max: nat)
    requires ReadsGroups(read)
    requires gs != [] && |gs| <= max && forall i :: 0 <= i < |gs| ==> HexGroup(gs[i])
    ensures Groups(read, Colons(gs), max) == Some(Values(gs))
    decreases |gs|
  {
    if |gs| == 1 {
      GroupsSingle(read, gs[0], max);
      assert gs[1..] == [] && Values(gs) == [Value(gs[0], 16)];
    } else {
      GroupsOfColons(read, gs[1..], max - 1);
      GroupsFront(read, gs[0], Colons(gs[1..]), max);
    }
  }

  lemma StrToUlReadsGroups()
    ensures ReadsGroups(StrToUl16)
  {
    forall h, rest | HexGroup(h) && (rest == [] || rest[0] == ':')
      ensures StrToUl16(h + rest) == (Value(h, 16), |h|, false)
    {
      StrToUlHex(h, rest);
    }
  }

  /** Both notations of an Ethernet address are read back as the address. */
  lemma EtherAtonReadsBack(m: Mac)
    ensures EtherAton(MacString(m)) == Some(m)
    ensures EtherAton(MacWords(m)) == Some(m)
  {
    SixGroups(m);
    ThreeGroups(m);
  }

  lemma SixGroups(m: Mac)
    ensures EtherAton(MacString(m)) == Some(m)
  {
    Hex2Value(m[0]); Hex2Value(m[1]); Hex2Value(m[2]); Hex2Value(m[3]); Hex2Value(m[4]); Hex2Value(m[5]);
    var gs := [Hex2(m[0]), Hex2(m[1]), Hex2(m[2]), Hex2(m[3]), Hex2(m[4]), Hex2(m[5])];
    ValuesAre(gs);
    SixBytes(m, Values(gs));
    EtherOfGroups(gs, m);
  }

  lemma ThreeGroups(m: Mac)
    ensures EtherAton(MacWords(m)) == Some(m)
  {
    Hex4Value(m[0], m[1]); Hex4Value(m[2], m[3]); Hex4Value(m[4], m[5]);
    var gs := [Hex2(m[0]) + Hex2(m[1]), Hex2(m[2]) + Hex2(m[3]), Hex2(m[4]) + Hex2(m[5])];
    ValuesAre(gs);
    ThreeWords(m, Values(gs));
    EtherOfGroups(gs, m);
  }

  lemma {:induction false} EtherOfGroups(gs: seq<string>, m: Mac)
    requires gs != [] && |gs| <= 6 && forall i :: 0 <= i < |gs| ==> HexGroup(gs[i])
    requires MacOfGroups(Some(Values(gs))) == Some(m)
    ensures EtherAton(Colons(gs)) == Some(m)
  {
    StrToUlReadsGroups();
    GroupsOfColons(StrToUl16, gs, 6);
  }

  lemma {:induction false} ValuesAre(gs: seq<string>)
    ensures forall i :: 0 <= i < |gs| ==> Values(gs)[i] == Value(gs[i], 16)
  {
    if gs != [] { ValuesAre(gs[1..]); }
  }

  lemma SixBytes(m: Mac, o: seq<nat>)
    requires |o| == 6 && o[0] == m[0] && o[1] == m[1] && o[2] == m[2] && o[3] == m[3] && o[4] == m[4] && o[5] == m[5]
    ensures MacOfGroups(Some(o)) == Some(m)
  {
    assert [Byte(o[0]), Byte(o[1]), Byte(o[2]), Byte(o[3]), Byte(o[4]), Byte(o[5])] == m;
  }

  function Word16(hi: u8, lo: u8): nat { (hi as nat) * 0x100 + lo }

  lemma ThreeWords(m: Mac, o: seq<nat>)
    requires |o| == 3 && o[0] == Word16(m[0], m[1]) && o[1] == Word16(m[2], m[3]) && o[2] == Word16(m[4], m[5])
    ensures MacOfGroups(Some(o)) == Some(m)
  {
    WordBytes(m[0], m[1]); WordBytes(m[2], m[3]); WordBytes(m[4], m[5]);
    assert [Byte(o[0] / 0x100), Byte(o[0]), Byte(o[1] / 0x100), Byte(o[1]), Byte(o[2] / 0x100), Byte(o[2])] == m;
  }

  lemma WordBytes(hi: u8, lo: u8)
    ensures Word16(hi, lo) <= 0xFFFF && Byte(Word16(hi, lo) / 0x100) == hi && Byte(Word16(hi, lo)) == lo
  {
  }

  /**
   * One to six groups of one to four digits: six groups up to ff are the six bytes, three groups are the
   * six bytes two by two, and anything else is rejected.
   */
  lemma {:induction false} EtherAtonOfGroups(gs: seq<string>)
    requires 1 <= |gs| <= 6 && forall i :: 0 <= i < |gs| ==> HexGroup(gs[i])
    ensures var (v, r) := (Values(gs), EtherAton(Colons(gs)));
            && (r.Some? <==> |gs| == 3 || (|gs| == 6 && forall i :: 0 <= i < 6 ==> v[i] < 256))
            && (r.Some? ==>
                  if |gs| == 6 then forall i :: 0 <= i < 6 ==> r.value[i] as nat == v[i]
                  else forall i :: 0 <= i < 3 ==> (r.value[2 * i] as nat) * 256 + r.value[2 * i + 1] as nat == v[i])
  {
    StrToUlReadsGroups();
    GroupsOfColons(StrToUl16, gs, 6);
    ValuesAre(gs);
    forall i | 0 <= i < |gs| ensures Values(gs)[i] <= 0xFFFF { ShortHexFits(gs[i]); }
    if |gs| == 3 { MacOfThree(Values(gs)); }
    if |gs| == 6 { MacOfSix(Values(gs)); }
  }

  lemma MacOfThree(v: seq<nat>)
    requires |v| == 3 && v[0] <= 0xFFFF && v[1] <= 0xFFFF && v[2] <= 0xFFFF
    ensures var r := MacOfGroups(Some(v));
            r.Some? && forall i :: 0 <= i < 3 ==> (r.value[2 * i] as nat) * 256 + r.value[2 * i + 1] as nat == v[i]
  {
    TwoBytes(v[0]); TwoBytes(v[1]); TwoBytes(v[2]);
  }

  lemma TwoBytes(x: nat)
    requires x <= 0xFFFF
    ensures (Byte(x / 0x100) as nat) * 256 + Byte(x) as nat == x
  {
  }

  lemma MacOfSix(v: seq<nat>)
    requires |v| == 6
    ensures var r := MacOfGroups(Some(v));
            && (r.Some? <==> forall i :: 0 <= i < 6 ==> v[i] < 256)
            && (r.Some? ==> forall i :: 0 <= i < 6 ==> r.value[i] as nat == v[i])
  {
  }

  lemma {:induction false} UpperSpan(s: string, p: char -> bool)
    requires forall c :: p(UpperHex(c)) == p(c)
    ensures Span(Upper(s), p) == Span(s, p)
  {
    SpanEnds(s, p);
    SpanIs(Upper(s), p, Span(s, p));
  }

  lemma UpperSlice(s: string, i: nat, j: nat)
    requires i <= j <= |s|
    ensures Upper(s)[i..j] == Upper(s[i..j]) && Upper(s)[i..] == Upper(s[i..])
  {
  }

  lemma {:induction false} UpperValue(s: string)
    ensures Value(Upper(s), 16) == Value(s, 16)
  {
    if s != [] {
      var n := |s| - 1;
      UpperValue(s[..n]);
      UpperSlice(s, 0, n);
      UpperHexVal(s[n]);
      assert Upper(s)[..n] == Upper(s)[0..n] && s[..n] == s[0..n];
    }
  }

  lemma {:induction false} UpperStrToUl(s: string)
    ensures StrToUl16(Upper(s)) == StrToUl16(s)
  {
    UpperFirstDigit(s);
    UpperDigits(s, FirstDigit(s));
  }

  lemma {:induction false} UpperDigitCount(s: string, first: nat)
    requires first <= |s|
    ensures DigitCount(Upper(s), first) == DigitCount(s, first)
  {
    forall c ensures IsHexDigit(UpperHex(c)) == IsHexDigit(c) { UpperHexVal(c); }
    UpperSpan(s[first..], IsHexDigit);
    UpperSlice(s, first, |s|);
  }

  lemma {:induction false} UpperDigits(s: string, first: nat)
    requires first <= |s|
    ensures DigitCount(Upper(s), first) == DigitCount(s, first)
    ensures DigitsValue(Upper(s), first) == DigitsValue(s, first)
  {
    UpperDigitCount(s, first);
    var n := DigitCount(s, first);
    UpperSlice(s, first, first + n);
    UpperValue(s[first..first + n]);
  }

  /** Spaces, sign and prefix do not depend on the case. */
  lemma {:induction false} UpperFirstDigit(s: string)
    ensures Span(Upper(s), IsSpace) == Span(s, IsSpace) && HasSign(Upper(s)) == HasSign(s)
    ensures FirstDigit(Upper(s)) == FirstDigit(s)
    ensures IsNegative(Upper(s)) == IsNegative(s)
  {
    UpperSpan(s, IsSpace);
    var sp := Span(s, IsSpace);
    var d := if HasSign(s) then sp + 1 else sp;
    if d + 2 < |s| { UpperHexVal(s[d + 2]); }
  }

  ghost predicate IgnoresCase(read: string -> (nat, nat, bool)) {
    forall s {:trigger Upper(s)} :: read(Upper(s)) == read(s)
  }

  lemma {:induction false} UpperGroups(read: string -> (nat, nat, bool), s: string, max: nat)
    requires IgnoresCase(read)
    ensures Groups(read, Upper(s), max) == Groups(read, s, max)
    decreases |s|
  {
    var (v, n, bad) := read(s);
    assert read(Upper(s)) == (v, n, bad);
    if n < |s| {
      UpperTail(s, n);
      if !bad && n > 0 && max > 1 && s[n] == ':' { UpperGroups(read, s[n + 1..], max - 1); }
    }
  }

  lemma UpperTail(s: string, n: nat)
    requires n < |s|
    ensures Upper(s)[n + 1..] == Upper(s[n + 1..]) && (Upper(s)[n] == ':' <==> s[n] == ':')
  {
  }

  /** So may an Ethernet address. */
  lemma {:induction false} UpperEtherAton(s: string)
    ensures EtherAton(Upper(s)) == EtherAton(s)
  {
    forall s {:trigger Upper(s)} ensures StrToUl16(Upper(s)) == StrToUl16(s) { UpperStrToUl(s); }
    UpperGroups(StrToUl16, s, 6);
  }

  // ---- IPv4 addresses ----

  /** `inet_pton(AF_INET)`: `k` decimal octets, one to three digits each, no leading zeros, dots between. */
  function Octets(s: string, k: nat): (r: Option<seq<nat>>)
    ensures r.Some? ==> |r.value| == k
    decreases |s|
  {
    var n := Span(s, IsDigit);
    var v := Value(s[..n], 10);
    if k == 0 || n == 0 || n > 3 || v > 255 || (n > 1 && s[0] == '0') then None
    else if k == 1 then if n == |s| then Some([v]) else None
    else if n == |s| || s[n] != '.' then None
    else match Octets(s[n + 1..], k - 1)
      case None => None
      case Some(rest) => Some([v] + rest)
  }

  function AddressOf(o: seq<nat>): Option<u32>
    requires |o| == 4
  {
    if o[0] > 255 || o[1] > 255 || o[2] > 255 || o[3] > 255 then None
    else Some(o[0] * 0x100_0000 + o[1] * 0x1_0000 + o[2] * 0x100 + o[3])
  }

  /** `parse_ipv4_addr` followed by the conversion to host order. */
  function ParseIp4(s: string): Option<u32> {
    if |s| >= 16 then None
    else match Octets(s, 4)
      case None => None
      case Some(o) => AddressOf(o)
  }

  function Dots(bs: seq<nat>): string
    requires bs != []
  {
    if |bs| == 1 then Dec(bs[0]) else Dec(bs[0]) + "." + Dots(bs[1..])
  }

  /** `ipv4_addr_show`. */
  function Ip4String(a: u32): string {
    Dots(Be32(a))
  }

  /** The four bytes of a number, most significant first. */
  function Be32(x: u32): (s: seq<u8>)
    ensures |s| == 4
  {
    [x / 0x100_0000, x / 0x1_0000 % 0x100, x / 0x100 % 0x100, x % 0x100]
  }

  lemma {:induction false} DecOctet(b: nat)
    requires b < 256
    ensures 1 <= |Dec(b)| <= 3 && (|Dec(b)| > 1 ==> Dec(b)[0] != '0')
  {
    if b >= 10 {
      assert Dec(b) == Dec(b / 10) + [Digit(b % 10)];
      if b >= 100 {
        assert Dec(b / 10) == Dec(b / 10 / 10) + [Digit(b / 10 % 10)];
      }
    }
  }

  lemma {:induction false} OctetsCons(b: nat, rest: string, k: nat)
    requires b < 256 && k > 1 && Octets(rest, k - 1).Some?
    ensures Octets(Dec(b) + "." + rest, k) == Some([b] + Octets(rest, k - 1).value)
  {
    var s := Dec(b) + "." + rest;
    DecOctet(b);
    DecValue(b);
    SpanIs(s, IsDigit, |Dec(b)|);
    assert s[..|Dec(b)|] == Dec(b) && s[|Dec(b)| + 1..] == rest;
  }

  lemma {:induction false} OctetsLast(b: nat)
    requires b < 256
    ensures Octets(Dec(b), 1) == Some([b])
  {
    DecOctet(b);
    DecValue(b);
    SpanIs(Dec(b), IsDigit, |Dec(b)|);
    assert Dec(b)[..|Dec(b)|] == Dec(b);
  }

  lemma {:induction false} OctetsOfDots(bs: seq<nat>)
    requires bs != [] && forall i :: 0 <= i < |bs| ==> bs[i] < 256
    ensures Octets(Dots(bs), |bs|) == Some(bs)
  {
    if |bs| == 1 {
      OctetsLast(bs[0]);
      assert bs == [bs[0]];
    } else {
      OctetsOfDots(bs[1..]);
      OctetsPrepend(bs[0], bs[1..]);
      assert [bs[0]] + bs[1..] == bs;
    }
  }

  lemma {:induction false} OctetsPrepend(b: nat, bs: seq<nat>)
    requires b < 256 && bs != [] && Octets(Dots(bs), |bs|) == Some(bs)
    ensures Octets(Dots([b] + bs), |[b] + bs|) == Some([b] + bs)
  {
    assert ([b] + bs)[1..] == bs;
    OctetsCons(b, Dots(bs), |bs| + 1);
  }

  lemma {:induction false} DotsAtMost(bs: seq<nat>)
    requires bs != [] && forall i :: 0 <= i < |bs| ==> bs[i] < 256
    ensures |Dots(bs)| <= 4 * |bs| - 1
  {
    DecOctet(bs[0]);
    if |bs| > 1 { DotsAtMost(bs[1..]); }
  }

  lemma BytesOfAddress(a: u32)
    ensures AddressOf(Be32(a)) == Some(a)
    ensures forall i :: 0 <= i < 4 ==> Be32(a)[i] < 256
  {
    var (h, m, l) := (a / 0x100_0000, a / 0x1_0000, a / 0x100);
    assert m / 0x100 == h && l / 0x100 == m;
    assert a == l * 0x100 + a % 0x100 && l == m * 0x100 + l % 0x100 && m == h * 0x100 + m % 0x100;
  }

  /** A printed IPv4 address is read back as the address. */
  lemma ParseIp4ReadsBack(a: u32)
    ensures ParseIp4(Ip4String(a)) == Some(a) && |Ip4String(a)| <= 15
  {
    BytesOfAddress(a);
    OctetsOfDots(Be32(a));
    DotsAtMost(Be32(a));
  }

  lemma {:induction false} NoLeadingZero(s: string)
    requires s != [] && s[0] != '0' && forall i :: 0 <= i < |s| ==> IsDigit(s[i])
    ensures Value(s, 10) >= 1
  {
    if |s| > 1 { NoLeadingZero(s[..|s| - 1]); }
  }

  /** A digit string without leading zeros is the one that is printed for its value. */
  lemma {:induction false} DecOfValue(s: string)
    requires s != [] && (|s| > 1 ==> s[0] != '0') && forall i :: 0 <= i < |s| ==> IsDigit(s[i])
    ensures Dec(Value(s, 10)) == s
  {
    var (t, c) := (s[..|s| - 1], s[|s| - 1]);
    assert s == t + [c];
    DigitOfVal(c);
    ValueSnoc(t, c, 10);
    if t == [] {
      assert Dec(HexVal(c)) == [c];
    } else {
      NoLeadingZero(t);
      DecOfValue(t);
      DecSnoc(Value(t, 10), HexVal(c));
    }
  }

  lemma DigitOfVal(c: char)
    requires IsDigit(c)
    ensures HexVal(c) < 10 && Digit(HexVal(c)) == c
  {
    var v := HexVal(c);
    assert c == ['0', '1', '2', '3', '4', '5', '6', '7', '8', '9'][v];
  }

  lemma DecSnoc(n: nat, d: nat)
    requires n >= 1 && d < 10
    ensures Dec(n * 10 + d) == Dec(n) + [Digit(d)]
  {
    assert (n * 10 + d) / 10 == n && (n * 10 + d) % 10 == d;
  }

  lemma {:induction false} OctetsAreCanonical(s: string, k: nat)
    requires Octets(s, k).Some?
    ensures k > 0 && s == Dots(Octets(s, k).value)
    ensures forall i :: 0 <= i < k ==> Octets(s, k).value[i] < 256
    decreases k
  {
    var n := Span(s, IsDigit);
    SpanEnds(s, IsDigit);
    DecOfValue(s[..n]);
    if k > 1 {
      OctetsAreCanonical(s[n + 1..], k - 1);
      DotsCons(Value(s[..n], 10), Octets(s[n + 1..], k - 1).value);
      FrontDigits(s, n);
    } else {
      assert s[..n] == s;
    }
  }

  lemma {:induction false} DotsCons(v: nat, o: seq<nat>)
    requires o != []
    ensures Dots([v] + o) == Dec(v) + "." + Dots(o)
  {
    assert ([v] + o)[1..] == o;
  }

  lemma FrontDigits(s: string, n: nat)
    requires n < |s| && s[n] == '.'
    ensures s == s[..n] + "." + s[n + 1..]
  {
  }

  lemma AddressDetermines(o: seq<nat>, a: u32)
    requires |o| == 4 && AddressOf(o) == Some(a)
    ensures Be32(a) == o
  {
    var (h, m, l) := (a / 0x100_0000, a / 0x1_0000, a / 0x100);
    assert l == o[0] * 0x1_0000 + o[1] * 0x100 + o[2] && a % 0x100 == o[3];
    assert m == l / 0x100 && h == m / 0x100;
    assert m == o[0] * 0x100 + o[1] && l % 0x100 == o[2];
  }

  /** An IPv4 address is read from its printed form and from nothing else. */
  lemma ParseIp4Iff(s: string, a: u32)
    ensures ParseIp4(s) == Some(a) <==> s == Ip4String(a)
  {
    ParseIp4ReadsBack(a);
    if ParseIp4(s) == Some(a) {
      OctetsAreCanonical(s, 4);
      AddressDetermines(Octets(s, 4).value, a);
    }
  }

  // ---- Tokens ----

  /** The maximal runs of characters that are not delimiters. */
  function Tokens(s: string): (ts: seq<string>)
    decreases |s|
  {
    if s == [] then []
    else if IsSpace(s[0]) then Tokens(s[1..])
    else
      var n := Span(s, NotSpace);
      [s[..n]] + Tokens(s[n..])
  }

  datatype TokenResult = Tokenized(tokens: seq<string>) | EInval | E2Big

  /** `parse_tokenize_string` with room for `cap` tokens. */
  function Tokenize(s: string, cap: nat): TokenResult {
    if cap < 1 then EInval
    else if |Tokens(s)| > cap then E2Big
    else Tokenized(Tokens(s))
  }

  /** One call of `strtok_r` from position `pos`. */
  method StrTok(s: string, pos: nat) returns (tok: Option<string>, pos': nat)
    requires pos <= |s|
    ensures pos <= pos' <= |s|
    ensures tok.None? ==> Tokens(s[pos..]) == [] && pos' == |s|
    ensures tok.Some? ==> Tokens(s[pos..]) == [tok.value] + Tokens(s[pos'..]) && pos < pos'
  {
    var i := SkipFrom(s, pos);
    SkippedTokens(s, pos, i);
    if i == |s| {
      return None, |s|;
    }
    var j := WordEnd(s, i);
    TokenAt(s, i, j);
    tok, pos' := Some(s[i..j]), j;
  }

  lemma {:induction false} TokenAt(s: string, i: nat, j: nat)
    requires i < j <= |s| && forall k :: 0 <= k < j - i ==> NotSpace(s[i..][k])
    requires j < |s| ==> IsSpace(s[i..][j - i])
    ensures Tokens(s[i..]) == [s[i..j]] + Tokens(s[j..])
  {
    FirstToken(s[i..], j - i);
    SliceOfSuffix(s, i, j);
  }

  /** Skipping blanks changes no tokens and stops at a word or at the end. */
  lemma {:induction false} SkippedTokens(s: string, pos: nat, i: nat)
    requires pos <= i <= |s| && SkipSpace(s[pos..]) == s[i..]
    ensures Tokens(s[pos..]) == Tokens(s[i..])
    ensures if i == |s| then Tokens(s[i..]) == [] else NotSpace(s[i])
  {
    TokensSkip(s[pos..]);
    SkipStopsAtWord(s[pos..]);
    if i < |s| {
      assert s[i..][0] == s[i];
    } else {
      assert s[i..] == [];
    }
  }

  method WordEnd(s: string, i: nat) returns (j: nat)
    requires i < |s| && NotSpace(s[i])
    ensures i < j <= |s| && (forall k :: 0 <= k < j - i ==> NotSpace(s[i..][k])) && (j < |s| ==> IsSpace(s[i..][j - i]))
  {
    j := i;
    while j < |s| && !IsSpace(s[j])
      invariant i <= j <= |s| && forall k :: i <= k < j ==> NotSpace(s[k])
    {
      j := j + 1;
    }
  }

  lemma SliceOfSuffix(s: string, i: nat, j: nat)
    requires i <= j <= |s|
    ensures s[i..][..j - i] == s[i..j] && s[i..][j - i..] == s[j..]
  {
  }

  lemma SkipStopsAtWord(s: string)
    ensures var r := SkipSpace(s); r == [] || NotSpace(r[0])
  {
    SpanEnds(s, IsSpace);
  }

  lemma {:induction false} FirstToken(s: string, n: nat)
    requires 0 < n <= |s| && (forall k :: 0 <= k < n ==> NotSpace(s[k])) && (n < |s| ==> IsSpace(s[n]))
    ensures Tokens(s) == [s[..n]] + Tokens(s[n..])
  {
    SpanIs(s, NotSpace, n);
  }

  lemma {:induction false} TokensSkip(s: string)
    ensures Tokens(SkipSpace(s)) == Tokens(s)
    decreases |s|
  {
    if s != [] && IsSpace(s[0]) {
      TokensSkip(s[1..]);
      assert s[1..][Span(s[1..], IsSpace)..] == s[Span(s, IsSpace)..];
    } else {
      assert s[0..] == s;
    }
  }

  /** `parse_tokenize_string` as the C code runs it. */
  method ParseTokenizeString(s: string, cap: nat) returns (r: TokenResult)
    ensures r == Tokenize(s, cap)
  {
    if cap < 1 {
      return EInval;
    }
    var tokens: seq<string> := [];
    var pos, i := 0, 0;
    assert s[0..] == s;
    while i < cap
      invariant i <= cap && pos <= |s| && |tokens| == i
      invariant Tokens(s) == tokens + Tokens(s[pos..])
    {
      var tok, pos' := StrTok(s, pos);
      if tok.None? {
        return Tokenized(tokens);
      }
      assert tokens + ([tok.value] + Tokens(s[pos'..])) == tokens + [tok.value] + Tokens(s[pos'..]);
      tokens := tokens + [tok.value];
      pos := pos';
      i := i + 1;
    }
    var more, _ := StrTok(s, pos);
    if more.Some? {
      return E2Big;
    }
    assert tokens + [] == tokens;
    return Tokenized(tokens);
  }

  /** A nonempty word without delimiters. */
  predicate Clean(t: string) { t != [] && forall i :: 0 <= i < |t| ==> !IsSpace(t[i]) }

  lemma {:induction false} TokensAppend(a: string, b: string)
    requires a == [] || IsSpace(a[|a| - 1])
    ensures Tokens(a + b) == Tokens(a) + Tokens(b)
    decreases |a|
  {
    if a == [] {
      assert a + b == b;
    } else if IsSpace(a[0]) {
      assert (a + b)[1..] == a[1..] + b;
      TokensAppend(a[1..], b);
    } else {
      var n := Span(a, NotSpace);
      SpanEnds(a, NotSpace);
      assert NotSpace(a[0]) && n > 0;
      assert n < |a|;
      TokensAppend(a[n..], b);
      FirstTokenAppend(a, b, n);
    }
  }

  lemma {:induction false} FirstTokenAppend(a: string, b: string, n: nat)
    requires 0 < n < |a| && (forall k :: 0 <= k < n ==> NotSpace(a[k])) && IsSpace(a[n])
    ensures Tokens(a) == [a[..n]] + Tokens(a[n..])
    ensures Tokens(a + b) == [a[..n]] + Tokens(a[n..] + b)
  {
    FirstToken(a, n);
    FirstToken(a + b, n);
    assert (a + b)[..n] == a[..n] && (a + b)[n..] == a[n..] + b;
  }

  lemma {:induction false} TokensOfWord(t: string)
    requires Clean(t)
    ensures Tokens(t + " ") == [t]
  {
    FirstToken(t + " ", |t|);
    assert (t + " ")[..|t|] == t && (t + " ")[|t|..] == " ";
    assert Tokens(" ") == Tokens(" "[1..]);
  }

  /** Words with a space after each, as the printer writes them. */
  function Line(ts: seq<string>): string {
    if ts == [] then [] else ts[0] + " " + Line(ts[1..])
  }

  ghost predicate AllClean(ts: seq<string>) { forall i :: 0 <= i < |ts| ==> Clean(ts[i]) }

  /** A line of words is split into them unless they are too many; an array of no tokens is an error. */
  lemma {:induction false} TokenizeWords(ts: seq<string>, cap: nat)
    requires AllClean(ts)
    ensures Tokenize(Line(ts), cap) == if cap == 0 then EInval else if |ts| > cap then E2Big else Tokenized(ts)
  {
    TokensOfLine(ts);
  }

  lemma {:induction false} LineEndsInSpace(ts: seq<string>)
    ensures var s := Line(ts); s == [] || IsSpace(s[|s| - 1])
  {
    if ts != [] {
      LineEndsInSpace(ts[1..]);
    }
  }

  /** Tokenising what was printed word by word gives the words back. */
  lemma {:induction false} TokensOfLine(ts: seq<string>)
    requires AllClean(ts)
    ensures Tokens(Line(ts)) == ts
  {
    if ts != [] {
      TokensOfWord(ts[0]);
      TokensAppend(ts[0] + " ", Line(ts[1..]));
      TokensOfLine(ts[1..]);
    }
  }
}
