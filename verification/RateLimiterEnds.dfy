/**
 * For which minimum sizes the inner loop of the rate limiter ends
 * (processing/moongen_src/crc-rate-limiter.c:20-58, 73-86). Once a call was padded to a minimum size
 * above 1537 its remainder is the same after every further call; whether the loop ends depends on
 * where the target goes from there, modulo 2^32.
 */
module RateLimiterEnds {
  import opened Prelude
  import opened RateLimiter

  /** The minimum sizes with which no delay keeps the loop going for ever. */
  predicate AlwaysEnds(min: u32) {
    || min <= 1537
    || (min <= 2000 && min % 2 == 1)
    || (min > 2000 && min % 2048 != 1028)
  }

  // ---- A call that is not padded shortens the delay ----

  lemma UnpaddedCallShortens(st: Credit, rem: u32, min: u32)
    requires 1538 <= min < rem
    ensures GetDelay(st, rem, min).rem < rem
  {
  }

  /** The loop ends from everywhere if it does so after every padded call. */
  lemma {:induction false} EndsAfterPadding(st: Credit, rem: u32, min: u32, size: u32, left: u32)
    requires 1538 <= min && left == min - size > 0 && size == FrameSize(min)
    requires forall t: u32 :: Ends(Credit(t, size), left, min)
    ensures Ends(st, rem, min)
    decreases rem
  {
    if rem == 0 {
      assert EndsIn(st, rem, min, 0);
    } else {
      var c := GetDelay(st, rem, min);
      NextEnds(st, rem, min);
      if c.rem == 0 {
        assert EndsIn(c.st, c.rem, min, 0);
      } else if rem > min {
        UnpaddedCallShortens(st, rem, min);
        EndsAfterPadding(c.st, c.rem, min, size, left);
      } else {
        assert c.st == Credit(c.st.target, size) && c.rem == left;
      }
    }
  }

  // ---- Minimum sizes from 1538 to 2000 ----

  /** With an odd minimum size every call adds one to the target, until the sum with the remainder wraps. */
  lemma {:induction false} OddCountsUp(t: u32, min: u32)
    requires 1538 <= min <= 2000 && min % 2 == 1 && t + (min - min / 2) <= U32_MOD
    ensures Ends(Credit(t, min / 2), min - min / 2, min)
    decreases U32_MOD - t
  {
    var (st, left) := (Credit(t, min / 2), min - min / 2);
    NextEnds(st, left, min);
    if t + left == U32_MOD {
      assert GetDelay(st, left, min).rem == 0;
      assert EndsIn(GetDelay(st, left, min).st, 0, min, 0);
    } else {
      assert GetDelay(st, left, min) == Call(Credit(t + 1, min / 2), left, Some(min / 2));
      OddCountsUp(t + 1, min);
    }
  }

  lemma {:induction false} OddEnds(t: u32, min: u32)
    requires 1538 <= min <= 2000 && min % 2 == 1
    ensures Ends(Credit(t, min / 2), min - min / 2, min)
  {
    var (st, left) := (Credit(t, min / 2), min - min / 2);
    if t + left <= U32_MOD {
      OddCountsUp(t, min);
    } else {
      NextEnds(st, left, min);
      var c := GetDelay(st, left, min);
      if c.rem == 0 {
        assert EndsIn(c.st, 0, min, 0);
      } else {
        assert c == Call(Credit(0, min / 2), left, Some(min / 2));
        OddCountsUp(0, min);
      }
    }
  }

  /** With an even minimum size the target never moves. */
  lemma {:induction false} EvenIsStuck(target: u32, min: u32, n: nat)
    requires 1538 <= min <= 2000 && min % 2 == 0 && target + min / 2 < U32_MOD
    ensures !EndsIn(Credit(target, min / 2), min / 2, min, n)
    decreases n
  {
    if n > 0 {
      assert GetDelay(Credit(target, min / 2), min / 2, min) == Call(Credit(target, min / 2), min / 2, Some(min / 2));
      EvenIsStuck(target, min, n - 1);
    }
  }

  // ---- Minimum sizes above 2000 ----

  /** How far the sum of target and remainder moves with each call, modulo 2^32. */
  function Stride(min: u32): nat
    requires min > 2000
  {
    min + U32_MOD - 2 * MIN_SPLIT
  }

  /** One call after a padded one: the loop ends below 1538, or the sum of target and remainder strides on. */
  lemma BigStep(t: u32, min: u32)
    requires min > 2000
    ensures var (u, c) := ((t + min - MIN_SPLIT) % U32_MOD, GetDelay(Credit(t, MIN_SPLIT), min - MIN_SPLIT, min));
            if u < MIN_SPLIT then c.rem == 0
            else
              && c == Call(Credit(u - MIN_SPLIT, MIN_SPLIT), min - MIN_SPLIT, Some(MIN_SPLIT))
              && Congruent(u - MIN_SPLIT + min - MIN_SPLIT, t + min - MIN_SPLIT + Stride(min))
  {
    var v := t + min - MIN_SPLIT;
    var u := v % U32_MOD;
    assert v == u + U32_MOD * (v / U32_MOD);
    var w := u + min - 2 * MIN_SPLIT;
    Multiple(w, v / U32_MOD + 1);
    assert v + Stride(min) == w + U32_MOD * (v / U32_MOD + 1);
  }

  /** The loop ends as soon as a multiple of the stride brings the sum below 1538. */
  lemma {:induction false} BigEndsAfter(t: u32, min: u32, k: nat)
    requires min > 2000 && (t + min - MIN_SPLIT + k * Stride(min)) % U32_MOD < MIN_SPLIT
    ensures Ends(Credit(t, MIN_SPLIT), min - MIN_SPLIT, min)
    decreases k
  {
    var (st, left, s) := (Credit(t, MIN_SPLIT), min - MIN_SPLIT, Stride(min));
    BigStep(t, min);
    NextEnds(st, left, min);
    var c := GetDelay(st, left, min);
    if c.rem == 0 {
      assert EndsIn(c.st, 0, min, 0);
    } else {
      assert k > 0;
      CongruentSum(c.st.target + left, t + left + s, (k - 1) * s, (k - 1) * s);
      assert (k - 1) * s + s == k * s;
      BigEndsAfter(c.st.target, min, k - 1);
    }
  }

  /** When the stride is a multiple of 2048, the sum keeps its remainder modulo 2048. */
  lemma {:induction false} BigIsStuck(t: u32, min: u32, n: nat)
    requires min > 2000 && min % 2048 == 1028 && (t + min - MIN_SPLIT) % 2048 >= MIN_SPLIT
    ensures !EndsIn(Credit(t, MIN_SPLIT), min - MIN_SPLIT, min, n)
    decreases n
  {
    if n > 0 {
      BigStep(t, min);
      StrideKeepsRemainder(t + min - MIN_SPLIT, min);
      BigIsStuck((t + min - MIN_SPLIT) % U32_MOD - MIN_SPLIT, min, n - 1);
    }
  }

  lemma StrideKeepsRemainder(v: nat, min: u32)
    requires min > 2000 && min % 2048 == 1028 && v % 2048 >= MIN_SPLIT
    ensures v % U32_MOD >= MIN_SPLIT && (v % U32_MOD - MIN_SPLIT + min - MIN_SPLIT) % 2048 >= MIN_SPLIT
  {
    var u := v % U32_MOD;
    Modulo2048(u, 0x20_0000 * (v / U32_MOD));
    Modulo2048(u, min / 2048 - 1);
    assert v == u + 2048 * (0x20_0000 * (v / U32_MOD));
  }

  lemma Modulo2048(x: int, k: int)
    ensures (x + 2048 * k) % 2048 == x % 2048
  {
  }

  // ---- Every stride that is no multiple of 2048 reaches every window of 1024 ----

  predicate IsPow2(m: nat) { m == 1 || (m > 0 && m % 2 == 0 && IsPow2(m / 2)) }

  /** An odd number has an inverse modulo a power of two. */
  lemma {:induction false} Inverse(d: nat, m: nat) returns (x: nat, c: int)
    requires d % 2 == 1 && IsPow2(m)
    ensures d * x == 1 + c * m
    decreases m
  {
    if m == 1 {
      x, c := 1, d - 1;
    } else {
      x, c := Inverse(d, m / 2);
      if c % 2 != 0 {
        Distribute(d, x, m / 2);
        Distribute(m / 2, c, d);
        x, c := x + m / 2, c + d;
        assert d * x == 1 + c * (m / 2);
      }
      Halve(c, m);
      c := c / 2;
    }
  }

  lemma Distribute(a: int, b: int, c: int)
    ensures a * (b + c) == a * b + a * c
  {
  }

  lemma Halve(c: int, m: nat)
    requires c % 2 == 0 && m % 2 == 0
    ensures c * (m / 2) == (c / 2) * m
  {
    var (h, k) := (c / 2, m / 2);
    assert c == 2 * h && m == 2 * k;
    assert 2 * h * k == h * (2 * k);
  }

  lemma {:induction false} DoubleIsPow2(m: nat)
    requires IsPow2(m)
    ensures IsPow2(2 * m)
  {
  }

  lemma {:induction false} Pow2Product(m: nat, n: nat)
    requires IsPow2(m) && IsPow2(n)
    ensures IsPow2(m * n)
    decreases m
  {
    if m != 1 {
      var h := m / 2;
      Pow2Product(h, n);
      DoubleIsPow2(h * n);
      assert m * n == 2 * (h * n) by { assert m == h + h; Distribute(n, h, h); }
    }
  }

  lemma PowersOfTwo()
    ensures IsPow2(2048) && IsPow2(U32_MOD)
  {
    Pow2Product(0x1_0000, 0x1_0000);
  }

  /** A power of two up to `m` times an odd number, unless it is a multiple of `m`. */
  lemma {:induction false} OddPart(s: nat, m: nat) returns (g: nat, d: nat)
    requires IsPow2(m)
    ensures s == g * d && 0 < g && (g == m || (d % 2 == 1 && 2 * g <= m))
    decreases m
  {
    if m == 1 || s % 2 == 1 {
      g, d := 1, s;
    } else {
      g, d := OddPart(s / 2, m / 2);
      assert s == 2 * (g * d) == (2 * g) * d;
      g := 2 * g;
    }
  }

  lemma StrideParts(s: nat) returns (g: nat, d: nat)
    requires s % 2048 != 0
    ensures s == g * d && d % 2 == 1 && 0 < g <= 1024
  {
    PowersOfTwo();
    g, d := OddPart(s, 2048);
  }

  lemma StrideInverse(d: nat) returns (x: nat, c: int)
    requires d % 2 == 1
    ensures d * x == 1 + c * U32_MOD
  {
    PowersOfTwo();
    x, c := Inverse(d, U32_MOD);
  }

  /** Some multiple of the stride brings every sum below 1538. */
  lemma {:induction false} StrideReaches(u: nat, s: nat) returns (k: nat)
    requires s % 2048 != 0
    ensures (u + k * s) % U32_MOD < MIN_SPLIT
  {
    var g, d := StrideParts(s);
    var x, c := StrideInverse(d);
    var u0 := u % U32_MOD;
    var j := (U32_MOD - u0 + g - 1) / g;
    CeilBounds(U32_MOD - u0, g);
    k := j * x;
    StrideLands(u, s, g, d, x, c, j);
  }

  lemma StrideLands(u: nat, s: nat, g: nat, d: nat, x: nat, c: int, j: nat)
    requires s == g * d && d * x == 1 + c * U32_MOD
    requires U32_MOD - u % U32_MOD <= j * g < U32_MOD - u % U32_MOD + g && g <= 1024
    ensures (u + j * x * s) % U32_MOD < MIN_SPLIT
  {
    var jg := j * g;
    Reorder(j, x, g, d);
    Distribute(jg, 1, c * U32_MOD);
    Reassociate(jg, c, U32_MOD);
    assert j * x * s == jg + U32_MOD * (jg * c);
    LandsAt(u, jg, jg * c);
  }

  lemma LandsAt(u: nat, jg: nat, q: int)
    requires U32_MOD <= u % U32_MOD + jg < U32_MOD + 1024
    ensures (u + (jg + U32_MOD * q)) % U32_MOD < MIN_SPLIT
  {
    var (over, p) := (u % U32_MOD + jg - U32_MOD, q + u / U32_MOD + 1);
    Multiple(over, p);
    assert u + (jg + U32_MOD * q) == over + U32_MOD * p;
  }

  lemma CeilBounds(a: nat, g: nat)
    requires g > 0
    ensures var j := (a + g - 1) / g; a <= j * g < a + g
  {
    var b := a + g - 1;
    assert b == g * (b / g) + b % g;
  }

  lemma Reorder(j: nat, x: nat, g: nat, d: nat)
    ensures (j * x) * (g * d) == (j * g) * (d * x)
  {
    assert (j * x) * (g * d) == ((j * x) * g) * d == ((j * g) * x) * d == (j * g) * (x * d);
  }

  lemma Reassociate(a: int, c: int, m: int)
    ensures a * (c * m) == m * (a * c)
  {
  }

  // ---- The exact condition ----

  lemma BigEnds(t: u32, min: u32)
    requires min > 2000 && min % 2048 != 1028
    ensures Ends(Credit(t, MIN_SPLIT), min - MIN_SPLIT, min)
  {
    assert Stride(min) % 2048 != 0;
    var k := StrideReaches(t + min - MIN_SPLIT, Stride(min));
    BigEndsAfter(t, min, k);
  }

  lemma GoodMinimumEnds(st: Credit, delay: u32, min: u32)
    requires AlwaysEnds(min)
    ensures Ends(st, delay, min)
  {
    if min <= 1537 {
      SmallMinimumEnds(st, delay, min);
    } else if min <= 2000 {
      forall t: u32 ensures Ends(Credit(t, min / 2), min - min / 2, min) { OddEnds(t, min); }
      EndsAfterPadding(st, delay, min, min / 2, min - min / 2);
    } else {
      forall t: u32 ensures Ends(Credit(t, MIN_SPLIT), min - MIN_SPLIT, min) { BigEnds(t, min); }
      EndsAfterPadding(st, delay, min, MIN_SPLIT, min - MIN_SPLIT);
    }
  }

  /**
   * With every other minimum size a short delay keeps a fresh limiter going for ever: any delay below an
   * even minimum size up to 2000, and any that is less than 510 past a multiple of 2048 above.
   */
  lemma BadMinimumNeverEnds(min: u32, delay: u32)
    requires !AlwaysEnds(min) && 0 < delay < min && (min > 2000 ==> delay % 2048 < 510)
    ensures !Ends(Credit(0, 0), delay, min)
  {
    var c := GetDelay(Credit(0, 0), delay, min);
    NextEnds(Credit(0, 0), delay, min);
    if min <= 2000 {
      assert c == Call(Credit(delay, min / 2), min / 2, Some(min / 2));
      forall n: nat ensures !EndsIn(c.st, c.rem, min, n) { EvenIsStuck(delay, min, n); }
    } else {
      assert c == Call(Credit(delay, MIN_SPLIT), min - MIN_SPLIT, Some(MIN_SPLIT));
      Modulo2048(delay % 2048 + MIN_SPLIT, min / 2048 + delay / 2048 - 1);
      forall n: nat ensures !EndsIn(c.st, c.rem, min, n) { BigIsStuck(delay, min, n); }
    }
  }

  /** The inner loop ends for all accumulators and delays exactly when the minimum size is a good one. */
  lemma LoopEndsIff(min: u32)
    ensures AlwaysEnds(min) <==> forall st: Credit, delay: u32 :: Ends(st, delay, min)
    ensures !AlwaysEnds(min) ==> !Ends(Credit(0, 0), 1, min)
  {
    if AlwaysEnds(min) {
      forall st: Credit, delay: u32 ensures Ends(st, delay, min) { GoodMinimumEnds(st, delay, min); }
    } else {
      BadMinimumNeverEnds(min, 1);
    }
  }

  /** So does the whole send, for all packets. */
  lemma {:induction false} GoodMinimumSends(st: Credit, ps: seq<Packet>, min: u32)
    requires AlwaysEnds(min)
    ensures SendEnds(st, ps, min)
    decreases |ps|
  {
    if ps != [] {
      GoodMinimumEnds(st, GapOf(ps[0]), min);
      GoodMinimumSends(DelayLoop(st, GapOf(ps[0]), min).0, ps[1..], min);
    }
  }
}
