/** Byte shifts and masks, and what they do to the number that a big-endian byte sequence spells. */
module PackingMath {
  import opened Bytes

  type bit = k: nat | k < 8

  function Shl(x: byte, k: nat): byte {
    x * Pow2(k) % 256
  }

  function Shr(x: byte, k: nat): (r: byte)
    ensures r <= x
  {
    DivShrinks(x, Pow2(k));
    x / Pow2(k)
  }

  lemma DivShrinks(x: nat, d: nat)
    requires d > 0
    ensures 0 <= x / d <= x
  {
    assert x == d * (x / d) + x % d;
    MulMono(x / d, 1, d);
  }

  lemma Unshifted(x: byte)
    ensures Shr(x, 0) == x && Shl(x, 8) == 0
  {
    Pow2Of32();
    assert Pow2(0) == 1;
  }

  /** HEAD_MASK: the bits from `s` down. */
  function HeadMask(s: bit): nat {
    Pow2(s + 1) - 1
  }

  function Masked(x: byte, s: bit): (r: byte)
    ensures r <= x
  {
    BitAndShrinks(x, HeadMask(s));
    BitAnd(x, HeadMask(s))
  }

  function Or(a: byte, b: byte): byte {
    Pow2Of32();
    BitOrBound(a, b, 8);
    BitOr(a, b)
  }

  lemma {:induction false} BitOrBound(a: nat, b: nat, k: nat)
    requires a < Pow2(k) && b < Pow2(k)
    ensures BitOr(a, b) < Pow2(k)
  {
    if k > 0 && (a != 0 || b != 0) {
      BitOrBound(a / 2, b / 2, k - 1);
    }
  }

  lemma {:induction false} BitAndLow(a: nat, k: nat)
    ensures BitAnd(a, Pow2(k) - 1) == a % Pow2(k)
  {
    if k == 0 {
      BitAndZero(a);
    } else if a != 0 {
      BitAndLow(a / 2, k - 1);
      assert (Pow2(k) - 1) / 2 == Pow2(k - 1) - 1;
      ModDouble(a, Pow2(k - 1));
    } else {
      DivModUnique(0, Pow2(k), 0, 0);
    }
  }

  lemma {:induction false} BitAndZero(a: nat)
    ensures BitAnd(a, 0) == 0
  {
    if a != 0 {
      BitAndZero(a / 2);
    }
  }

  lemma MaskedIs(x: byte, s: bit)
    ensures Masked(x, s) == x % Pow2(s + 1)
  {
    BitAndLow(x, s + 1);
  }

  /** The two halves a shift splits a byte into. */
  lemma ByteSplit(e: nat)
    requires e <= 8
    ensures Pow2(e) * Pow2(8 - e) == 256
  {
    Pow2Add(e, 8 - e);
    Pow2Of32();
  }

  lemma ShlKeepsLow(x: byte, k: nat)
    requires k <= 8
    ensures Shl(x, k) == x % Pow2(8 - k) * Pow2(k)
    ensures x * Pow2(k) == 256 * (x / Pow2(8 - k)) + Shl(x, k)
  {
    ByteSplit(k);
    SplitProduct(x, Pow2(k), Pow2(8 - k));
  }

  lemma SplitProduct(x: nat, p: nat, q: nat)
    requires p * q == 256 && p > 0 && q > 0
    ensures x * p % 256 == x % q * p
    ensures x * p == 256 * (x / q) + x % q * p
  {
    var h, r := x / q, x % q;
    assert x == q * h + r;
    MulAcross(p, q, h);
    assert x * p == 256 * h + r * p by {
      assert (q * h + r) * p == q * h * p + r * p;
    }
    MulLess(r, q, p);
    DivModUnique(x * p, 256, h, r * p);
  }

  lemma MulAcross(p: nat, q: nat, h: nat)
    requires p * q == 256
    ensures q * h * p == 256 * h
  {
    assert q * h * p == p * q * h;
  }

  lemma MulLess(a: nat, b: nat, d: nat)
    requires a < b && d > 0
    ensures a * d < b * d
  {
    MulGap(d, a, b);
  }

  lemma OrOfParts(a: byte, b: byte, h: nat, k: nat)
    requires b < Pow2(k) && a == h * Pow2(k)
    ensures Or(a, b) == a + b
  {
    BitOrDisjoint(b, h, k);
    BitOrCommutes(b, a);
  }

  lemma SmallQuotient(x: byte, p: nat, q: nat)
    requires p * q == 256 && p > 0
    ensures x / p < q
  {
    assert x == p * (x / p) + x % p;
    if x / p >= q {
      MulMono(p, q, x / p);
    }
  }

  // ---- Big-endian numbers ----

  lemma {:induction false} BeFront(s: seq<byte>)
    requires |s| > 0
    ensures BeVal(s) == s[0] * Pow2(8 * (|s| - 1)) + BeVal(s[1..])
  {
    if |s| > 1 {
      var t := s[..|s| - 1];
      BeFront(t);
      assert t[1..] == s[1..][..|s| - 2];
      Pow2Byte(|s| - 1);
      assert s[0] * (256 * Pow2(8 * (|s| - 2))) == 256 * (s[0] * Pow2(8 * (|s| - 2)));
    }
  }

  lemma {:induction false} BeBound(s: seq<byte>)
    ensures BeVal(s) < Pow2(8 * |s|)
  {
    if |s| > 0 {
      BeBound(s[..|s| - 1]);
      Pow2Byte(|s|);
    }
  }

  // ---- OR and masks ----

  lemma OrZero(x: byte)
    ensures Or(x, 0) == x && Or(0, x) == x
  {
    BitOrZero(x);
  }

  lemma {:induction false} MaskOfOr(a: nat, b: nat, m: nat)
    ensures BitAnd(BitOr(a, b), m) == BitOr(BitAnd(a, m), BitAnd(b, m))
  {
    if a != 0 || b != 0 {
      MaskOfOr(a / 2, b / 2, m / 2);
    }
  }

  // ---- Reducing modulo powers of two ----

  /** Reducing modulo a multiple first changes nothing. */
  lemma ModOfMod(v: nat, n: nat, k: nat)
    requires n > 0 && k > 0
    ensures n * k > 0 && v % (n * k) % n == v % n
  {
    MulMono(n, 1, k);
    assert v == n * k * (v / (n * k)) + v % (n * k);
    ModOfParts(v, n, k, v / (n * k), v % (n * k));
  }

  lemma ModOfParts(v: nat, n: nat, k: nat, q: nat, r: nat)
    requires n > 0 && v == n * k * q + r
    ensures v % n == r % n
  {
    assert n * k * q == n * (k * q);
    ModOfSum(v, n, k * q, r);
  }

  function Mod(x: byte, d: nat): (r: byte)
    requires d > 0
    ensures r < d && r <= x
  {
    assert x == d * (x / d) + x % d;
    DivShrinks(x, d);
    MulMono(0, d, d);
    x % d
  }

  lemma ModOfSum(v: nat, n: nat, k: nat, r: nat)
    requires n > 0 && v == n * k + r
    ensures v % n == r % n
  {
    assert r == n * (r / n) + r % n;
    assert n * (k + r / n) == n * k + n * (r / n);
    DivModUnique(v, n, k + r / n, r % n);
  }

  lemma ModOfProduct(v: nat, p: nat, n: nat)
    requires n > 0
    ensures v % n * p % n == v * p % n
  {
    var q, r := v / n, v % n;
    assert v == n * q + r;
    assert v * p == n * (q * p) + r * p by {
      assert (n * q + r) * p == n * q * p + r * p;
      assert n * q * p == n * (q * p);
    }
    ModOfSum(v * p, n, q * p, r * p);
  }

  /** Shifting up, keeping a width and shifting down again keeps a narrower width. */
  lemma UpAndDown(v: nat, p: nat, n: nat)
    requires n > 0 && p > 0
    ensures p * n > 0 && v * p % (p * n) / p == v % n
  {
    MulMono(p, 1, n);
    var q, r := v / n, v % n;
    assert v == n * q + r;
    assert v * p == p * n * q + p * r by {
      assert (n * q + r) * p == n * q * p + r * p;
      assert n * q * p == p * n * q;
    }
    MulGap(p, r, n);
    DivModUnique(v * p, p * n, q, p * r);
    DivModUnique(p * r, p, r, 0);
  }

  lemma LastDigit(v: nat, b: byte, w: nat)
    requires w > 0
    ensures (256 * v + b) % (256 * w) == 256 * (v % w) + b
  {
    var q, r := v / w, v % w;
    assert v == w * q + r;
    assert 256 * w * q == 256 * (w * q);
    DivModUnique(256 * v + b, 256 * w, q, 256 * r + b);
  }

  /** How many bits a field has that begins at bit `start` of its first byte and ends at bit `end` of its last. */
  function FieldWidth(m: nat, start: bit, end: bit): nat
    requires m > 0 && (m > 1 || start >= end)
  {
    8 * (m - 1) + start + 1 - end
  }
}
