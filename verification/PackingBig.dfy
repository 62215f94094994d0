/** Big-endian fields that begin and end inside bytes: reading one is shifting and masking the whole number. */
module PackingBig {
  import opened Bytes
  import opened PackingMath

  /** The modulus of a field of `m` bytes that begins at bit `start`. */
  function FieldModulus(m: nat, start: bit): (n: nat)
    requires m > 0
    ensures n > 0
  {
    Pow2(8 * (m - 1) + start + 1)
  }

  function HeadMasked(s: seq<byte>, start: bit): (r: seq<byte>)
    requires |s| > 0
    ensures |r| == |s|
  {
    s[0 := Masked(s[0], start)]
  }

  /** Every byte takes the low bits of the byte before it. */
  function ShiftRight(m: seq<byte>, e: bit): (r: seq<byte>)
    ensures |r| == |m|
  {
    seq(|m|, i requires 0 <= i < |m| => if i == 0 then Shr(m[0], e) else Or(Shl(m[i - 1], 8 - e), Shr(m[i], e)))
  }

  /** The bytes that align_field_bits writes: none for a first byte that the field does not reach. */
  function Aligned(input: seq<byte>, start: bit, end: bit): (r: seq<byte>)
    requires |input| > 0
  {
    var all := ShiftRight(HeadMasked(input, start), end);
    if start < end then all[1..] else all
  }

  /** Aligns a field at the end of the output. */
  method AlignFieldBits(input: seq<byte>, output: array<byte>, start: bit, end: bit)
    requires |input| > 0 && output.Length > 0 && (|input| > 1 || start >= end)
    requires output.Length >= |Aligned(input, start, end)|
    modifies output
    ensures output[..] == old(output[..])[..output.Length - |Aligned(input, start, end)|] + Aligned(input, start, end)
  {
    var iLen, oLen := |input|, output.Length;
    ghost var was := output[..];
    if iLen == 1 {
      output[oLen - 1] := Shr(Masked(input[0], start), end);
      assert output[..] == was[..oLen - 1] + [output[oLen - 1]];
    } else if end == 0 {
      var oStart := oLen - iLen;
      CopyAt(output, oStart, input);
      if start != 7 {
        output[oStart] := Masked(output[oStart], start);
      }
      WholeByteMask(input[0]);
      UnshiftedIs(HeadMasked(input, start));
    } else if start >= end {
      AlignKeeping(input, output, start, end);
    } else {
      AlignShrinking(input, output, start, end);
    }
  }

  method CopyAt(output: array<byte>, at: nat, s: seq<byte>)
    requires at + |s| == output.Length
    modifies output
    ensures output[..] == old(output[..])[..at] + s
  {
    forall k | 0 <= k < |s| {
      output[at + k] := s[k];
    }
  }

  method AlignKeeping(input: seq<byte>, output: array<byte>, start: bit, end: bit)
    requires output.Length >= |input| > 1 && start >= end > 0
    modifies output
    ensures output[..] == old(output[..])[..output.Length - |input|] + Aligned(input, start, end)
  {
    var oStart := output.Length - |input|;
    ghost var was := output[..];
    ghost var all := ShiftRight(HeadMasked(input, start), end);
    var i := 0;
    while i < |input|
      invariant i <= |input|
      invariant forall k | 0 <= k < oStart :: output[k] == was[k]
      invariant forall k | 0 <= k < i :: output[oStart + k] == all[k]
    {
      output[oStart + i] :=
        if i == 0 then Shr(Masked(input[0], start), end)
        else if i == 1 then Or(Shl(Masked(input[0], start), 8 - end), Shr(input[1], end))
        else Or(Shl(input[i - 1], 8 - end), Shr(input[i], end));
      i := i + 1;
    }
    BackReplaced(output[..], was, all, oStart);
  }

  method AlignShrinking(input: seq<byte>, output: array<byte>, start: bit, end: bit)
    requires output.Length >= |input| - 1 && |input| > 1 && start < end
    modifies output
    ensures output[..] == old(output[..])[..output.Length - (|input| - 1)] + Aligned(input, start, end)
  {
    var oStart := output.Length - (|input| - 1);
    ghost var was := output[..];
    ghost var all := ShiftRight(HeadMasked(input, start), end);
    var i := 1;
    while i < |input|
      invariant 1 <= i <= |input|
      invariant forall k | 0 <= k < oStart :: output[k] == was[k]
      invariant forall k | 1 <= k < i :: output[oStart + k - 1] == all[k]
    {
      output[oStart + i - 1] :=
        if i == 1 then Or(Shl(Masked(input[0], start), 8 - end), Shr(input[1], end))
        else Or(Shl(input[i - 1], 8 - end), Shr(input[i], end));
      i := i + 1;
    }
    BackReplaced(output[..], was, all[1..], oStart);
  }

  lemma BackReplaced(s: seq<byte>, was: seq<byte>, back: seq<byte>, n: nat)
    requires n <= |was| == |s| == n + |back|
    requires (forall k | 0 <= k < n :: s[k] == was[k]) && (forall k | 0 <= k < |back| :: s[n + k] == back[k])
    ensures s == was[..n] + back
  {
  }

  lemma WholeByteMask(x: byte)
    ensures Masked(x, 7) == x
  {
    MaskedIs(x, 7);
    Pow2Of32();
  }

  lemma UnshiftedIs(m: seq<byte>)
    ensures ShiftRight(m, 0) == m
  {
    forall i | 0 <= i < |m| ensures ShiftRight(m, 0)[i] == m[i] {
      Unshifted(m[i]);
      if i > 0 {
        Unshifted(m[i - 1]);
        OrZero(m[i]);
      }
    }
  }

  // ---- What aligning computes ----

  lemma DivStep(v: nat, b: nat, p: nat, q: nat)
    requires p * q == 256 && p > 0
    ensures (256 * v + b) / p == 256 * (v / p) + v % p * q + b / p
  {
    assert v == p * (v / p) + v % p && b == p * (b / p) + b % p;
    DivOfParts(v, b, p, q, v / p, v % p, b / p, b % p);
  }

  lemma DivOfParts(v: nat, b: nat, p: nat, q: nat, h: nat, r: nat, g: nat, s: nat)
    requires p * q == 256 && v == p * h + r && b == p * g + s && s < p
    ensures (256 * v + b) / p == 256 * h + r * q + g
  {
    DivParts(v, b, p, q, h, r, g, s);
    DivModUnique(256 * v + b, p, 256 * h + r * q + g, s);
  }

  lemma DivParts(v: nat, b: nat, p: nat, q: nat, h: nat, r: nat, g: nat, s: nat)
    requires p * q == 256 && v == p * h + r && b == p * g + s
    ensures 256 * v + b == p * (256 * h + r * q + g) + s
  {
    MulAcross(q, p, r);
    assert p * (r * q) == p * q * r;
    assert p * (256 * h) == 256 * (p * h);
    assert p * (256 * h + r * q + g) == p * (256 * h) + p * (r * q) + p * g;
  }

  /** The low bits of a number are those of its last byte. */
  lemma LowBits(s: seq<byte>, e: bit)
    requires |s| > 0
    ensures BeVal(s) % Pow2(e) == s[|s| - 1] % Pow2(e)
  {
    ByteSplit(e);
    LowOfSum(BeVal(s[..|s| - 1]), s[|s| - 1], Pow2(e), Pow2(8 - e));
  }

  lemma LowOfSum(v: nat, b: nat, p: nat, q: nat)
    requires p * q == 256 && p > 0
    ensures (256 * v + b) % p == b % p
  {
    assert b == p * (b / p) + b % p;
    MulAcross(q, p, v);
    assert p * (q * v + b / p) == p * q * v + p * (b / p);
    DivModUnique(256 * v + b, p, q * v + b / p, b % p);
  }

  lemma ShiftedByte(high: byte, low: byte, e: bit)
    ensures Or(Shl(high, 8 - e), Shr(low, e)) == high % Pow2(e) * Pow2(8 - e) + low / Pow2(e)
  {
    ShlKeepsLow(high, 8 - e);
    ByteSplit(e);
    SmallQuotient(low, Pow2(e), Pow2(8 - e));
    OrOfParts(Shl(high, 8 - e), Shr(low, e), high % Pow2(e), 8 - e);
  }

  lemma {:induction false} ShiftRightIs(m: seq<byte>, e: bit)
    ensures BeVal(ShiftRight(m, e)) == BeVal(m) / Pow2(e)
  {
    var n := |m|;
    if n == 0 {
      DivModUnique(0, Pow2(e), 0, 0);
    } else if n == 1 {
      OneByte(m[0]);
      OneByte(Shr(m[0], e));
      assert m == [m[0]] && ShiftRight(m, e) == [Shr(m[0], e)];
    } else {
      ShiftRightIs(m[..n - 1], e);
      ShiftLast(m, e);
    }
  }

  lemma OneByte(x: byte)
    ensures BeVal([x]) == x
  {
    assert BeVal([x][..0]) == 0;
  }

  lemma ShiftLast(m: seq<byte>, e: bit)
    requires |m| > 1 && BeVal(ShiftRight(m[..|m| - 1], e)) == BeVal(m[..|m| - 1]) / Pow2(e)
    ensures BeVal(ShiftRight(m, e)) == BeVal(m) / Pow2(e)
  {
    var n := |m|;
    var front := m[..n - 1];
    ShiftedEnds(m, e);
    LowBits(front, e);
    ByteSplit(e);
    BeLast(m);
    ShiftedSum(BeVal(ShiftRight(m, e)), BeVal(ShiftRight(front, e)), BeVal(m), BeVal(front), m[n - 2], m[n - 1],
               Pow2(e), Pow2(8 - e));
  }

  lemma ShiftedSum(shifted: nat, front: nat, whole: nat, v: nat, x: nat, b: nat, p: nat, q: nat)
    requires p * q == 256 && p > 0 && v % p == x % p && front == v / p
    requires shifted == 256 * front + (x % p * q + b / p) && whole == 256 * v + b
    ensures shifted == whole / p
  {
    DivStep(v, b, p, q);
  }

  lemma ShiftedEnds(m: seq<byte>, e: bit)
    requires |m| > 1
    ensures BeVal(ShiftRight(m, e)) ==
      256 * BeVal(ShiftRight(m[..|m| - 1], e)) + (m[|m| - 2] % Pow2(e) * Pow2(8 - e) + m[|m| - 1] / Pow2(e))
  {
    var n := |m|;
    ShiftedByte(m[n - 2], m[n - 1], e);
    ShiftRightFront(m, e);
    BeLast(ShiftRight(m, e));
  }

  lemma ShiftRightFront(m: seq<byte>, e: bit)
    requires |m| > 0
    ensures ShiftRight(m, e)[..|m| - 1] == ShiftRight(m[..|m| - 1], e)
  {
  }

  lemma BeLast(s: seq<byte>)
    requires |s| > 0
    ensures BeVal(s) == 256 * BeVal(s[..|s| - 1]) + s[|s| - 1]
  {
  }

  /** Masking the first byte keeps the number modulo the field's width. */
  lemma HeadMaskedIs(s: seq<byte>, start: bit)
    requires |s| > 0
    ensures BeVal(HeadMasked(s, start)) == BeVal(s) % FieldModulus(|s|, start)
  {
    MaskedIs(s[0], start);
    HeadParts(s, start);
    ModulusIs(|s|, start);
    HeadSum(BeVal(HeadMasked(s, start)), BeVal(s), s[0], Masked(s[0], start), Pow2(start + 1), Pow2(8 * (|s| - 1)),
            BeVal(s[1..]), FieldModulus(|s|, start));
  }

  lemma HeadParts(s: seq<byte>, start: bit)
    requires |s| > 0
    ensures BeVal(HeadMasked(s, start)) == Masked(s[0], start) * Pow2(8 * (|s| - 1)) + BeVal(s[1..])
    ensures BeVal(s) == s[0] * Pow2(8 * (|s| - 1)) + BeVal(s[1..]) && BeVal(s[1..]) < Pow2(8 * (|s| - 1))
  {
    var m := HeadMasked(s, start);
    BeFront(s);
    BeFront(m);
    assert m[1..] == s[1..];
    BeBound(s[1..]);
  }

  lemma ModulusIs(m: nat, start: bit)
    requires m > 0
    ensures FieldModulus(m, start) == Pow2(8 * (m - 1)) * Pow2(start + 1)
  {
    Pow2Add(8 * (m - 1), start + 1);
    assert 8 * (m - 1) + start + 1 == 8 * (m - 1) + (start + 1);
  }

  lemma HeadSum(masked: nat, v: nat, x: nat, y: nat, a: nat, w: nat, r: nat, n: nat)
    requires a > 0 && r < w && n == w * a && n > 0 && v == x * w + r && y == x % a && masked == y * w + r
    ensures masked == v % n
  {
    ModSplit(x, a, w, r);
  }

  /** A number below `w` is not touched by reducing the digits above it. */
  lemma ModSplit(x: nat, a: nat, w: nat, r: nat)
    requires a > 0 && r < w
    ensures w * a > 0 && (x * w + r) % (w * a) == x % a * w + r
  {
    var h, l := x / a, x % a;
    assert x == a * h + l;
    MulGap(w, l, a);
    assert (a * h + l) * w == w * a * h + l * w by {
      assert (a * h + l) * w == a * h * w + l * w;
      assert a * h * w == w * a * h;
    }
    assert w * l == l * w;
    DivModUnique(x * w + r, w * a, h, l * w + r);
  }

  /** Reading a field: the number of its bytes, without the bits above `start` and below `end`. */
  lemma AlignedIs(input: seq<byte>, start: bit, end: bit)
    requires |input| > 0 && (|input| > 1 || start >= end)
    ensures BeVal(Aligned(input, start, end)) == BeVal(input) % FieldModulus(|input|, start) / Pow2(end)
  {
    var m := HeadMasked(input, start);
    var all := ShiftRight(m, end);
    HeadMaskedIs(input, start);
    ShiftRightIs(m, end);
    if start < end {
      FirstByteGone(input[0], start, end);
      BeFront(all);
    }
  }

  /** A field that ends before its first byte begins leaves nothing of that byte. */
  lemma FirstByteGone(x: byte, start: bit, end: bit)
    requires start < end
    ensures Shr(Masked(x, start), end) == 0
  {
    MaskedIs(x, start);
    Pow2Grows(start + 1, end);
    DivModUnique(Masked(x, start), Pow2(end), 0, Masked(x, start));
  }

  // ---- Writing a field ----

  /** The last `m` bytes of a number, with zeros before it if it is shorter. */
  function Ext(input: seq<byte>, m: nat): (x: seq<byte>)
    ensures |x| == m
  {
    seq(m, k requires 0 <= k < m => if m - k <= |input| then input[|input| - (m - k)] else 0)
  }

  /** The part of byte `k` that comes from the number's own byte there, and the part from the byte after it. */
  function Current(x: seq<byte>, k: nat, start: bit, end: bit): byte
    requires k < |x|
  {
    if k == 0 then Masked(Shl(x[k], end), start) else Shl(x[k], end)
  }

  function Overflow(x: seq<byte>, k: nat, start: bit, end: bit): byte
    requires k < |x|
  {
    if k + 1 == |x| then 0 else if k == 0 then Masked(Shr(x[k + 1], 8 - end), start) else Shr(x[k + 1], 8 - end)
  }

  /** The bytes of the output after restore_field_bits. */
  function Restored(was: seq<byte>, input: seq<byte>, start: bit, end: bit): (r: seq<byte>)
    requires |was| > 0 && |input| > 0
    ensures |r| == |was|
  {
    var m, x := |was|, Ext(input, |was|);
    if end == 0 then
      var first := if |input| < m then m - |input| else 0;
      seq(m, k requires 0 <= k < m =>
        if k < first then was[k] else if k == first then Or(was[k], Masked(x[k], start)) else x[k])
    else
      seq(m, k requires 0 <= k < m => Or(Or(was[k], Current(x, k, start, end)), Overflow(x, k, start, end)))
  }

  method RestoreFieldBits(input: seq<byte>, output: array<byte>, start: bit, end: bit)
    requires |input| > 0 && output.Length > 0 && (output.Length > 1 || start >= end)
    modifies output
    ensures output[..] == Restored(old(output[..]), input, start, end)
  {
    var iLen, oLen := |input|, output.Length;
    if end == 0 {
      var nBytes := if oLen < iLen then oLen else iLen;
      output[oLen - nBytes] := Or(output[oLen - nBytes], Masked(input[iLen - nBytes], start));
      forall k | oLen - nBytes + 1 <= k < oLen {
        output[k] := input[iLen - (oLen - k)];
      }
    } else {
      RestoreShifted(input, output, start, end);
    }
  }

  method RestoreShifted(input: seq<byte>, output: array<byte>, start: bit, end: bit)
    requires |input| > 0 && output.Length > 0 && end > 0
    modifies output
    ensures output[..] == Restored(old(output[..]), input, start, end)
  {
    var nBytes := if |input| < output.Length then |input| else output.Length;
    var iStart, oStart := |input| - nBytes, output.Length - nBytes;
    ghost var was, x := output[..], Ext(input, output.Length);
    var i := 0;
    UntouchedBytes(was, x, oStart, start, end);
    while i < nBytes
      invariant i <= nBytes
      invariant forall k | 0 <= k < output.Length :: output[k] == Partly(was, x, k, oStart + i, start, end)
    {
      assert input[iStart + i] == x[oStart + i];
      RestoreByte(output, oStart + i, input[iStart + i], start, end);
      i := i + 1;
    }
    forall k | 0 <= k < output.Length ensures output[k] == Restored(was, input, start, end)[k] {
      OrZero(Or(was[k], Current(x, k, start, end)));
    }
  }

  /** One pass of the loop: byte `o` of the number goes to the output's bytes `o` and `o - 1`. */
  method RestoreByte(output: array<byte>, o: nat, b: byte, start: bit, end: bit)
    requires o < output.Length
    modifies output
    ensures forall k | 0 <= k < output.Length && k != o && k + 1 != o :: output[k] == old(output[k])
    ensures output[o] == Or(old(output[o]), if o == 0 then Masked(Shl(b, end), start) else Shl(b, end))
    ensures o > 0 ==>
      output[o - 1] == Or(old(output[o - 1]), if o == 1 then Masked(Shr(b, 8 - end), start) else Shr(b, 8 - end))
  {
    if o == 0 {
      output[o] := Or(output[o], Masked(Shl(b, end), start));
    } else {
      output[o] := Or(output[o], Shl(b, end));
    }
    if o == 1 {
      output[o - 1] := Or(output[o - 1], Masked(Shr(b, 8 - end), start));
    } else if o > 1 {
      output[o - 1] := Or(output[o - 1], Shr(b, 8 - end));
    }
  }

  /** Byte `k` once the bytes of the number before position `upto` are in. */
  function Partly(was: seq<byte>, x: seq<byte>, k: nat, upto: nat, start: bit, end: bit): byte
    requires k < |was| == |x|
  {
    if k + 1 < upto then Or(Or(was[k], Current(x, k, start, end)), Overflow(x, k, start, end))
    else if k < upto then Or(was[k], Current(x, k, start, end))
    else was[k]
  }

  lemma UntouchedBytes(was: seq<byte>, x: seq<byte>, oStart: nat, start: bit, end: bit)
    requires |was| == |x| && oStart < |x| && forall k | 0 <= k < oStart :: x[k] == 0
    ensures forall k | 0 <= k < |was| :: Partly(was, x, k, oStart, start, end) == was[k]
  {
    forall k | 0 <= k < oStart ensures Partly(was, x, k, oStart, start, end) == was[k] {
      ZeroShifts(end, start);
      OrZero(was[k]);
    }
  }

  lemma ZeroShifts(end: bit, start: bit)
    ensures Shl(0, end) == 0 && Shr(0, 8 - end) == 0 && Masked(0, start) == 0
  {
    DivModUnique(0, Pow2(8 - end), 0, 0);
  }

  // ---- What restoring computes ----

  /** Every byte takes the high bits of the byte after it. */
  function ShiftLeft(x: seq<byte>, e: bit): (r: seq<byte>)
    ensures |r| == |x|
  {
    seq(|x|, k requires 0 <= k < |x| => Or(Shl(x[k], e), if k + 1 < |x| then Shr(x[k + 1], 8 - e) else 0))
  }

  lemma ShiftedInto(input: seq<byte>, m: nat, start: bit, end: bit)
    requires |input| > 0 && m > 0 && end > 0
    ensures Restored(Zeros(m), input, start, end) == HeadMasked(ShiftLeft(Ext(input, m), end), start)
  {
    var x := Ext(input, m);
    forall k | 0 <= k < m
      ensures Restored(Zeros(m), input, start, end)[k] == HeadMasked(ShiftLeft(x, end), start)[k]
    {
      OrZero(Current(x, k, start, end));
      if k == 0 {
        MaskOfOr(Shl(x[0], end), if 1 < m then Shr(x[1], 8 - end) else 0, HeadMask(start));
        BitAndShrinks(0, HeadMask(start));
      }
    }
  }

  lemma CarryStep(sl: nat, slr: nat, v: nat, vr: nat, x0: nat, y: nat, a: nat, b: nat, c: nat, p: nat, w: nat, w1: nat)
    requires w1 == 256 * w && x0 * p == 256 * c + a
    requires y == a + b && sl == y * w + slr && slr + b * w == vr * p && v == x0 * w + vr
    ensures sl + c * w1 == v * p
  {
    assert (a + b) * w == a * w + b * w;
    assert c * (256 * w) == 256 * c * w;
    assert (256 * c + a) * w == 256 * c * w + a * w;
    assert (x0 * w + vr) * p == x0 * w * p + vr * p;
    assert x0 * w * p == x0 * p * w;
  }

  /** Shifting left multiplies; what is shifted out of the first byte is lost. */
  lemma {:induction false} ShiftLeftIs(x: seq<byte>, e: bit)
    requires |x| > 0 && e > 0
    ensures BeVal(ShiftLeft(x, e)) + Shr(x[0], 8 - e) * Pow2(8 * |x|) == BeVal(x) * Pow2(e)
  {
    if |x| == 1 {
      ShiftLeftByte(x[0], e);
      assert x == [x[0]];
    } else {
      ShiftLeftIs(x[1..], e);
      ShiftLeftEnds(x, e);
      BeFront(x);
      Pow2Byte(|x|);
      ShlSplits(x[0], e);
      CarryStep(BeVal(ShiftLeft(x, e)), BeVal(ShiftLeft(x[1..], e)), BeVal(x), BeVal(x[1..]), x[0],
                ShiftLeft(x, e)[0], Shl(x[0], e), Shr(x[1], 8 - e), Shr(x[0], 8 - e), Pow2(e), Pow2(8 * (|x| - 1)),
                Pow2(8 * |x|));
    }
  }

  lemma ShlSplits(x: byte, e: bit)
    ensures x * Pow2(e) == 256 * Shr(x, 8 - e) + Shl(x, e)
  {
    ShlKeepsLow(x, e);
  }

  lemma ShiftLeftByte(x: byte, e: bit)
    ensures BeVal(ShiftLeft([x], e)) + Shr(x, 8 - e) * Pow2(8) == BeVal([x]) * Pow2(e)
  {
    OneByte(x);
    OneByte(Shl(x, e));
    OrZero(Shl(x, e));
    assert ShiftLeft([x], e) == [Shl(x, e)];
    ShlSplits(x, e);
    Pow2Of32();
  }

  lemma ShiftLeftEnds(x: seq<byte>, e: bit)
    requires |x| > 1 && e > 0
    ensures BeVal(ShiftLeft(x, e)) == ShiftLeft(x, e)[0] * Pow2(8 * (|x| - 1)) + BeVal(ShiftLeft(x[1..], e))
    ensures ShiftLeft(x, e)[0] == Shl(x[0], e) + Shr(x[1], 8 - e)
  {
    BeFront(ShiftLeft(x, e));
    assert ShiftLeft(x, e)[1..] == ShiftLeft(x[1..], e);
    FirstShifted(x[0], x[1], e);
  }

  lemma FirstShifted(x0: byte, x1: byte, e: bit)
    requires e > 0
    ensures Or(Shl(x0, e), Shr(x1, 8 - e)) == Shl(x0, e) + Shr(x1, 8 - e)
  {
    ShiftedByte(x0, x1, 8 - e);
    ShlKeepsLow(x0, e);
  }

  lemma {:induction false} ExtIs(input: seq<byte>, m: nat)
    ensures BeVal(Ext(input, m)) == BeVal(input) % Pow2(8 * m)
    decreases m
  {
    if m == 0 {
      DivModUnique(BeVal(input), 1, BeVal(input), 0);
    } else {
      var front := if |input| > 0 then input[..|input| - 1] else input;
      ExtIs(front, m - 1);
      assert Ext(input, m)[..m - 1] == Ext(front, m - 1);
      Pow2Byte(m);
      LastDigit(BeVal(front), if |input| > 0 then input[|input| - 1] else 0, Pow2(8 * (m - 1)));
    }
  }

  lemma ModulusDivides(m: nat, start: bit)
    requires m > 0
    ensures Pow2(8 * m) == FieldModulus(m, start) * Pow2(7 - start)
  {
    Pow2Add(8 * (m - 1) + start + 1, 7 - start);
  }

  lemma ShiftedIs(input: seq<byte>, m: nat, start: bit, end: bit)
    requires |input| > 0 && m > 0 && end > 0
    ensures BeVal(Restored(Zeros(m), input, start, end)) == BeVal(input) * Pow2(end) % FieldModulus(m, start)
  {
    var x := Ext(input, m);
    var sl := ShiftLeft(x, end);
    ShiftedInto(input, m, start, end);
    HeadMaskedIs(sl, start);
    ShiftLeftIs(x, end);
    ExtIs(input, m);
    ModulusDivides(m, start);
    FieldSum(BeVal(Restored(Zeros(m), input, start, end)), BeVal(sl), Shr(x[0], 8 - end), BeVal(x), BeVal(input),
             Pow2(end), FieldModulus(m, start), Pow2(7 - start), Pow2(8 * m));
  }

  lemma FieldSum(field: nat, sl: nat, carry: nat, ext: nat, v: nat, p: nat, n: nat, k: nat, w: nat)
    requires n > 0 && k > 0 && w > 0 && w == n * k && sl + carry * w == ext * p && ext == v % w && field == sl % n
    ensures field == v * p % n
  {
    ModOfMod(v, n, k);
    ModOfProduct(ext, p, n);
    ModOfProduct(v, p, n);
    assert carry * (n * k) == n * (carry * k);
    ModOfSum(ext * p, n, carry * k, sl);
  }

  lemma UnshiftedLong(input: seq<byte>, m: nat, start: bit)
    requires |input| >= m > 0
    ensures BeVal(Restored(Zeros(m), input, start, 0)) == BeVal(input) % FieldModulus(m, start)
  {
    var x := Ext(input, m);
    OrZero(Masked(x[0], start));
    assert Restored(Zeros(m), input, start, 0) == HeadMasked(x, start);
    HeadMaskedIs(x, start);
    ExtIs(input, m);
    ModulusDivides(m, start);
    ModOfMod(BeVal(input), FieldModulus(m, start), Pow2(7 - start));
  }

  /** A value shorter than its field fits it, but is masked as if its first byte were the field's. */
  lemma UnshiftedShort(input: seq<byte>, m: nat, start: bit)
    requires 0 < |input| < m
    ensures BeVal(Restored(Zeros(m), input, start, 0)) == BeVal(HeadMasked(input, start))
    ensures BeVal(input) % FieldModulus(m, start) == BeVal(input)
  {
    var masked := HeadMasked(input, start);
    OrZero(Masked(input[0], start));
    assert Restored(Zeros(m), input, start, 0) == Ext(masked, m);
    ExtIs(masked, m);
    BeBound(masked);
    BeBound(input);
    Pow2Grows(8 * |input|, 8 * m);
    Pow2Grows(8 * |input|, 8 * (m - 1) + start + 1);
    DivModUnique(BeVal(masked), Pow2(8 * m), 0, BeVal(masked));
    DivModUnique(BeVal(input), FieldModulus(m, start), 0, BeVal(input));
  }

  lemma MaskShows(input: seq<byte>, start: bit)
    requires |input| > 0
    ensures BeVal(HeadMasked(input, start)) == BeVal(input) <==> input[0] < Pow2(start + 1)
  {
    var m := HeadMasked(input, start);
    MaskedIs(input[0], start);
    BeFront(input);
    BeFront(m);
    assert m[1..] == input[1..];
    if input[0] < Pow2(start + 1) {
      DivModUnique(input[0], Pow2(start + 1), 0, input[0]);
    } else {
      MulLess(m[0], input[0], Pow2(8 * (|input| - 1)));
    }
  }

  /** Writing a number into an empty field stores its shifted value modulo the field's width, unless it is a shorter
      number, needs no shift and begins with a byte that the field's first byte could not hold. */
  lemma RestoredIsExactIff(input: seq<byte>, m: nat, start: bit, end: bit)
    requires |input| > 0 && m > 0 && (m > 1 || start >= end)
    ensures BeVal(Restored(Zeros(m), input, start, end)) == BeVal(input) * Pow2(end) % FieldModulus(m, start)
      <==> end > 0 || |input| >= m || input[0] < Pow2(start + 1)
  {
    if end > 0 {
      ShiftedIs(input, m, start, end);
    } else {
      TimesOne(BeVal(input));
      if |input| >= m {
        UnshiftedLong(input, m, start);
      } else {
        UnshiftedShort(input, m, start);
        MaskShows(input, start);
      }
    }
  }

  /** One byte of ones in a field of nine bits that ends with its last byte: only its lowest bit is stored. */
  lemma ShortNumberMasked()
    ensures BeVal(Restored(Zeros(2), [0xFF], 0, 0)) == 1
    ensures BeVal([0xFF]) * Pow2(0) % FieldModulus(2, 0) == 0xFF
  {
    var r := Restored(Zeros(2), [0xFF], 0, 0);
    UnshiftedShort([0xFF], 2, 0);
    MaskedIs(0xFF, 0);
    assert HeadMasked([0xFF], 0) == [1];
    Pow2Of32();
  }

  lemma TimesOne(v: nat)
    ensures v * Pow2(0) == v
  {
  }

  /** Reading a field back gives the number modulo two to the width of the field. */
  lemma ReadBack(input: seq<byte>, m: nat, start: bit, end: bit)
    requires |input| > 0 && m > 0 && (m > 1 || start >= end)
    requires end > 0 || |input| >= m || input[0] < Pow2(start + 1)
    ensures BeVal(Aligned(Restored(Zeros(m), input, start, end), start, end)) ==
      BeVal(input) % Pow2(FieldWidth(m, start, end))
  {
    var r := Restored(Zeros(m), input, start, end);
    RestoredIsExactIff(input, m, start, end);
    AlignedIs(r, start, end);
    WidthIs(m, start, end);
    Reduced(BeVal(Aligned(r, start, end)), BeVal(r), BeVal(input), Pow2(end), Pow2(FieldWidth(m, start, end)),
            FieldModulus(m, start));
  }

  lemma WidthIs(m: nat, start: bit, end: bit)
    requires m > 0 && (m > 1 || start >= end)
    ensures FieldModulus(m, start) == Pow2(end) * Pow2(FieldWidth(m, start, end))
  {
    Pow2Add(end, FieldWidth(m, start, end));
  }

  lemma Reduced(read: nat, r: nat, v: nat, p: nat, n: nat, modulus: nat)
    requires p > 0 && n > 0 && modulus == p * n && modulus > 0 && r == v * p % modulus && read == r % modulus / p
    ensures read == v % n
  {
    DivModUnique(r, modulus, 0, r);
    UpAndDown(v, p, n);
  }
}
