/** Little-endian fields that begin and end inside bytes: the first byte holds the lowest bits, and every later byte
    moves up to make room for the bits that the first one cannot hold. */
module PackingLittle {
  import opened Bytes
  import opened PackingMath

  // ---- Reading a field ----

  /** The bytes with the bits outside the field removed: above `start` in the first, below `end` in the last. */
  function Trimmed(input: seq<byte>, start: bit, end: bit): (y: seq<byte>)
    requires |input| > 1
    ensures |y| == |input|
  {
    seq(|input|, k requires 0 <= k < |input| =>
      if k == 0 then Masked(input[0], start) else if k == |input| - 1 then Shr(input[k], end) else input[k])
  }

  /** `low` in the low bits, and above it the bytes of `z`, each split over two bytes. */
  function Joined(low: byte, z: seq<byte>, start: bit): (r: seq<byte>)
    ensures |r| == |z| + 1
  {
    seq(|z| + 1, i requires 0 <= i < |z| + 1 => Or(LowBits(low, z, start, i), HighBits(z, start, i)))
  }

  function LowBits(low: byte, z: seq<byte>, start: bit, i: nat): byte
    requires i < |z| + 1
  {
    if i == 0 then low else Shr(z[i - 1], 7 - start)
  }

  function HighBits(z: seq<byte>, start: bit, i: nat): byte
    requires i < |z| + 1
  {
    if i < |z| then Shl(z[i], start + 1) else 0
  }

  /** The bytes that align_field_bits writes for a field of more than one byte. */
  function Aligned(input: seq<byte>, start: bit, end: bit): (r: seq<byte>)
    requires |input| > 1
  {
    if start < end then Whole(input, start, end)[..|input| - 1] else Whole(input, start, end)
  }

  /** The output once a field is aligned into it: a field of one byte goes to the last byte, others to the front. */
  function AlignedInto(was: seq<byte>, input: seq<byte>, start: bit, end: bit): (r: seq<byte>)
    requires |input| > 0 && |was| > 0
    requires |input| > 1 ==> |was| >= |Aligned(input, start, end)|
    ensures |r| == |was|
  {
    if |input| == 1 then was[|was| - 1 := Shr(Masked(input[0], start), end)]
    else Aligned(input, start, end) + was[|Aligned(input, start, end)|..]
  }

  method AlignFieldBits(input: seq<byte>, output: array<byte>, start: bit, end: bit)
    requires |input| > 0 && output.Length > 0 && (|input| > 1 || start >= end)
    requires |input| > 1 ==> output.Length >= |Aligned(input, start, end)|
    modifies output
    ensures output[..] == AlignedInto(old(output[..]), input, start, end)
  {
    if |input| == 1 {
      output[output.Length - 1] := Shr(Masked(input[0], start), end);
    } else if start == 7 {
      AlignWhole(input, output, end);
    } else {
      AlignJoining(input, output, start, end);
    }
  }

  method AlignWhole(input: seq<byte>, output: array<byte>, end: bit)
    requires |input| > 1 && output.Length >= |input|
    modifies output
    ensures output[..] == Aligned(input, 7, end) + old(output[..])[|input|..]
  {
    ghost var was := output[..];
    forall k | 0 <= k < |input| {
      output[k] := input[k];
    }
    if end != 0 {
      output[|input| - 1] := Shr(output[|input| - 1], end);
    }
    WholeBytes(input, end);
    assert output[..] == Trimmed(input, 7, end) + was[|input|..] by {
      Unshifted(input[|input| - 1]);
      TopMask(input[0]);
    }
  }

  lemma TopMask(x: byte)
    ensures Masked(x, 7) == x
  {
    MaskedIs(x, 7);
    Pow2Of32();
  }

  lemma WholeBytes(input: seq<byte>, end: bit)
    requires |input| > 1
    ensures Aligned(input, 7, end) == Trimmed(input, 7, end)
  {
    var y := Trimmed(input, 7, end);
    forall i | 0 <= i < |y| ensures Joined(y[0], y[1..], 7)[i] == y[i] {
      OrZero(y[i]);
      Unshifted(y[i]);
      if i + 1 < |y| {
        Unshifted(y[i + 1]);
      }
    }
  }

  method AlignJoining(input: seq<byte>, output: array<byte>, start: bit, end: bit)
    requires |input| > 1 && start != 7 && output.Length >= if start >= end then |input| else |input| - 1
    modifies output
    ensures output[..] == Aligned(input, start, end) + old(output[..])[|Aligned(input, start, end)|..]
  {
    var nBytes := if start >= end then |input| else |input| - 1;
    JoinBytes(input, output, start, end, nBytes);
    assert |input| == nBytes ==> Whole(input, start, end)[..nBytes] == Whole(input, start, end);
  }

  /** All the bytes that joining makes. */
  function Whole(input: seq<byte>, start: bit, end: bit): (r: seq<byte>)
    requires |input| > 1
    ensures |r| == |input|
  {
    var y := Trimmed(input, start, end);
    Joined(y[0], y[1..], start)
  }

  method JoinBytes(input: seq<byte>, output: array<byte>, start: bit, end: bit, nBytes: nat)
    requires |input| > 1 && start != 7 && nBytes <= |input| && nBytes <= output.Length
    modifies output
    ensures output[..] == Whole(input, start, end)[..nBytes] + old(output[..])[nBytes..]
  {
    ghost var was, all := output[..], Whole(input, start, end);
    var i := 0;
    while i < nBytes
      invariant i <= nBytes
      invariant forall k | 0 <= k < i :: output[k] == all[k]
      invariant forall k | i <= k < output.Length :: output[k] == was[k]
    {
      var b := AlignedByte(input, i, start, end);
      output[i] := b;
      i := i + 1;
    }
    FrontReplaced(output[..], all, was, nBytes);
  }

  lemma FrontReplaced(s: seq<byte>, front: seq<byte>, was: seq<byte>, n: nat)
    requires n <= |front| && n <= |s| == |was|
    requires (forall k | 0 <= k < n :: s[k] == front[k]) && (forall k | n <= k < |s| :: s[k] == was[k])
    ensures s == front[..n] + was[n..]
  {
  }

  method AlignedByte(input: seq<byte>, i: nat, start: bit, end: bit) returns (r: byte)
    requires i < |input| && |input| > 1 && start != 7
    ensures r == Whole(input, start, end)[i]
  {
    var lastByte := |input| - 1;
    r :=
      if i == 0 then Masked(input[i], start)
      else if i == lastByte then Shr(Shr(input[i], end), 7 - start)
      else Shr(input[i], 7 - start);
    // if there is a next byte, take as many of its bits as fit
    var nextByte := i + 1;
    if nextByte < |input| {
      var val := if nextByte == lastByte then Shr(input[nextByte], end) else input[nextByte];
      r := Or(r, Shl(val, start + 1));
    } else {
      OrZero(r);
    }
  }

  // ---- What aligning computes ----

  lemma JoinedByte(low: nat, x: byte, a: nat, b: nat, start: bit)
    requires a == Pow2(start + 1) && b == Pow2(7 - start) && low < a && low < 256
    ensures a * b == 256 && Or(low, Shl(x, start + 1)) == low + x % b * a
  {
    ByteSplit(start + 1);
    ShlKeepsLow(x, start + 1);
    BitOrDisjoint(low, x % b, start + 1);
  }

  lemma HighPart(x: byte, start: bit)
    ensures Shr(x, 7 - start) < Pow2(start + 1)
  {
    var b := Pow2(7 - start);
    ByteSplit(7 - start);
    assert x == b * (x / b) + x % b;
    if x / b >= Pow2(start + 1) {
      MulMono(b, Pow2(start + 1), x / b);
    }
  }

  lemma JoinStep(joined: nat, first: nat, rest: nat, low: nat, z0: byte, tail: nat, z: nat, a: nat, b: nat)
    requires a * b == 256 && b > 0
    requires first == low + z0 % b * a && rest == z0 / b + a * tail && joined == first + 256 * rest
    requires z == z0 + 256 * tail
    ensures joined == low + a * z
  {
    assert z0 == b * (z0 / b) + z0 % b;
    assert a * z0 == a * (b * (z0 / b)) + a * (z0 % b);
    assert a * (b * (z0 / b)) == 256 * (z0 / b) by {
      assert a * (b * (z0 / b)) == a * b * (z0 / b);
    }
    assert a * z == a * z0 + 256 * (a * tail) by {
      assert a * (z0 + 256 * tail) == a * z0 + a * (256 * tail);
    }
  }

  lemma {:induction false} JoinedIs(low: byte, z: seq<byte>, start: bit)
    requires low < Pow2(start + 1)
    ensures LeVal(Joined(low, z, start)) == low + Pow2(start + 1) * LeVal(z)
    decreases |z|
  {
    var j := Joined(low, z, start);
    if |z| == 0 {
      OrZero(low);
      assert j == [low] && LeVal(j[1..]) == 0;
    } else {
      var high := Shr(z[0], 7 - start);
      HighPart(z[0], start);
      JoinedIs(high, z[1..], start);
      assert j[1..] == Joined(high, z[1..], start);
      JoinedByte(low, z[0], Pow2(start + 1), Pow2(7 - start), start);
      JoinStep(LeVal(j), j[0], LeVal(j[1..]), low, z[0], LeVal(z[1..]), LeVal(z), Pow2(start + 1), Pow2(7 - start));
    }
  }

  /** The number that a field of more than one byte holds. */
  function FieldValue(input: seq<byte>, start: bit, end: bit): nat
    requires |input| > 1
  {
    var y := Trimmed(input, start, end);
    y[0] + Pow2(start + 1) * LeVal(y[1..])
  }

  lemma LastJoinedByte(x: byte, start: bit, end: bit)
    requires start < end
    ensures Shr(Shr(x, end), 7 - start) == 0
  {
    ByteSplit(end);
    Pow2Grows(8 - end, 7 - start);
    SmallQuotient(x, Pow2(end), Pow2(8 - end));
    DivModUnique(Shr(x, end), Pow2(7 - start), 0, Shr(x, end));
  }

  lemma {:induction false} DropTopZero(s: seq<byte>)
    requires |s| > 0 && s[|s| - 1] == 0
    ensures LeVal(s[..|s| - 1]) == LeVal(s)
  {
    if |s| > 1 {
      DropTopZero(s[1..]);
      assert s[..|s| - 1][1..] == s[1..][..|s| - 2];
    }
  }

  /** Reading a field of more than one byte gives the number it holds, also when it takes one byte less than the field
      does. */
  lemma AlignedIs(input: seq<byte>, start: bit, end: bit)
    requires |input| > 1
    ensures LeVal(Aligned(input, start, end)) == FieldValue(input, start, end)
  {
    var y := Trimmed(input, start, end);
    var all := Joined(y[0], y[1..], start);
    FirstSmall(input[0], start);
    JoinedIs(y[0], y[1..], start);
    if start < end {
      LastJoinedByte(input[|input| - 1], start, end);
      OrZero(0);
      DropTopZero(all);
    }
  }

  lemma FirstSmall(x: byte, start: bit)
    ensures Masked(x, start) < Pow2(start + 1)
  {
    MaskedIs(x, start);
  }

  lemma {:induction false} TopByte(n: nat, x: byte)
    requires n > 0
    ensures LeVal(Zeros(n)[n - 1 := x]) == x * Pow2(8 * (n - 1))
  {
    var s := Zeros(n)[n - 1 := x];
    if n == 1 {
      assert LeVal(s[1..]) == 0 && Pow2(8 * 0) == 1;
    } else {
      TopByte(n - 1, x);
      assert s[1..] == Zeros(n - 1)[n - 2 := x];
      Pow2Byte(n - 1);
    }
  }

  lemma {:induction false} TrailingZeros(s: seq<byte>, k: nat)
    ensures LeVal(s + Zeros(k)) == LeVal(s)
  {
    if |s| > 0 {
      assert (s + Zeros(k))[1..] == s[1..] + Zeros(k);
      TrailingZeros(s[1..], k);
    } else {
      assert s + Zeros(k) == Zeros(k);
      ZerosAreZero(k);
    }
  }

  /** A field of more than one byte is read into an empty output as the number it holds. */
  lemma ManyBytesReadWhole(n: nat, input: seq<byte>, start: bit, end: bit)
    requires |input| > 1 && n >= |Aligned(input, start, end)| && n > 0
    ensures LeVal(AlignedInto(Zeros(n), input, start, end)) == FieldValue(input, start, end)
  {
    var a := Aligned(input, start, end);
    AlignedIs(input, start, end);
    TrailingZeros(a, n - |a|);
    assert a + Zeros(n)[|a|..] == a + Zeros(n - |a|);
  }

  /** A field of one byte goes to the last byte of the output, which is the highest one: in an empty output its value
      is read if and only if the output has one byte or the value is zero. */
  lemma OneByteGoesToTheTop(n: nat, x: byte, start: bit, end: bit)
    requires n > 0 && start >= end
    ensures var value := x % Pow2(start + 1) / Pow2(end);
      && LeVal(AlignedInto(Zeros(n), [x], start, end)) == value * Pow2(8 * (n - 1))
      && (LeVal(AlignedInto(Zeros(n), [x], start, end)) == value <==> n == 1 || value == 0)
  {
    MaskedIs(x, start);
    var value := Shr(Masked(x, start), end);
    TopByte(n, value);
    if n > 1 {
      Pow2Byte(n - 1);
      TimesMore(value, Pow2(8 * (n - 1)));
    }
  }

  lemma TimesMore(v: nat, p: nat)
    requires p > 1
    ensures v * p == v <==> v == 0
  {
  }

  // ---- Writing a field ----

  /** The number in `m` bytes, cut off or with zeros after it. */
  function Ext(input: seq<byte>, m: nat): (x: seq<byte>)
    ensures |x| == m
  {
    seq(m, k requires 0 <= k < m => if k < |input| then input[k] else 0)
  }

  /** Byte `i` of the number once its first byte is cut to the bits from `start` down and the rest moved up. */
  function Spread(x: seq<byte>, i: nat, start: bit): byte
    requires i < |x|
  {
    if i == 0 then Masked(x[0], start) else Or(Shr(x[i - 1], start + 1), Shl(x[i], 7 - start))
  }

  /** What restore_field_bits ORs into byte `i`. */
  function FieldByte(x: seq<byte>, i: nat, start: bit, end: bit): byte
    requires i < |x|
  {
    var bits := Spread(x, i, start);
    if i == 0 && |x| == 1 then Masked(Shl(bits, end), start)
    else if i == 0 then Masked(bits, start)
    else if i == |x| - 1 then Shl(bits, end)
    else bits
  }

  /** The bytes of the output after restore_field_bits. */
  function Restored(was: seq<byte>, input: seq<byte>, start: bit, end: bit): (r: seq<byte>)
    requires |was| > 0 && |input| > 0
    ensures |r| == |was|
  {
    var m := |was|;
    if start == 7 then
      var n := if m < |input| then m else |input|;
      seq(m, k requires 0 <= k < m =>
        if k == m - 1 then Or(was[k], Shl(input[|input| - 1], end))
        else if k >= m - n then input[|input| - (m - k)] else was[k])
    else
      seq(m, k requires 0 <= k < m => Or(was[k], FieldByte(Ext(input, m), k, start, end)))
  }

  method RestoreFieldBits(input: seq<byte>, output: array<byte>, start: bit, end: bit)
    requires |input| > 0 && output.Length > 0 && (output.Length > 1 || start >= end)
    modifies output
    ensures output[..] == Restored(old(output[..]), input, start, end)
  {
    var iLen, oLen := |input|, output.Length;
    if start == 7 {
      var nBytes := if oLen < iLen then oLen else iLen;
      output[oLen - 1] := Or(output[oLen - 1], Shl(input[iLen - 1], end));
      if nBytes > 1 {
        forall k | oLen - nBytes <= k < oLen - 1 {
          output[k] := input[iLen - (oLen - k)];
        }
      }
    } else {
      RestoreSpread(input, output, start, end);
    }
  }

  method RestoreSpread(input: seq<byte>, output: array<byte>, start: bit, end: bit)
    requires |input| > 0 && output.Length > 0 && start != 7
    modifies output
    ensures output[..] == Restored(old(output[..]), input, start, end)
  {
    ghost var was, x := output[..], Ext(input, output.Length);
    var lastByte := output.Length - 1;
    var i := 0;
    while i < output.Length
      invariant i <= output.Length
      invariant forall k | 0 <= k < i :: output[k] == Or(was[k], FieldByte(x, k, start, end))
      invariant forall k | i <= k < output.Length :: output[k] == was[k]
    {
      var bits := SpreadByte(input, i, start, output.Length);
      if i == 0 && i == lastByte {
        output[i] := Or(output[i], Masked(Shl(bits, end), start));
      } else if i == 0 {
        output[i] := Or(output[i], Masked(bits, start));
      } else if i == lastByte {
        output[i] := Or(output[i], Shl(bits, end));
      } else {
        output[i] := Or(output[i], bits);
      }
      i := i + 1;
    }
  }

  method SpreadByte(input: seq<byte>, i: nat, start: bit, ghost m: nat) returns (bits: byte)
    requires |input| > 0 && i < m && start != 7
    ensures bits == Spread(Ext(input, m), i, start)
  {
    ZeroShifts(start);
    var current :=
      if i == 0 then Masked(input[i], start)
      else if i < |input| then Shl(input[i], 7 - start)
      else 0;
    var previous := if i > 0 && i - 1 < |input| then Shr(input[i - 1], start + 1) else 0;
    OrZero(current);
    bits := Or(previous, current);
  }

  lemma ZeroShifts(start: bit)
    ensures Shl(0, 7 - start) == 0 && Shr(0, start + 1) == 0
  {
    DivModUnique(0, Pow2(start + 1), 0, 0);
  }

  // ---- What restoring computes ----

  /** The bytes after the first of a number spread out from bit `start`. */
  function Rest(x: seq<byte>, start: bit): (r: seq<byte>)
    requires |x| > 0
    ensures |r| == |x| - 1
  {
    seq(|x| - 1, i requires 0 <= i < |x| - 1 => Or(Shr(x[i], start + 1), Shl(x[i + 1], 7 - start)))
  }

  lemma SpreadByteIs(high: byte, low: byte, a: nat, b: nat, start: bit)
    requires a == Pow2(start + 1) && b == Pow2(7 - start)
    ensures a * b == 256 && Or(Shr(low, start + 1), Shl(high, 7 - start)) == low / a + high % a * b
  {
    ByteSplit(start + 1);
    ShlKeepsLow(high, 7 - start);
    SmallQuotient(low, a, b);
    BitOrCommutes(Shr(low, start + 1), Shl(high, 7 - start));
    OrOfParts(Shl(high, 7 - start), Shr(low, start + 1), high % a, 7 - start);
  }

  /** One step of the number a spread-out number spells: the digits of the two cut it at different places. */
  lemma SpreadStep(rest: nat, tail: nat, x0: byte, x1: byte, v: nat, v1: nat, a: nat, b: nat, top: nat, w: nat)
    requires a * b == 256 && a > 0
    requires rest == x0 / a + x1 % a * b + 256 * tail && v == x0 + 256 * v1
    requires x1 % a + a * tail + a * top * w == v1
    ensures x0 % a + a * rest + a * top * (256 * w) == v
  {
    assert x0 == a * (x0 / a) + x0 % a;
    assert a * rest == a * (x0 / a) + 256 * (x1 % a) + 256 * (a * tail) by {
      assert a * (x0 / a + x1 % a * b + 256 * tail) == a * (x0 / a) + a * (x1 % a * b) + a * (256 * tail);
      assert a * (x1 % a * b) == a * b * (x1 % a);
    }
    assert a * top * (256 * w) == 256 * (a * top * w);
  }

  /** A number is its spread-out form and the bits that fell off the end. */
  lemma {:induction false} SpreadIs(x: seq<byte>, start: bit)
    requires |x| > 0
    ensures x[0] % Pow2(start + 1) + Pow2(start + 1) * LeVal(Rest(x, start))
      + Pow2(start + 1) * Shr(x[|x| - 1], start + 1) * Pow2(8 * (|x| - 1)) == LeVal(x)
    decreases |x|
  {
    var a := Pow2(start + 1);
    if |x| == 1 {
      assert Rest(x, start) == [] && Pow2(8 * 0) == 1 && LeVal(x[1..]) == 0;
      assert x[0] == a * (x[0] / a) + x[0] % a;
    } else {
      SpreadIs(x[1..], start);
      assert Rest(x, start)[1..] == Rest(x[1..], start);
      SpreadByteIs(x[1], x[0], a, Pow2(7 - start), start);
      Pow2Byte(|x| - 1);
      SpreadStep(LeVal(Rest(x, start)), LeVal(Rest(x[1..], start)), x[0], x[1], LeVal(x), LeVal(x[1..]), a,
                 Pow2(7 - start), Shr(x[|x| - 1], start + 1), Pow2(8 * (|x| - 2)));
    }
  }

  lemma ZeroField(input: seq<byte>, m: nat, start: bit, end: bit, k: nat)
    requires |input| > 0 && k < m && start != 7
    ensures Restored(Zeros(m), input, start, end)[k] == FieldByte(Ext(input, m), k, start, end)
  {
    OrZero(FieldByte(Ext(input, m), k, start, end));
  }

  // ---- Reading back ----

  /** A number without the bits that the last byte of a field has no room for. */
  function TopCut(z: seq<byte>, end: bit): (r: seq<byte>)
    requires |z| > 0
    ensures |r| == |z|
  {
    z[|z| - 1 := Mod(z[|z| - 1], Pow2(8 - end))]
  }

  lemma ShiftedBackAndForth(x: byte, end: bit)
    ensures Shr(Shl(x, end), end) == x % Pow2(8 - end)
  {
    ShlKeepsLow(x, end);
    DivOfProduct(x % Pow2(8 - end), Pow2(end));
  }

  lemma DivOfProduct(r: nat, p: nat)
    requires p > 0
    ensures r * p / p == r
  {
    assert r * p == p * r;
    DivModUnique(r * p, p, r, 0);
  }

  /** The modulus of `n` bytes the last of which has no room for `end` bits. */
  function CutModulus(n: nat, end: bit): (k: nat)
    requires n > 0
    ensures k > 0
  {
    Pow2(8 * n - end)
  }

  lemma CutModulusStep(n: nat, end: bit)
    requires n > 1
    ensures CutModulus(n, end) == 256 * CutModulus(n - 1, end)
  {
    Pow2Add(8, 8 * (n - 1) - end);
    Pow2Of32();
  }

  lemma {:induction false} TopCutIs(z: seq<byte>, end: bit)
    requires |z| > 0
    ensures LeVal(TopCut(z, end)) == LeVal(z) % CutModulus(|z|, end)
    decreases |z|
  {
    if |z| == 1 {
      assert LeVal(z[1..]) == 0 && LeVal(TopCut(z, end)[1..]) == 0;
    } else {
      TopCutIs(z[1..], end);
      assert TopCut(z, end)[1..] == TopCut(z[1..], end) && TopCut(z, end)[0] == z[0];
      CutModulusStep(|z|, end);
      CutStep(LeVal(TopCut(z, end)), LeVal(TopCut(z[1..], end)), LeVal(z), LeVal(z[1..]), z[0],
              CutModulus(|z| - 1, end), CutModulus(|z|, end));
    }
  }

  lemma CutStep(cut: nat, cutRest: nat, v: nat, rest: nat, z0: byte, w: nat, n: nat)
    requires w > 0 && n == 256 * w && cutRest == rest % w && cut == z0 + 256 * cutRest && v == z0 + 256 * rest
    ensures cut == v % n
  {
    LastDigit(rest, z0, w);
  }

  lemma {:induction false} ExtIs(input: seq<byte>, m: nat)
    ensures LeVal(Ext(input, m)) == LeVal(input) % Pow2(8 * m)
    decreases m
  {
    if m == 0 {
      DivModUnique(LeVal(input), 1, LeVal(input), 0);
    } else {
      var rest := if |input| > 0 then input[1..] else input;
      ExtIs(rest, m - 1);
      assert Ext(input, m)[1..] == Ext(rest, m - 1);
      Pow2Byte(m);
      LastDigit(LeVal(rest), if |input| > 0 then input[0] else 0, Pow2(8 * (m - 1)));
    }
  }

  /** Reading a field undoes the spreading, but for the bits the last byte has no room for. */
  lemma TrimmedField(input: seq<byte>, m: nat, start: bit, end: bit)
    requires |input| > 0 && m > 1 && start != 7
    ensures var x := Ext(input, m);
      var y := Trimmed(Restored(Zeros(m), input, start, end), start, end);
      y[0] == x[0] % Pow2(start + 1) && y[1..] == TopCut(Rest(x, start), end)
  {
    var x := Ext(input, m);
    var y := Trimmed(Restored(Zeros(m), input, start, end), start, end);
    TwiceMasked(x[0], start);
    ZeroField(input, m, start, end, 0);
    forall k | 1 <= k < m ensures y[k] == TopCut(Rest(x, start), end)[k - 1] {
      ZeroField(input, m, start, end, k);
      ShiftedBackAndForth(Rest(x, start)[k - 1], end);
    }
  }

  lemma TwiceMasked(x: byte, start: bit)
    ensures Masked(Masked(Masked(x, start), start), start) == x % Pow2(start + 1)
  {
    MaskedIs(x, start);
    MaskedIs(Masked(x, start), start);
    MaskedIs(Masked(Masked(x, start), start), start);
    DivModUnique(Masked(x, start), Pow2(start + 1), 0, Masked(x, start));
  }

  lemma LowPlusHigh(low: nat, rest: nat, a: nat, m: nat)
    requires low < a && m > 0
    ensures a * m > 0 && (low + a * rest) % (a * m) == low + a * (rest % m)
  {
    MulMono(a, 1, m);
    var q, r := rest / m, rest % m;
    assert rest == m * q + r;
    assert a * rest == a * m * q + a * r by {
      assert a * (m * q + r) == a * (m * q) + a * r;
      assert a * (m * q) == a * m * q;
    }
    MulGap(a, r, m);
    DivModUnique(low + a * rest, a * m, q, low + a * r);
  }

  /** The arithmetic of reading back: `n` is the field's modulus, which divides what was cut off on the way. */
  lemma FieldSum(read: nat, low: nat, rest: nat, lost: nat, x: nat, v: nat, a: nat, m: nat, p: nat, n: nat, k: nat,
                 w: nat, whole: nat)
    requires low < a && m > 0 && p > 0 && n == a * m && n > 0 && k > 0 && w == m * p && whole == n * k && whole > 0
    requires read == low + a * (rest % m)
    requires low + a * rest + a * lost * w == x && x == v % whole
    ensures read == v % n
  {
    LowPlusHigh(low, rest, a, m);
    assert a * lost * (m * p) == n * (lost * p) by {
      assert a * lost * (m * p) == a * m * (lost * p);
    }
    ModOfSum(x, n, lost * p, low + a * rest);
    ModOfMod(v, n, k);
  }

  lemma WidthIs(m: nat, start: bit, end: bit)
    requires m > 1
    ensures Pow2(FieldWidth(m, start, end)) == Pow2(start + 1) * CutModulus(m - 1, end)
    ensures Pow2(8 * m) == Pow2(FieldWidth(m, start, end)) * Pow2(7 - start + end)
    ensures Pow2(8 * (m - 1)) == CutModulus(m - 1, end) * Pow2(end)
  {
    Pow2Add(start + 1, 8 * (m - 1) - end);
    Pow2Add(FieldWidth(m, start, end), 7 - start + end);
    Pow2Add(8 * (m - 1) - end, end);
  }

  /** The number that align_field_bits reads from a field. */
  function ReadField(r: seq<byte>, start: bit, end: bit): nat
    requires |r| > 0
  {
    if |r| == 1 then Shr(Masked(r[0], start), end) else LeVal(Aligned(r, start, end))
  }

  /** Reading back a field that does not begin at the top of its first byte gives the number modulo two to the width of
      the field, whatever the number's own length, and also when its value takes one byte less. */
  lemma ReadBack(input: seq<byte>, m: nat, start: bit, end: bit)
    requires |input| > 0 && m > 0 && (m > 1 || start >= end) && start != 7
    ensures ReadField(Restored(Zeros(m), input, start, end), start, end) ==
      LeVal(input) % Pow2(FieldWidth(m, start, end))
  {
    if m == 1 {
      ReadBackOne(input, start, end);
    } else {
      ReadBackMany(input, m, start, end);
    }
  }

  lemma ReadBackMany(input: seq<byte>, m: nat, start: bit, end: bit)
    requires |input| > 0 && m > 1 && start != 7
    ensures LeVal(Aligned(Restored(Zeros(m), input, start, end), start, end)) ==
      LeVal(input) % Pow2(FieldWidth(m, start, end))
  {
    var x := Ext(input, m);
    var r := Restored(Zeros(m), input, start, end);
    AlignedIs(r, start, end);
    TrimmedField(input, m, start, end);
    TopCutIs(Rest(x, start), end);
    SpreadIs(x, start);
    ExtIs(input, m);
    WidthIs(m, start, end);
    FieldSum(LeVal(Aligned(r, start, end)), x[0] % Pow2(start + 1), LeVal(Rest(x, start)), Shr(x[m - 1], start + 1),
             LeVal(x), LeVal(input), Pow2(start + 1), CutModulus(m - 1, end), Pow2(end),
             Pow2(FieldWidth(m, start, end)), Pow2(7 - start + end), Pow2(8 * (m - 1)), Pow2(8 * m));
  }

  /** A field of one byte holds the low bits of a number of any length. */
  lemma ReadBackOne(input: seq<byte>, start: bit, end: bit)
    requires |input| > 0 && start >= end && start != 7
    ensures Shr(Masked(Restored(Zeros(1), input, start, end)[0], start), end) == LeVal(input) % Pow2(start + 1 - end)
  {
    assert Ext(input, 1) == Ext([input[0]], 1);
    ReadBackByte(input[0], start, end);
    FirstByteModulo(input, start + 1 - end);
  }

  lemma FirstByteModulo(input: seq<byte>, w: nat)
    requires |input| > 0 && w <= 8
    ensures LeVal(input) % Pow2(w) == input[0] % Pow2(w)
  {
    ByteSplit(w);
    LowPart(LeVal(input), Pow2(w), Pow2(8 - w), LeVal(input[1..]), input[0]);
  }

  lemma LowPart(v: nat, p: nat, q: nat, rest: nat, low: nat)
    requires p > 0 && p * q == 256 && v == low + 256 * rest
    ensures v % p == low % p
  {
    assert p * q * rest == p * (q * rest);
    ModOfSum(v, p, q * rest, low);
  }

  /** The same for a field that begins at the top of its first byte, if the number is as long as the field. */
  lemma ReadBackWhole(input: seq<byte>, end: bit)
    requires |input| > 0
    ensures ReadField(Restored(Zeros(|input|), input, 7, end), 7, end) ==
      LeVal(input) % Pow2(FieldWidth(|input|, 7, end))
  {
    if |input| == 1 {
      assert input == [input[0]];
      ReadBackByte(input[0], 7, end);
      FirstByteModulo(input, 8 - end);
    } else {
      WholeBytes(Restored(Zeros(|input|), input, 7, end), end);
      WholeRestored(input, end);
      TopCutIs(input, end);
      WholeWidth(|input|, end);
    }
  }

  lemma WholeWidth(m: nat, end: bit)
    requires m > 1
    ensures Pow2(FieldWidth(m, 7, end)) == CutModulus(m, end)
  {
    assert FieldWidth(m, 7, end) == 8 * m - end;
  }

  lemma WholeRestored(input: seq<byte>, end: bit)
    requires |input| > 1
    ensures Trimmed(Restored(Zeros(|input|), input, 7, end), 7, end) == TopCut(input, end)
  {
    OrZero(Shl(input[|input| - 1], end));
    ShiftedBackAndForth(input[|input| - 1], end);
    TopMask(input[0]);
  }

  /** A number of another length than such a field is not read back: 1 comes back even. */
  lemma LengthsMustAgree(n: nat, m: nat, end: bit)
    requires n > 0 && m > 0 && n != m
    ensures ReadField(Restored(Zeros(m), One(n), 7, end), 7, end) % 2 == 0
    ensures LeVal(One(n)) == 1
  {
    OneIsOne(n);
    if m == 1 {
      TopByteRead(One(n), end);
    } else {
      ManyReadEven(n, m, end);
    }
  }

  lemma ManyReadEven(n: nat, m: nat, end: bit)
    requires n > 0 && m > 1 && n != m
    ensures ReadField(Restored(Zeros(m), One(n), 7, end), 7, end) % 2 == 0
  {
    LowByteLost(n, m, end);
    EvenField(Restored(Zeros(m), One(n), 7, end), end);
  }

  lemma OneIsOne(n: nat)
    requires n > 0
    ensures LeVal(One(n)) == 1
  {
    assert One(n)[1..] == Zeros(n - 1);
    ZerosAreZero(n - 1);
  }

  /** The number's byte 1 lands past the first byte of a longer field, and outside a shorter one. */
  lemma LowByteLost(n: nat, m: nat, end: bit)
    requires n > 0 && m > 1 && n != m
    ensures Restored(Zeros(m), One(n), 7, end)[0] == 0
  {
  }

  /** The number 1 in `n` bytes. */
  function One(n: nat): (s: seq<byte>)
    requires n > 0
    ensures |s| == n && s[0] == 1 && forall k | 1 <= k < n :: s[k] == 0
  {
    [1] + Zeros(n - 1)
  }

  /** A whole byte holds the last byte of the number, which is its highest. */
  lemma TopByteRead(input: seq<byte>, end: bit)
    requires |input| > 0
    ensures ReadField(Restored(Zeros(1), input, 7, end), 7, end) == input[|input| - 1] % Pow2(8 - end)
  {
    var top := input[|input| - 1];
    assert Restored(Zeros(1), input, 7, end) == Restored(Zeros(1), [top], 7, end);
    ReadBackByte(top, 7, end);
  }

  lemma EvenField(r: seq<byte>, end: bit)
    requires |r| > 1 && r[0] == 0
    ensures LeVal(Aligned(r, 7, end)) % 2 == 0
  {
    WholeBytes(r, end);
    TopMask(0);
    EvenNumber(Trimmed(r, 7, end));
  }

  lemma EvenNumber(s: seq<byte>)
    requires |s| > 0 && s[0] == 0
    ensures LeVal(s) % 2 == 0
  {
  }

  lemma {:induction false} ZerosAreZero(n: nat)
    ensures LeVal(Zeros(n)) == 0
  {
    if n > 0 {
      assert Zeros(n)[1..] == Zeros(n - 1);
      ZerosAreZero(n - 1);
    }
  }

  /** A field within one byte. */
  lemma ReadBackByte(x: byte, start: bit, end: bit)
    requires start >= end
    ensures Shr(Masked(Restored(Zeros(1), [x], start, end)[0], start), end) == x % Pow2(start + 1 - end)
  {
    var a, p, w := Pow2(start + 1), Pow2(end), Pow2(start + 1 - end);
    var cut := if start == 7 then x else Masked(x, start);
    OrZero(Shl(cut, end));
    OrZero(Masked(Shl(cut, end), start));
    var r := Restored(Zeros(1), [x], start, end)[0];
    assert Ext([x], 1) == [x];
    assert r == if start == 7 then Shl(x, end) else Masked(Shl(cut, end), start);
    MaskedIs(x, start);
    MaskedIs(Shl(cut, end), start);
    MaskedIs(r, start);
    Pow2Add(end, start + 1 - end);
    ByteSplit(start + 1);
    ByteSum(x, cut, r, Shl(cut, end), a, p, w, Pow2(7 - start));
  }

  lemma ByteSum(x: nat, cut: nat, r: nat, shifted: nat, a: nat, p: nat, w: nat, b: nat)
    requires a > 0 && p > 0 && w > 0 && b > 0 && a == p * w && a * b == 256
    requires (cut == x || cut == x % a) && shifted == cut * p % 256 && (r == shifted || r == shifted % a)
    ensures r % a / p == x % w
  {
    ModOfMod(cut * p, a, b);
    assert shifted % a == cut * p % a;
    DivModUnique(shifted % a, a, 0, shifted % a);
    assert r % a == cut * p % a;
    UpAndDown(cut, p, w);
    CutLow(x, cut, a, p, w);
  }

  lemma CutLow(x: nat, cut: nat, a: nat, p: nat, w: nat)
    requires p > 0 && w > 0 && a > 0 && a == p * w && (cut == x || cut == x % a)
    ensures cut % w == x % w
  {
    assert p * w == w * p;
    ModOfMod(x, w, p);
  }
}
