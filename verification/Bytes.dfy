/** Bytes, little-endian words and bitwise AND on unbounded naturals, shared by every other module. */
module Bytes {

  type byte = b: int | 0 <= b < 256

  const TWO_32: nat := 0x1_0000_0000

  datatype Option<+T> = None | Some(value: T)

  /** The `n` low bytes of `x`, least significant first. */
  function LeBytes(x: nat, n: nat): (s: seq<byte>)
    ensures |s| == n
  {
    if n == 0 then [] else [x % 256] + LeBytes(x / 256, n - 1)
  }

  /** The number that `s` spells, least significant byte first. */
  function LeVal(s: seq<byte>): nat {
    if |s| == 0 then 0 else s[0] + 256 * LeVal(s[1..])
  }

  /** The number that `s` spells, most significant byte first. */
  function BeVal(s: seq<byte>): nat {
    if |s| == 0 then 0 else 256 * BeVal(s[..|s| - 1]) + s[|s| - 1]
  }

  lemma {:induction false} LeRoundTrip(x: nat, n: nat)
    requires x < Pow2(8 * n)
    ensures LeVal(LeBytes(x, n)) == x
  {
    if n > 0 {
      Pow2Byte(n);
      LeRoundTrip(x / 256, n - 1);
      assert LeBytes(x, n)[1..] == LeBytes(x / 256, n - 1);
    }
  }

  lemma {:induction false} LeBytesOfLeVal(s: seq<byte>)
    ensures LeBytes(LeVal(s), |s|) == s
  {
    if |s| > 0 {
      LeBytesOfLeVal(s[1..]);
      assert s == [s[0]] + s[1..];
    }
  }

  lemma {:induction false} LeValBound(s: seq<byte>)
    ensures LeVal(s) < Pow2(8 * |s|)
  {
    if |s| > 0 {
      Pow2Byte(|s|);
      LeValBound(s[1..]);
    }
  }

  lemma Pow2Byte(n: nat)
    requires n > 0
    ensures Pow2(8 * n) == 256 * Pow2(8 * (n - 1))
  {
    Pow2Of32();
    Pow2Add(8, 8 * (n - 1));
    assert 8 + 8 * (n - 1) == 8 * n;
  }

  lemma {:induction false} Pow2Add(a: nat, b: nat)
    ensures Pow2(a + b) == Pow2(a) * Pow2(b)
  {
    if a > 0 {
      Pow2Add(a - 1, b);
      assert 2 * (Pow2(a - 1) * Pow2(b)) == (2 * Pow2(a - 1)) * Pow2(b);
    }
  }

  lemma {:induction false} Pow2Grows(a: nat, b: nat)
    requires a <= b
    ensures Pow2(a) <= Pow2(b)
  {
    if a < b {
      Pow2Grows(a, b - 1);
    }
  }

  lemma Pow2Of32()
    ensures Pow2(8) == 256 && Pow2(16) == 0x1_0000 && Pow2(32) == TWO_32
  {
    assert Pow2(4) == 16;
    Pow2Add(4, 4);
    Pow2Add(8, 8);
    Pow2Add(16, 16);
  }

  function Zeros(n: nat): (s: seq<byte>)
    ensures |s| == n
  {
    seq(n, _ => 0)
  }

  /** The four little-endian bytes of a 32-bit word. */
  function Le32(x: nat): (s: seq<byte>)
    requires x < TWO_32
    ensures |s| == 4
  {
    LeBytes(x, 4)
  }

  /** The 32-bit little-endian word that starts at byte `at`. */
  function U32(s: seq<byte>, at: nat): (x: nat)
    requires at + 4 <= |s|
    ensures x < TWO_32
  {
    LeValBound(s[at..at + 4]);
    Pow2Of32();
    LeVal(s[at..at + 4])
  }

  /** A word written with Le32 inside a longer buffer reads back unchanged. */
  lemma U32OfLe32(s: seq<byte>, at: nat, x: nat)
    requires x < TWO_32 && at + 4 <= |s| && s[at..at + 4] == Le32(x)
    ensures U32(s, at) == x
  {
    Pow2Of32();
    LeRoundTrip(x, 4);
  }

  /** Reading a word and writing it back gives the same bytes. */
  lemma Le32OfU32(s: seq<byte>, at: nat)
    requires at + 4 <= |s|
    ensures Le32(U32(s, at)) == s[at..at + 4]
  {
    LeBytesOfLeVal(s[at..at + 4]);
  }

  /** A 32-bit word, low byte first. */
  function Low4(x: nat): (s: seq<byte>)
    requires x < 0x1_0000_0000
  {
    [x % 256, x / 256 % 256, x / 0x1_0000 % 256, x / 0x100_0000]
  }

  /** A 32-bit word, high byte first. */
  function High4(x: nat): (s: seq<byte>)
    requires x < 0x1_0000_0000
  {
    [x / 0x100_0000, x / 0x1_0000 % 256, x / 256 % 256, x % 256]
  }

  lemma LeFour(s: seq<byte>)
    requires |s| == 4
    ensures LeVal(s) == s[0] + 256 * (s[1] as int) + 0x1_0000 * (s[2] as int) + 0x100_0000 * (s[3] as int)
  {
    assert LeVal(s[1..][1..][1..]) == s[3];
    assert LeVal(s[1..][1..]) == s[2] + 256 * (s[3] as int);
    assert LeVal(s[1..]) == s[1] + 256 * (s[2] + 256 * (s[3] as int));
  }

  lemma BeTwo(s: seq<byte>)
    requires |s| == 2
    ensures BeVal(s) == 256 * (s[0] as int) + s[1]
  {
    assert BeVal(s[..1][..0]) == 0;
    assert BeVal(s[..1]) == s[0];
  }

  lemma BeThree(s: seq<byte>)
    requires |s| == 3
    ensures BeVal(s) == 0x1_0000 * (s[0] as int) + 256 * (s[1] as int) + s[2]
  {
    BeTwo(s[..2]);
  }

  lemma BeFour(s: seq<byte>)
    requires |s| == 4
    ensures BeVal(s) == 0x100_0000 * (s[0] as int) + 0x1_0000 * (s[1] as int) + 256 * (s[2] as int) + s[3]
  {
    BeThree(s[..3]);
  }

  lemma Digits(x: nat)
    requires x < 0x1_0000_0000
    ensures x % 256 + 256 * (x / 256 % 256) + 0x1_0000 * (x / 0x1_0000 % 256) + 0x100_0000 * (x / 0x100_0000) == x
  {
    assert x / 256 / 256 == x / 0x1_0000 && x / 0x1_0000 / 256 == x / 0x100_0000;
  }

  lemma LowWord(s: seq<byte>, x: nat)
    requires x < 0x1_0000_0000 && s == Low4(x)
    ensures LeVal(s) == x
  {
    LeFour(s);
    Digits(x);
  }

  lemma HighWord(s: seq<byte>, x: nat)
    requires x < 0x1_0000_0000 && s == High4(x)
    ensures BeVal(s) == x
  {
    BeFour(s);
    Digits(x);
  }

  lemma LowIsLe32(x: nat)
    requires x < 0x1_0000_0000
    ensures Le32(x) == Low4(x)
  {
    LowWord(Low4(x), x);
    LeBytesOfLeVal(Low4(x));
  }

  function Pow2(k: nat): (p: nat)
    ensures p > 0
  {
    if k == 0 then 1 else 2 * Pow2(k - 1)
  }

  /** Bitwise AND, bit by bit from the least significant end. */
  function BitAnd(a: nat, b: nat): nat {
    if a == 0 then 0 else (if a % 2 == 1 && b % 2 == 1 then 1 else 0) + 2 * BitAnd(a / 2, b / 2)
  }

  /** Bitwise OR, bit by bit from the least significant end. */
  function BitOr(a: nat, b: nat): nat {
    if a == 0 && b == 0 then 0 else (if a % 2 == 1 || b % 2 == 1 then 1 else 0) + 2 * BitOr(a / 2, b / 2)
  }

  lemma {:induction false} BitOrCommutes(a: nat, b: nat)
    ensures BitOr(a, b) == BitOr(b, a)
  {
    if a != 0 || b != 0 {
      BitOrCommutes(a / 2, b / 2);
    }
  }

  lemma {:induction false} BitOrZero(a: nat)
    ensures BitOr(0, a) == a && BitOr(a, 0) == a
  {
    if a != 0 {
      BitOrZero(a / 2);
    }
  }

  lemma DoubleProduct(b: nat, p: nat)
    ensures b * (2 * p) == 2 * (b * p)
  {
  }

  lemma BitOrEven(a: nat, c: nat)
    ensures BitOr(a, 2 * c) == a % 2 + 2 * BitOr(a / 2, c)
  {
    assert 2 * c / 2 == c;
  }

  /** ORing numbers that share no bits adds them. */
  lemma {:induction false} BitOrDisjoint(a: nat, b: nat, k: nat)
    requires a < Pow2(k)
    ensures BitOr(a, b * Pow2(k)) == a + b * Pow2(k)
  {
    if k == 0 {
      BitOrZero(b);
    } else {
      BitOrDisjoint(a / 2, b, k - 1);
      DoubleProduct(b, Pow2(k - 1));
      BitOrEven(a, b * Pow2(k - 1));
    }
  }

  /** ANDing with all ones of at least the operand's width changes nothing. */
  lemma {:induction false} BitAndOnes(a: nat, w: nat)
    requires a < Pow2(w)
    ensures BitAnd(a, Pow2(w) - 1) == a
  {
    if a != 0 {
      assert w > 0 && (Pow2(w) - 1) / 2 == Pow2(w - 1) - 1;
      BitAndOnes(a / 2, w - 1);
    }
  }

  lemma {:induction false} BitAndCommutes(a: nat, b: nat)
    ensures BitAnd(a, b) == BitAnd(b, a)
  {
    if a != 0 && b != 0 {
      BitAndCommutes(a / 2, b / 2);
    } else if a != 0 {
      BitAndCommutes(a / 2, 0);
    } else if b != 0 {
      BitAndCommutes(0, b / 2);
    }
  }

  lemma {:induction false} BitAndSelf(a: nat)
    ensures BitAnd(a, a) == a
  {
    if a != 0 {
      BitAndSelf(a / 2);
    }
  }

  lemma {:induction false} BitAndShrinks(a: nat, b: nat)
    ensures BitAnd(a, b) <= a
  {
    if a != 0 {
      BitAndShrinks(a / 2, b / 2);
    }
  }

  /** ANDing with a mask of `w` bits whose low `k` bits are clear rounds down to a multiple of 2^k. */
  lemma {:induction false} BitAndClearsLow(a: nat, k: nat, w: nat)
    requires k <= w && a < Pow2(w)
    ensures Pow2(k) <= Pow2(w)
    ensures BitAnd(a, Pow2(w) - Pow2(k)) == a - a % Pow2(k)
  {
    if k == 0 {
      BitAndOnes(a, w);
    } else {
      BitAndClearsLow(a / 2, k - 1, w - 1);
      var m := Pow2(w) - Pow2(k);
      assert m == 2 * (Pow2(w - 1) - Pow2(k - 1));
      assert m % 2 == 0 && m / 2 == Pow2(w - 1) - Pow2(k - 1);
      ModDouble(a, Pow2(k - 1));
    }
  }

  lemma ModDouble(a: nat, p: nat)
    requires p > 0
    ensures a % (2 * p) == 2 * (a / 2 % p) + a % 2
  {
    var h := a / 2;
    assert a == 2 * h + a % 2;
    assert h == p * (h / p) + h % p;
    assert a == (2 * p) * (h / p) + (2 * (h % p) + a % 2);
    DivModUnique(a, 2 * p, h / p, 2 * (h % p) + a % 2);
  }

  /** The quotient and remainder of a division are determined by their defining equation. */
  lemma DivModUnique(a: nat, d: nat, q: nat, r: nat)
    requires d > 0 && r < d && a == d * q + r
    ensures a / d == q && a % d == r
  {
    var q' := a / d;
    assert a == d * q' + a % d;
    if q' < q {
      MulGap(d, q', q);
    } else if q < q' {
      MulGap(d, q, q');
    }
  }

  lemma {:induction false} MulGap(d: nat, x: nat, y: nat)
    requires x < y
    ensures d * x + d <= d * y
  {
    if x + 1 < y {
      MulGap(d, x, y - 1);
      assert d * y == d * (y - 1) + d;
    }
  }

  lemma {:induction false} MulMono(d: nat, x: nat, y: nat)
    requires x <= y
    ensures d * x <= d * y
  {
    if x < y {
      MulGap(d, x, y);
    }
  }

  // ---- Memory images ----

  /** A memory image with `bytes` written at offset `at`. */
  function WriteAt(image: seq<byte>, at: nat, bytes: seq<byte>): (r: seq<byte>)
    requires at + |bytes| <= |image|
    ensures |r| == |image|
  {
    seq(|image|, k requires 0 <= k < |image| => if at <= k < at + |bytes| then bytes[k - at] else image[k])
  }

  lemma WriteAtSlice(image: seq<byte>, at: nat, bytes: seq<byte>)
    requires at + |bytes| <= |image|
    ensures WriteAt(image, at, bytes)[at..at + |bytes|] == bytes
  {
  }

  lemma WriteAtTwice(image: seq<byte>, at: nat, first: seq<byte>, bytes: seq<byte>)
    requires |first| == |bytes| && at + |bytes| <= |image|
    ensures WriteAt(WriteAt(image, at, first), at, bytes) == WriteAt(image, at, bytes)
  {
  }

  lemma WriteAtSame(image: seq<byte>, at: nat, n: nat)
    requires at + n <= |image|
    ensures WriteAt(image, at, image[at..at + n]) == image
  {
  }

  /** The image once `bytes` are stored one by one from `at` on. */
  function Stored(image: seq<byte>, at: nat, bytes: seq<byte>): (r: seq<byte>)
    requires at + |bytes| <= |image|
    ensures |r| == |image|
    decreases |bytes|
  {
    if |bytes| == 0 then image else Stored(image[at := bytes[0]], at + 1, bytes[1..])
  }

  lemma {:induction false} StoredIsWritten(image: seq<byte>, at: nat, bytes: seq<byte>)
    requires at + |bytes| <= |image|
    ensures Stored(image, at, bytes) == WriteAt(image, at, bytes)
    decreases |bytes|
  {
    if |bytes| > 0 {
      StoredIsWritten(image[at := bytes[0]], at + 1, bytes[1..]);
      FirstWritten(image, at, bytes);
    } else {
      assert WriteAt(image, at, []) == image;
    }
  }

  lemma FirstWritten(image: seq<byte>, at: nat, bytes: seq<byte>)
    requires 0 < |bytes| && at + |bytes| <= |image|
    ensures WriteAt(image[at := bytes[0]], at + 1, bytes[1..]) == WriteAt(image, at, bytes)
  {
  }

  /** Bytes stored one after the other are stored together. */
  lemma StoredAppend(image: seq<byte>, at: nat, first: seq<byte>, second: seq<byte>)
    requires at + |first| + |second| <= |image|
    ensures Stored(Stored(image, at, first), at + |first|, second) == Stored(image, at, first + second)
  {
    StoredIsWritten(image, at, first);
    StoredIsWritten(WriteAt(image, at, first), at + |first|, second);
    StoredIsWritten(image, at, first + second);
    WriteAtAppend(image, at, first, second);
  }

  /** Two adjacent writes are one write of both. */
  lemma WriteAtAppend(image: seq<byte>, at: nat, first: seq<byte>, second: seq<byte>)
    requires at + |first| + |second| <= |image|
    ensures WriteAt(WriteAt(image, at, first), at + |first|, second) == WriteAt(image, at, first + second)
  {
  }

  /** A slice of two joined sequences that lies within one of them. */
  lemma SliceOfJoin<T>(a: seq<T>, b: seq<T>, at: nat, n: nat)
    requires at + n <= |a| + |b| && (at + n <= |a| || at >= |a|)
    ensures (a + b)[at..at + n] == if at + n <= |a| then a[at..at + n] else b[at - |a|..at - |a| + n]
  {
  }

  /** All pieces, one after the other. */
  function JoinAll(pieces: seq<seq<byte>>): seq<byte> {
    if |pieces| == 0 then [] else pieces[0] + JoinAll(pieces[1..])
  }

  lemma JoinFirst(pieces: seq<seq<byte>>, k: nat)
    requires k < |pieces|
    ensures JoinAll(pieces[k..]) == pieces[k] + JoinAll(pieces[k + 1..])
  {
    assert pieces[k..][1..] == pieces[k + 1..];
  }

  lemma JoinFour(pieces: seq<seq<byte>>, k: nat)
    requires k + 4 <= |pieces|
    ensures JoinAll(pieces[k..]) == 
      pieces[k] + (pieces[k + 1] + (pieces[k + 2] + (pieces[k + 3] + JoinAll(pieces[k + 4..]))))
  {
    JoinFirst(pieces, k);
    JoinFirst(pieces, k + 1);
    JoinFirst(pieces, k + 2);
    JoinFirst(pieces, k + 3);
  }

  /** Eight pieces written out. */
  lemma JoinEight(p: seq<seq<byte>>)
    requires |p| == 8
    ensures JoinAll(p) == p[0] + (p[1] + (p[2] + (p[3] + (p[4] + (p[5] + (p[6] + p[7]))))))
  {
    JoinFour(p, 0);
    JoinFour(p, 4);
    assert p[0..] == p && p[7] + JoinAll(p[8..]) == p[7];
  }

  /** Pieces of `n` bytes each. */
  ghost predicate AllLong(pieces: seq<seq<byte>>, n: nat) {
    forall i | 0 <= i < |pieces| :: |pieces[i]| == n
  }

  lemma {:induction false} JoinedLength(pieces: seq<seq<byte>>, n: nat)
    requires AllLong(pieces, n)
    ensures |JoinAll(pieces)| == n * |pieces|
  {
    if |pieces| > 0 {
      JoinedLength(pieces[1..], n);
      assert n * |pieces| == n + n * (|pieces| - 1);
    }
  }

  /** Piece `i` of equally long pieces is where its number says. */
  lemma {:induction false} JoinedPiece(pieces: seq<seq<byte>>, n: nat, i: nat)
    requires AllLong(pieces, n) && i < |pieces|
    ensures n * i + n <= |JoinAll(pieces)| && JoinAll(pieces)[n * i..n * i + n] == pieces[i]
  {
    if i > 0 {
      JoinedPiece(pieces[1..], n, i - 1);
      assert n * i == n + n * (i - 1);
      SliceOfJoin(pieces[0], JoinAll(pieces[1..]), n * i, n);
    }
  }

  lemma {:induction false} JoinedWithLast(pieces: seq<seq<byte>>, last: seq<byte>)
    ensures JoinAll(pieces + [last]) == JoinAll(pieces) + last
  {
    if |pieces| > 0 {
      JoinedWithLast(pieces[1..], last);
      assert (pieces + [last])[1..] == pieces[1..] + [last];
    } else {
      assert ([last])[1..] == [] && pieces + [last] == [last];
    }
  }

  /** Where piece `k` begins. */
  function Offset(p: seq<seq<byte>>, k: nat): nat
    requires k <= |p|
  {
    if k == 0 then 0 else Offset(p, k - 1) + |p[k - 1]|
  }

  lemma {:induction false} OffsetInRest(p: seq<seq<byte>>, k: nat)
    requires 0 < k <= |p|
    ensures Offset(p, k) == |p[0]| + Offset(p[1..], k - 1)
  {
    if k > 1 {
      OffsetInRest(p, k - 1);
    }
  }

  lemma {:induction false} PieceAt(p: seq<seq<byte>>, k: nat)
    requires k < |p|
    ensures var at := Offset(p, k); at + |p[k]| <= |JoinAll(p)| && JoinAll(p)[at..at + |p[k]|] == p[k]
  {
    if k > 0 {
      OffsetInRest(p, k);
      PieceAt(p[1..], k - 1);
      SliceOfJoin(p[0], JoinAll(p[1..]), Offset(p, k), |p[k]|);
    }
  }

  // ---- Sixteen-bit words ----

  function Le16(x: nat): (s: seq<byte>)
    ensures |s| == 2
  {
    LeBytes(x, 2)
  }

  function U16(s: seq<byte>, at: nat): (x: nat)
    requires at + 2 <= |s|
    ensures x < 0x1_0000
  {
    LeValBound(s[at..at + 2]);
    Pow2Of32();
    LeVal(s[at..at + 2])
  }

  lemma U16OfLe16(s: seq<byte>, at: nat, x: nat)
    requires x < 0x1_0000 && at + 2 <= |s| && s[at..at + 2] == Le16(x)
    ensures U16(s, at) == x
  {
    Pow2Of32();
    LeRoundTrip(x, 2);
  }
}
