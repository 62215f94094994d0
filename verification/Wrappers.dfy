/** The wrappers of the USB Bulk-Only Transport: decoding a command block wrapper (CBW), packing a
    command status wrapper (CSW), and resynchronising on the CBW signature. */
module Wrappers {
  import opened Bytes

  const CBW_BYTES: nat := 31
  const CSW_BYTES: nat := 13
  const CSW_SIGNATURE: nat := 0x53425355

  datatype Direction = HostToDevice | DeviceToHost

  datatype CommandStatus = CommandOk | CommandError | PhaseError

  datatype Cbw = Cbw(tag: nat, length: nat, direction: Direction, lun: byte, dataLength: byte, data: seq<byte>)

  /** Only the direction byte can make decoding fail; the signature is not looked at here. */
  function DecodeCbw(s: seq<byte>): (r: Option<Cbw>)
    requires |s| >= CBW_BYTES
    ensures r.Some? ==> r.value.tag < TWO_32 && r.value.length < TWO_32 && |r.value.data| == 16
  {
    if s[12] == 0x00 then Some(Cbw(U32(s, 4), U32(s, 8), HostToDevice, s[13], s[14], s[15..31]))
    else if s[12] == 0x80 then Some(Cbw(U32(s, 4), U32(s, 8), DeviceToHost, s[13], s[14], s[15..31]))
    else None
  }

  function StatusByte(status: CommandStatus): byte {
    match status
    case CommandOk => 0
    case CommandError => 1
    case PhaseError => 2
  }

  function CswBytes(tag: nat, residue: nat, status: CommandStatus): (s: seq<byte>)
    requires tag < TWO_32 && residue < TWO_32
    ensures |s| == CSW_BYTES
  {
    Le32(CSW_SIGNATURE) + Le32(tag) + Le32(residue) + [StatusByte(status)]
  }

  /** What a host that follows section 5.2 of the Bulk-Only Transport specification reads in a CSW. */
  lemma CswReadBack(tag: nat, residue: nat, status: CommandStatus)
    requires tag < TWO_32 && residue < TWO_32
    ensures var s := CswBytes(tag, residue, status);
      && s[..4] == [0x55, 0x53, 0x42, 0x53] && U32(s, 4) == tag && U32(s, 8) == residue
      && s[12] == match status { case CommandOk => 0 case CommandError => 1 case PhaseError => 2 }
  {
    LowIsLe32(CSW_SIGNATURE);
    var s := CswBytes(tag, residue, status);
    assert s[0..4] == Le32(CSW_SIGNATURE) && s[4..8] == Le32(tag) && s[8..12] == Le32(residue);
    U32OfLe32(s, 0, CSW_SIGNATURE);
    U32OfLe32(s, 4, tag);
    U32OfLe32(s, 8, residue);
  }

  predicate SignatureAt(s: seq<byte>, i: nat) {
    i + 4 <= |s| && s[i] == 0x55 && s[i + 1] == 0x53 && s[i + 2] == 0x42 && s[i + 3] == 0x43
  }

  /** The index find_signature returns: the first match at an index below length - 4. */
  function FindSignatureFrom(s: seq<byte>, from: nat): (r: Option<nat>)
    ensures r.Some? ==> from <= r.value && r.value + 4 < |s| && SignatureAt(s, r.value)
    ensures r.Some? ==> forall k | from <= k < r.value :: !SignatureAt(s, k)
    ensures r.None? ==> forall k | from <= k < |s| - 4 :: !SignatureAt(s, k)
    decreases |s| - from
  {
    if from + 4 >= |s| then None
    else if SignatureAt(s, from) then Some(from)
    else FindSignatureFrom(s, from + 1)
  }

  method FindSignature(s: seq<byte>) returns (r: Option<nat>)
    ensures r == FindSignatureFrom(s, 0)
  {
    if |s| < 4 {
      return None;
    }
    for i := 0 to |s| - 4
      invariant FindSignatureFrom(s, 0) == FindSignatureFrom(s, i)
    {
      if SignatureAt(s[i..i + 4], 0) {
        return Some(i);
      }
    }
    return None;
  }

  /** What resynchronisation keeps: the bytes from the first signature on, or the last three, which may be the
      beginning of one. */
  function Resync(s: seq<byte>): (r: seq<byte>)
    ensures |r| <= |s| && r == s[|s| - |r|..]
    ensures |r| >= 4 ==> SignatureAt(r, 0)
  {
    if |s| < 4 then s
    else match FindSignatureFrom(s, 0)
         case Some(i) => s[i..]
         case None => s[|s| - 3..]
  }

  /** Shifts the survivors of the first `len` bytes to the front, in place. */
  method TruncateToSignature(buf: array<byte>, len: nat) returns (n: nat)
    requires len <= buf.Length
    modifies buf
    ensures n <= len && buf[..n] == Resync(old(buf[..len]))
  {
    if len < 4 {
      return len;
    }
    ghost var was := buf[..len];
    var found := FindSignature(buf[..len]);
    var start := if found.Some? then found.value else len - 3;
    for i := start to len
      invariant forall k | start <= k < i :: buf[k - start] == was[k]
      invariant forall k | i <= k < len :: buf[k] == was[k]
    {
      buf[i - start] := buf[i];
    }
    n := len - start;
    assert buf[..n] == was[start..];
  }

  /** Resynchronisation keeps the first signature in the buffer exactly when at least one byte follows it: a
      signature that ends the buffer is cut to its last three bytes. */
  lemma SignatureKeptIff(s: seq<byte>, i: nat)
    requires SignatureAt(s, i) && forall k: nat | k < i :: !SignatureAt(s, k)
    ensures Resync(s) == s[i..] <==> i + 4 < |s|
    ensures i + 4 == |s| ==> Resync(s) == s[i + 1..]
  {
    var found := FindSignatureFrom(s, 0);
    if i + 4 < |s| && found.Some? {
      assert !(found.value < i) && !(i < found.value);
    } else if i + 4 == |s| {
      assert |s[i..]| == 4 && |Resync(s)| == 3;
    }
  }
}
