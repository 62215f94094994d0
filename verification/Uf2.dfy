/** UF2 blocks: 512 bytes that carry up to 476 bytes of a firmware image and the address they belong at. */
module Uf2 {
  import opened Bytes

  const DATA_LENGTH: nat := 476
  const BLOCK_BYTES: nat := 512
  const MAGIC_START0: nat := 0x0A324655
  const MAGIC_START1: nat := 0x9E5D5157
  const MAGIC_END: nat := 0x0AB16F30

  datatype Error = DataTooLong | InsufficientPackedBytes | IncorrectMagic

  datatype Result<+T> = Ok(value: T) | Err(error: Error)

  datatype Block = Block(flags: nat, targetAddress: nat, payloadSize: nat, blockNumber: nat, numberOfBlocks: nat,
                         familyId: nat, data: seq<byte>)
  {
    predicate Valid() {
      && flags < TWO_32 && targetAddress < TWO_32 && payloadSize < TWO_32 && blockNumber < TWO_32
      && numberOfBlocks < TWO_32 && familyId < TWO_32 && |data| == DATA_LENGTH
    }
  }

  function New(targetAddress: nat, data: seq<byte>): Result<Block> {
    if |data| > DATA_LENGTH then Err(DataTooLong)
    else Ok(Block(0, targetAddress, |data|, 0, 0, 0, data + seq(DATA_LENGTH - |data|, _ => 0)))
  }

  function Pack(b: Block): (s: seq<byte>)
    requires b.Valid()
    ensures |s| == BLOCK_BYTES
  {
    Le32(MAGIC_START0) + Le32(MAGIC_START1) + Le32(b.flags) + Le32(b.targetAddress) + Le32(b.payloadSize)
    + Le32(b.blockNumber) + Le32(b.numberOfBlocks) + Le32(b.familyId) + b.data + Le32(MAGIC_END)
  }

  function Parse(s: seq<byte>): (r: Result<Block>)
    ensures r.Ok? ==> r.value.Valid()
  {
    if |s| < BLOCK_BYTES then Err(InsufficientPackedBytes)
    else if U32(s, 0) != MAGIC_START0 || U32(s, 4) != MAGIC_START1 || U32(s, 508) != MAGIC_END then Err(IncorrectMagic)
    else Ok(Block(U32(s, 8), U32(s, 12), U32(s, 16), U32(s, 20), U32(s, 24), U32(s, 28), s[32..508]))
  }

  /** The bytes of a block, written out. */
  function BlockBytes(b: Block): seq<byte>
    requires b.Valid()
  {
    [0x55, 0x46, 0x32, 0x0A, 0x57, 0x51, 0x5D, 0x9E] + Low4(b.flags) + Low4(b.targetAddress) + Low4(b.payloadSize)
    + Low4(b.blockNumber) + Low4(b.numberOfBlocks) + Low4(b.familyId) + b.data + [0x30, 0x6F, 0xB1, 0x0A]
  }

  lemma PackIs(b: Block)
    requires b.Valid()
    ensures Pack(b) == BlockBytes(b)
  {
    LowIsLe32(MAGIC_START0);
    LowIsLe32(MAGIC_START1);
    LowIsLe32(b.flags);
    LowIsLe32(b.targetAddress);
    LowIsLe32(b.payloadSize);
    LowIsLe32(b.blockNumber);
    LowIsLe32(b.numberOfBlocks);
    LowIsLe32(b.familyId);
    LowIsLe32(MAGIC_END);
    MagicBytes();
  }

  lemma MagicBytes()
    ensures Low4(MAGIC_START0) + Low4(MAGIC_START1) == [0x55, 0x46, 0x32, 0x0A, 0x57, 0x51, 0x5D, 0x9E]
    ensures Low4(MAGIC_END) == [0x30, 0x6F, 0xB1, 0x0A]
  {
  }

  lemma ParseOfPack(b: Block)
    requires b.Valid()
    ensures Parse(Pack(b)) == Ok(b)
  {
    var s := Pack(b);
    U32OfLe32(s, 0, MAGIC_START0);
    U32OfLe32(s, 4, MAGIC_START1);
    U32OfLe32(s, 8, b.flags);
    U32OfLe32(s, 12, b.targetAddress);
    U32OfLe32(s, 16, b.payloadSize);
    U32OfLe32(s, 20, b.blockNumber);
    U32OfLe32(s, 24, b.numberOfBlocks);
    U32OfLe32(s, 28, b.familyId);
    U32OfLe32(s, 508, MAGIC_END);
    assert s[32..508] == b.data;
  }

  /** Four consecutive words read and written back are the sixteen bytes they came from. */
  lemma FourWords(s: seq<byte>, at: nat)
    requires at + 16 <= |s|
    ensures Le32(U32(s, at)) + Le32(U32(s, at + 4)) + Le32(U32(s, at + 8)) + Le32(U32(s, at + 12)) == s[at..at + 16]
  {
    Le32OfU32(s, at);
    Le32OfU32(s, at + 4);
    Le32OfU32(s, at + 8);
    Le32OfU32(s, at + 12);
  }

  /** Nothing in an accepted block is lost: packing what was parsed gives back every byte. */
  lemma PackOfParse(s: seq<byte>)
    requires |s| == BLOCK_BYTES && Parse(s).Ok?
    ensures Pack(Parse(s).value) == s
  {
    FourWords(s, 0);
    FourWords(s, 16);
    Le32OfU32(s, 508);
    Regroup(Le32(U32(s, 0)), Le32(U32(s, 4)), Le32(U32(s, 8)), Le32(U32(s, 12)),
            Le32(U32(s, 16)), Le32(U32(s, 20)), Le32(U32(s, 24)), Le32(U32(s, 28)), s[32..508], Le32(U32(s, 508)));
    Rejoin(s);
  }

  lemma Regroup(a: seq<byte>, b: seq<byte>, c: seq<byte>, d: seq<byte>, e: seq<byte>, f: seq<byte>, g: seq<byte>,
                h: seq<byte>, i: seq<byte>, j: seq<byte>)
    ensures a + b + c + d + e + f + g + h + i + j == (a + b + c + d) + (e + f + g + h) + i + j
  {
    var p := a + b + c + d;
    assert p + e + f + g + h == p + (e + f + g + h);
  }

  lemma Rejoin(s: seq<byte>)
    requires |s| == BLOCK_BYTES
    ensures s[0..16] + s[16..32] + s[32..508] + s[508..512] == s
  {
  }

  // ---- Conversion of a firmware image ----

  /** slice::chunks: consecutive pieces of `size` bytes, the last one possibly shorter. */
  function Chunks(data: seq<byte>, size: nat): (r: seq<seq<byte>>)
    requires size > 0
    ensures forall i | 0 <= i < |r| :: 0 < |r[i]| <= size
    decreases |data|
  {
    if |data| == 0 then []
    else if |data| <= size then [data]
    else [data[..size]] + Chunks(data[size..], size)
  }

  lemma {:induction false} ChunkAt(data: seq<byte>, size: nat, i: nat)
    requires size > 0 && i < |Chunks(data, size)|
    ensures size * i < |data|
    ensures Chunks(data, size)[i] == data[size * i..if size * i + size <= |data| then size * i + size else |data|]
    decreases |data|
  {
    if |data| > size && i > 0 {
      var rest := data[size..];
      ChunkAt(rest, size, i - 1);
      assert size * i == size * (i - 1) + size;
      var at := size * (i - 1);
      SliceOfRest(data, size, at, if at + size <= |rest| then at + size else |rest|);
    }
  }

  lemma SliceOfRest(data: seq<byte>, size: nat, from: nat, to: nat)
    requires size <= |data| && from <= to <= |data| - size
    ensures data[size..][from..to] == data[size + from..size + to]
  {
  }

  /** Every byte of the data lies in the chunk its index says. */
  lemma {:induction false} ChunkOf(data: seq<byte>, size: nat, k: nat)
    requires size > 0 && k < |data|
    ensures k / size < |Chunks(data, size)| && k % size < |Chunks(data, size)[k / size]|
    ensures Chunks(data, size)[k / size][k % size] == data[k]
    decreases |data|
  {
    assert k == size * (k / size) + k % size;
    if k < size {
      DivModUnique(k, size, 0, k);
    } else {
      var q := (k - size) / size;
      assert k == size * q + size + (k - size) % size;
      assert size * (q + 1) == size * q + size;
      DivModUnique(k, size, q + 1, (k - size) % size);
      ChunkOf(data[size..], size, k - size);
    }
  }

  /** As many whole pages as a block can carry. */
  function BlockSize(pageSize: nat): (r: Result<nat>)
    requires pageSize > 0
    ensures r.Ok? <==> pageSize <= DATA_LENGTH
    ensures r.Ok? ==> r.value % pageSize == 0 && pageSize <= r.value <= DATA_LENGTH < r.value + pageSize
  {
    if pageSize > DATA_LENGTH then Err(DataTooLong)
    else
      WholePages(DATA_LENGTH, pageSize);
      Ok(DATA_LENGTH / pageSize * pageSize)
  }

  lemma WholePages(n: nat, pageSize: nat)
    requires 0 < pageSize <= n
    ensures var size := n / pageSize * pageSize; size % pageSize == 0 && pageSize <= size <= n < size + pageSize
  {
    var q := n / pageSize;
    assert n == pageSize * q + n % pageSize;
    assert q >= 1;
    MulMono(pageSize, 1, q);
    DivModUnique(pageSize * q, pageSize, q, 0);
    assert q * pageSize == pageSize * q;
  }

  /** There is only one such size. */
  lemma OneSize(n: nat, pageSize: nat, a: nat, b: nat)
    requires pageSize > 0 && a % pageSize == 0 && b % pageSize == 0
    requires a <= n < a + pageSize && b <= n < b + pageSize
    ensures a == b
  {
    var p, q := a / pageSize, b / pageSize;
    assert a == pageSize * p && b == pageSize * q;
    if p < q {
      MulGap(pageSize, p, q);
    } else if q < p {
      MulGap(pageSize, q, p);
    }
  }

  function Blockify(baseAddress: nat, blockSize: nat, data: seq<byte>): (r: seq<Block>)
    requires 0 < blockSize <= DATA_LENGTH && baseAddress + |data| <= TWO_32
    ensures |r| == |Chunks(data, blockSize)|
  {
    var chunks := Chunks(data, blockSize);
    seq(|chunks|, i requires 0 <= i < |chunks| => New(baseAddress + i * blockSize, chunks[i]).value)
  }

  predicate AllValid(blocks: seq<Block>) {
    forall i | 0 <= i < |blocks| :: blocks[i].Valid()
  }

  function Numbered(b: Block, number: nat, total: nat): Block {
    b.(blockNumber := number, numberOfBlocks := total)
  }

  /** The packed blocks, each with its number and the total. */
  function Pieces(blocks: seq<Block>): (r: seq<seq<byte>>)
    requires |blocks| < TWO_32 && AllValid(blocks)
    ensures |r| == |blocks| && forall i | 0 <= i < |r| :: |r[i]| == BLOCK_BYTES
  {
    seq(|blocks|, i requires 0 <= i < |blocks| =>
      assert blocks[i].Valid();
      Pack(Numbered(blocks[i], i, |blocks|)))
  }

  function Finalize(blocks: seq<Block>): (r: seq<byte>)
    requires |blocks| < TWO_32 && AllValid(blocks)
    ensures |r| == 512 * |blocks|
  {
    JoinedLength(Pieces(blocks), 512);
    JoinAll(Pieces(blocks))
  }

  lemma PackedAt(blocks: seq<Block>, i: nat)
    requires i < |blocks| < TWO_32 && AllValid(blocks)
    ensures Numbered(blocks[i], i, |blocks|).Valid()
    ensures Finalize(blocks)[512 * i..512 * i + 512] == Pack(Numbered(blocks[i], i, |blocks|))
  {
    assert blocks[i].Valid();
    JoinedPiece(Pieces(blocks), 512, i);
  }

  function ConvertBin(data: seq<byte>, pageSize: nat, baseAddress: nat): (r: Result<seq<byte>>)
    requires pageSize > 0 && baseAddress + |data| <= TWO_32
  {
    match BlockSize(pageSize)
    case Err(e) => Err(e)
    case Ok(size) =>
      BlockifyIsValid(baseAddress, size, data);
      Ok(Finalize(Blockify(baseAddress, size, data)))
  }

  lemma {:induction false} FewChunks(data: seq<byte>, size: nat)
    requires size >= 2
    ensures 2 * |Chunks(data, size)| <= |data| + 1
    decreases |data|
  {
    if |data| > size {
      FewChunks(data[size..], size);
    }
  }

  lemma BlockifyAt(baseAddress: nat, blockSize: nat, data: seq<byte>, i: nat)
    requires 0 < blockSize <= DATA_LENGTH && baseAddress + |data| <= TWO_32
    requires i < |Chunks(data, blockSize)|
    ensures Blockify(baseAddress, blockSize, data)[i] ==
      New(baseAddress + i * blockSize, Chunks(data, blockSize)[i]).value
    ensures Blockify(baseAddress, blockSize, data)[i].Valid()
  {
    ChunkAt(data, blockSize, i);
    assert i * blockSize == blockSize * i;
  }

  lemma BlockifyIsValid(baseAddress: nat, blockSize: nat, data: seq<byte>)
    requires 2 <= blockSize <= DATA_LENGTH && baseAddress + |data| <= TWO_32
    ensures AllValid(Blockify(baseAddress, blockSize, data))
    ensures |Blockify(baseAddress, blockSize, data)| < TWO_32
  {
    FewChunks(data, blockSize);
    forall i | 0 <= i < |Blockify(baseAddress, blockSize, data)|
      ensures Blockify(baseAddress, blockSize, data)[i].Valid() {
      BlockifyAt(baseAddress, blockSize, data, i);
    }
  }

  /** The `i`-th 512-byte piece of a sequence of packed blocks. */
  function Piece(uf2: seq<byte>, i: nat): (s: seq<byte>)
    requires 512 * i + 512 <= |uf2|
    ensures |s| == BLOCK_BYTES
  {
    uf2[512 * i..512 * i + 512]
  }

  /** Block `i` of a converted image parses back to chunk `i` of the image, its address, its number and the total. */
  lemma ConvertedBlock(data: seq<byte>, pageSize: nat, baseAddress: nat, i: nat)
    requires pageSize > 0 && baseAddress + |data| <= TWO_32 && BlockSize(pageSize).Ok?
    requires i < |Chunks(data, BlockSize(pageSize).value)|
    ensures
      var size := BlockSize(pageSize).value;
      var chunk := Chunks(data, size)[i];
      var uf2 := ConvertBin(data, pageSize, baseAddress);
      && uf2.Ok?
      && |uf2.value| == 512 * |Chunks(data, size)|
      && 512 * i + 512 <= |uf2.value|
      && var b := Parse(Piece(uf2.value, i));
      && b.Ok?
      && b.value.targetAddress == baseAddress + size * i
      && b.value.payloadSize == |chunk| <= DATA_LENGTH
      && b.value.data[..|chunk|] == chunk
      && b.value.blockNumber == i
      && b.value.numberOfBlocks == |Chunks(data, size)|
  {
    var size := BlockSize(pageSize).value;
    var blocks := Blockify(baseAddress, size, data);
    BlockifyIsValid(baseAddress, size, data);
    BlockifyAt(baseAddress, size, data, i);
    PackedAt(blocks, i);
    ParseOfPack(Numbered(blocks[i], i, |blocks|));
    assert i * size == size * i;
  }

  lemma {:induction false} ChunkCount(data: seq<byte>, size: nat)
    requires size > 0
    ensures |Chunks(data, size)| == (|data| + size - 1) / size
    decreases |data|
  {
    if |data| == 0 {
      DivModUnique(size - 1, size, 0, size - 1);
    } else if |data| <= size {
      DivModUnique(|data| + size - 1, size, 1, |data| - 1);
    } else {
      ChunkCount(data[size..], size);
      var m := |data| - 1;
      assert m == size * (m / size) + m % size;
      assert size * (m / size + 1) == size * (m / size) + size;
      DivModUnique(m + size, size, m / size + 1, m % size);
    }
  }

  /** A converted image, byte by byte. Every block but the last carries as many whole pages as fit, `size` bytes, so
      that it begins on a page if the image does; blocks are as few as that allows. */
  lemma ConvertedBytes(data: seq<byte>, pageSize: nat, baseAddress: nat, size: nat, i: nat)
    requires 0 < pageSize && baseAddress + |data| <= TWO_32 && size * i < |data|
    requires size % pageSize == 0 && 0 < size <= 476 < size + pageSize
    ensures
      var total := (|data| + size - 1) / size;
      var end := if size * i + size <= |data| then size * i + size else |data|;
      var carried := data[size * i..end];
      var uf2 := ConvertBin(data, pageSize, baseAddress);
      && uf2.Ok? && |uf2.value| == 512 * total && i < total < TWO_32
      && |uf2.value| >= 512 * i + 512
      && uf2.value[512 * i..512 * i + 512] == BlockBytes(
           Block(0, baseAddress + size * i, |carried|, i, total, 0, carried + seq(476 - |carried|, _ => 0)))
  {
    SizeIs(pageSize, size);
    NumberedMeans(data, size, baseAddress, i);
    ConvertedPack(data, pageSize, baseAddress, size, i);
    PackIs(NumberedChunk(data, size, baseAddress, i));
  }

  lemma NumberedMeans(data: seq<byte>, size: nat, baseAddress: nat, i: nat)
    requires 0 < size <= 476 && size * i < |data|
    ensures var total := (|data| + size - 1) / size;
      var end := if size * i + size <= |data| then size * i + size else |data|;
      var carried := data[size * i..end];
      && i < total == |Chunks(data, size)|
      && NumberedChunk(data, size, baseAddress, i) ==
           Block(0, baseAddress + size * i, |carried|, i, total, 0, carried + seq(476 - |carried|, _ => 0))
  {
    ChunkCount(data, size);
    ChunkInRange(data, size, i);
    ChunkAt(data, size, i);
  }

  lemma SizeIs(pageSize: nat, size: nat)
    requires 0 < pageSize && size % pageSize == 0 && 0 < size <= 476 < size + pageSize
    ensures BlockSize(pageSize) == Ok(size)
  {
    assert size == pageSize * (size / pageSize);
    MulMono(pageSize, 1, size / pageSize);
    OneSize(476, pageSize, BlockSize(pageSize).value, size);
  }

  lemma ChunkInRange(data: seq<byte>, size: nat, i: nat)
    requires size > 0 && size * i < |data|
    ensures i < |Chunks(data, size)|
  {
    ChunkOf(data, size, size * i);
    DivModUnique(size * i, size, i, 0);
  }

  /** Block `i` as convert_bin packs it. */
  function NumberedChunk(data: seq<byte>, size: nat, baseAddress: nat, i: nat): Block
    requires 0 < size <= DATA_LENGTH && i < |Chunks(data, size)|
  {
    var (chunk, total) := (Chunks(data, size)[i], |Chunks(data, size)|);
    Block(0, baseAddress + size * i, |chunk|, i, total, 0, chunk + seq(DATA_LENGTH - |chunk|, _ => 0))
  }

  lemma NumberedIs(data: seq<byte>, size: nat, baseAddress: nat, i: nat)
    requires 2 <= size <= DATA_LENGTH && baseAddress + |data| <= TWO_32 && i < |Chunks(data, size)|
    ensures Numbered(Blockify(baseAddress, size, data)[i], i, |Chunks(data, size)|) ==
      NumberedChunk(data, size, baseAddress, i)
  {
    BlockifyAt(baseAddress, size, data, i);
    assert i * size == size * i;
  }

  lemma ConvertedPack(data: seq<byte>, pageSize: nat, baseAddress: nat, size: nat, i: nat)
    requires pageSize > 0 && baseAddress + |data| <= TWO_32 && BlockSize(pageSize) == Ok(size) && 2 <= size
    requires i < |Chunks(data, size)|
    ensures |Chunks(data, size)| < TWO_32 && NumberedChunk(data, size, baseAddress, i).Valid()
    ensures var uf2 := ConvertBin(data, pageSize, baseAddress);
      && uf2.Ok? && |uf2.value| == 512 * |Chunks(data, size)| && 512 * i + 512 <= |uf2.value|
      && uf2.value[512 * i..512 * i + 512] == Pack(NumberedChunk(data, size, baseAddress, i))
  {
    BlockifyIsValid(baseAddress, size, data);
    NumberedIs(data, size, baseAddress, i);
    PackedAt(Blockify(baseAddress, size, data), i);
  }
}
