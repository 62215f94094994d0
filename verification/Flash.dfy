/** The bootloader's flash driver: a write-back buffer of one page over NOR flash that can only clear bits until a
    whole page is erased. */
module Flash {
  import opened Bytes

  datatype FlashError = HardwareError | WriteError | EraseError | InvalidAddress

  datatype Outcome = Ok | Err(error: FlashError)

  function AndBytes(a: byte, b: byte): byte {
    BitAndShrinks(a, b);
    BitAnd(a, b)
  }

  /** Programming cells that hold `was` with `new_` leaves the bitwise AND of the two. */
  predicate Programmable(was: byte, new_: byte) {
    BitAnd(was, new_) == new_
  }

  ghost predicate AllProgrammable(was: seq<byte>, new_: seq<byte>) {
    |was| == |new_| && forall k | 0 <= k < |was| :: Programmable(was[k], new_[k])
  }

  function Blank(n: nat): (s: seq<byte>)
    ensures |s| == n
  {
    seq(n, _ => 255)
  }

  lemma NotBlank(s: seq<byte>, k: nat, b0: byte, b1: byte, b2: byte, b3: byte)
    requires k + 4 <= |s| && s[k] == b0 && s[k + 1] == b1 && s[k + 2] == b2 && s[k + 3] == b3
    requires !(b0 == 255 && b1 == 255 && b2 == 255 && b3 == 255)
    ensures s != Blank(|s|)
  {
    assert forall j | 0 <= j < |s| :: Blank(|s|)[j] == 255;
  }

  lemma ErasedIsProgrammable(new_: seq<byte>)
    ensures AllProgrammable(Blank(|new_|), new_)
  {
    forall k | 0 <= k < |new_| ensures Programmable(Blank(|new_|)[k], new_[k]) {
      Pow2Of32();
      BitAndOnes(new_[k], 8);
      BitAndCommutes(255, new_[k]);
    }
  }

  /** The flash cells [base, base + cells.Length). Reading any other address returns what the bus has there. */
  class Chip {
    const base: nat
    const cells: array<byte>
    const bus: nat -> byte
    ghost var image: seq<byte>  // what the cells hold
    ghost var erased: seq<nat>  // the pages erased so far

    constructor (base: nat, cells: array<byte>, bus: nat -> byte)
      ensures Valid() && this.base == base && this.cells == cells && image == cells[..] && erased == []
      ensures this.bus == bus
    {
      this.base, this.cells, this.bus := base, cells, bus;
      image, erased := cells[..], [];
    }

    ghost predicate Valid()
      reads this, cells
    {
      cells[..] == image
    }

    ghost predicate Holds(address: nat, n: nat)
      reads this
    {
      base <= address && address - base + n <= |image|
    }

    ghost function Slice(address: nat, n: nat): (s: seq<byte>)
      requires Holds(address, n)
      reads this
      ensures |s| == n
    {
      image[address - base..address - base + n]
    }

    /** What reading an address gives. */
    ghost function Seen(address: nat): byte
      reads this
    {
      SeenIn(image, base, bus, address)
    }

    method Read(address: nat) returns (b: byte)
      requires Valid()
      ensures b == Seen(address)
    {
      if base <= address < base + cells.Length {
        b := cells[address - base];
      } else {
        b := bus(address);
      }
    }

    method ProgramHalfWord(address: nat, lo: byte, hi: byte)
      requires Valid() && Holds(address, 2)
      modifies this`image, cells
      ensures Valid()
      ensures var i := address - base;
        image == old(image)[i := AndBytes(old(image)[i], lo)][i + 1 := AndBytes(old(image)[i + 1], hi)]
    {
      var i := address - base;
      cells[i], cells[i + 1] := AndBytes(cells[i], lo), AndBytes(cells[i + 1], hi);
      image := cells[..];
    }

    method Erase(page: nat, size: nat)
      requires Valid() && Holds(page, size)
      modifies this`erased, this`image, cells
      ensures Valid() && erased == old(erased) + [page]
      ensures image == WriteAt(old(image), page - base, Blank(size))
    {
      forall k | page - base <= k < page - base + size {
        cells[k] := 255;
      }
      image, erased := cells[..], erased + [page];
    }
  }

  function SeenIn(image: seq<byte>, base: nat, bus: nat -> byte, address: nat): byte {
    if base <= address < base + |image| then image[address - base] else bus(address)
  }

  datatype Needs = Nothing | Write | Erase

  class FlashWrapper {
    const chip: Chip
    const pageSize: nat
    const pageBits: nat
    const minAddress: nat
    const maxAddress: nat
    const pageBuffer: array<byte>
    var currentPage: Option<nat>
    ghost var page: seq<byte>  // what the page buffer holds

    constructor (chip: Chip, pageBits: nat, minAddress: nat, maxAddress: nat)
      requires chip.Valid() && 2 <= pageBits <= 11 && maxAddress < TWO_32
      requires 0 < chip.base <= minAddress <= maxAddress <= chip.base + |chip.image|
      requires IsAligned(minAddress, pageBits) && IsAligned(maxAddress, pageBits)
      ensures Valid() && Coherent() && currentPage == None
      ensures this.chip == chip && this.minAddress == minAddress && this.maxAddress == maxAddress
      ensures this.pageBits == pageBits && fresh(pageBuffer)
    {
      this.chip, this.pageBits, this.pageSize := chip, pageBits, Pow2(pageBits);
      this.minAddress, this.maxAddress := minAddress, maxAddress;
      pageBuffer := new byte[2048](_ => 0);
      currentPage := None;
      new;
      PageSizes(pageBits);
      page := pageBuffer[..pageSize];
    }

    /** The geometry: the page size is a power of two, and the range starts and ends on page boundaries inside the
        chip. */
    ghost predicate Geometry()
      reads this, chip
    {
      && pageSize == Pow2(pageBits) && 2 <= pageBits <= 32 && pageSize % 4 == 0 && 0 < pageSize
      && 0 < chip.base <= minAddress <= maxAddress <= chip.base + |chip.image| && maxAddress < TWO_32
      && IsAligned(minAddress, pageBits) && IsAligned(maxAddress, pageBits)
      && (currentPage.Some? ==> IsPage(currentPage.value))
    }

    ghost predicate Mirrored()
      reads this, chip, pageBuffer, chip.cells
    {
      pageSize <= pageBuffer.Length && pageBuffer != chip.cells && chip.Valid() && pageBuffer[..pageSize] == page
    }

    ghost predicate Valid()
      reads this, chip, pageBuffer, chip.cells
    {
      Geometry() && Mirrored()
    }

    ghost predicate IsPage(address: nat)
    {
      IsAligned(address, pageBits) && minAddress <= address && address + pageSize <= maxAddress
    }

    /** A loaded page buffer equals the page it was read from. */
    ghost predicate Coherent()
      requires Geometry()
      reads this, chip
    {
      currentPage.Some? ==> page == chip.Slice(currentPage.value, pageSize)
    }

    method IsPageErased(address: nat) returns (erased: bool)
      requires chip.Valid() && chip.Holds(address, pageSize) && pageSize % 4 == 0
      ensures erased <==> chip.Slice(address, pageSize) == Blank(pageSize)
    {
      ghost var off := address - chip.base;
      var word := 0;
      while word < pageSize
        invariant word % 4 == 0 && word <= pageSize
        invariant forall k | off <= k < off + word :: chip.image[k] == 255
      {
        var b0 := chip.Read(address + word);
        var b1 := chip.Read(address + word + 1);
        var b2 := chip.Read(address + word + 2);
        var b3 := chip.Read(address + word + 3);
        if !(b0 == 255 && b1 == 255 && b2 == 255 && b3 == 255) {
          NotBlank(chip.Slice(address, pageSize), word, b0, b1, b2, b3);
          return false;
        }
        word := word + 4;
      }
      return true;
    }

    method ErasePage(address: nat) returns (r: Outcome)
      requires chip.Valid() && chip.Holds(address, pageSize) && pageSize % 4 == 0
      modifies chip`erased, chip`image, chip.cells
      ensures chip.Valid() && r == Ok && chip.erased == old(chip.erased) + [address]
      ensures chip.image == WriteAt(old(chip.image), address - chip.base, Blank(pageSize))
    {
      chip.Erase(address, pageSize);
      WriteAtSlice(old(chip.image), address - chip.base, Blank(pageSize));
      var erased := IsPageErased(address);
      if !erased {
        return Err(EraseError);
      }
      return Ok;
    }

    /** The loop of read_page: it stops at the first half word that is not in the address range, whose end counts as
        inside. */
    method CopyPage(address: nat) returns (ok: bool)
      requires Mirrored() && pageSize % 2 == 0 && 2 <= pageSize && minAddress <= maxAddress
      modifies this`page, pageBuffer
      ensures Mirrored()
      ensures ok <==> minAddress <= address && address + pageSize - 2 <= maxAddress
      ensures ok && chip.Holds(address, pageSize) ==> page == chip.Slice(address, pageSize)
      ensures !ok && !(minAddress <= address <= maxAddress) ==> page == old(page)
      ensures !ok && address == maxAddress ==> Overwritten(page, old(page))
    {
      ghost var was := page;
      var i := 0;
      while i < pageSize / 2
        invariant i <= pageSize / 2 && Mirrored()
        invariant i > 0 ==> minAddress <= address && address + 2 * i - 2 <= maxAddress
        invariant CopiedUpTo(address, was, 2 * i)
      {
        var word := address + 2 * i;
        if !(minAddress <= word <= maxAddress) {
          return false;
        }
        CopyHalfWord(2 * i, address, was);
        i := i + 1;
      }
      assert page[..2 * i] == page;
      return true;
    }

    /** The buffer holds the first `n` bytes of the flash from `address` on, and its old content after them. */
    ghost predicate CopiedUpTo(address: nat, was: seq<byte>, n: nat)
      reads this, chip
    {
      && |page| == |was| && n <= |was| && page[n..] == was[n..]
      && forall k | 0 <= k < n :: page[k] == chip.Seen(address + k)
    }

    method CopyHalfWord(n: nat, address: nat, ghost was: seq<byte>)
      requires Mirrored() && n + 2 <= pageSize && CopiedUpTo(address, was, n)
      modifies this`page, pageBuffer
      ensures Mirrored() && CopiedUpTo(address, was, n + 2)
    {
      ghost var before := page;
      pageBuffer[n] := chip.Read(address + n);
      pageBuffer[n + 1] := chip.Read(address + n + 1);
      page := pageBuffer[..pageSize];
      assert page[n + 2..] == before[n + 2..] == was[n + 2..] by {
        assert before[n + 2..] == before[n..][2..] && was[n + 2..] == was[n..][2..];
      }
      assert forall k | 0 <= k < n :: page[k] == before[k];
    }

    /** The half word at the end of the range. */
    ghost function EndWord(): (s: seq<byte>)
      reads chip
      ensures |s| == 2
    {
      [chip.Seen(maxAddress), chip.Seen(maxAddress + 1)]
    }

    /** What is left of the buffer when read_page stops after the half word at the end of the range. */
    ghost predicate Overwritten(now: seq<byte>, was: seq<byte>)
      reads chip
    {
      |now| == |was| >= 2 && now == EndWord() + was[2..]
    }

    method ReadPage(address: nat) returns (r: Outcome)
      requires Valid() && address < TWO_32
      modifies this`currentPage, this`page, pageBuffer
      ensures Valid()
      ensures IsPage(address) ==> r == Ok && currentPage == Some(address) && page == chip.Slice(address, pageSize)
      ensures !IsPage(address) ==> r == Err(InvalidAddress) && currentPage == old(currentPage)
      ensures !IsPage(address) && address != maxAddress ==> page == old(page)
      ensures address == maxAddress ==> Overwritten(page, old(page))
    {
      PageAddressIs(address, pageBits);
      if address != PageAddress(address, pageBits) {
        return Err(InvalidAddress);
      }
      var ok := CopyPage(address);
      if address < maxAddress {
        PagesApart(address, maxAddress, pageBits);
      }
      if !ok {
        return Err(InvalidAddress);
      }
      currentPage := Some(address);
      return Ok;
    }

    /** Programs the half words of the page that differ from the buffer; the first one that does not read back right
        ends it. */
    method WritePage() returns (r: Outcome)
      requires Mirrored() && pageSize % 2 == 0 && (currentPage.Some? ==> InRange(currentPage.value))
      modifies chip`image, chip.cells
      ensures Mirrored() && |chip.image| == |old(chip.image)|
      ensures currentPage == None ==> r == Err(InvalidAddress) && chip.image == old(chip.image)
      ensures currentPage.Some? ==>
        r == if AllProgrammable(old(chip.Slice(currentPage.value, pageSize)), page) then Ok else Err(WriteError)
      ensures r == Ok ==> chip.image == WriteAt(old(chip.image), currentPage.value - chip.base, page)
    {
      if currentPage == None {
        return Err(InvalidAddress);
      }
      r := ProgramPage(currentPage.value);
    }

    ghost predicate InRange(address: nat)
      reads chip
    {
      chip.Holds(address, pageSize) && minAddress <= address && address + pageSize <= maxAddress
    }

    method ProgramPage(address: nat) returns (r: Outcome)
      requires Mirrored() && InRange(address) && pageSize % 2 == 0
      modifies chip`image, chip.cells
      ensures Mirrored() && |chip.image| == |old(chip.image)|
      ensures r == if AllProgrammable(old(chip.Slice(address, pageSize)), page) then Ok else Err(WriteError)
      ensures r == Ok ==> chip.image == WriteAt(old(chip.image), address - chip.base, page)
    {
      ghost var off, image, was := address - chip.base, chip.image, chip.Slice(address, pageSize);
      var i := 0;
      while i < pageSize / 2
        invariant i <= pageSize / 2 && Mirrored()
        invariant AllProgrammable(was[..2 * i], page[..2 * i])
        invariant chip.image == WriteAt(image, off, page[..2 * i])
      {
        var word := address + 2 * i;
        if !(minAddress <= word <= maxAddress) {
          assert false;
        }
        assert page[2 * i] == pageBuffer[2 * i] && page[2 * i + 1] == pageBuffer[2 * i + 1];
        assert chip.image[off + 2 * i] == was[2 * i] && chip.image[off + 2 * i + 1] == was[2 * i + 1];
        var ok := ProgramChecked(word, pageBuffer[2 * i], pageBuffer[2 * i + 1]);
        if !ok {
          return Err(WriteError);
        }
        assert page[..2 * (i + 1)] == page[..2 * i] + [page[2 * i], page[2 * i + 1]];
        i := i + 1;
      }
      assert was[..2 * i] == was && page[..2 * i] == page;
      return Ok;
    }

    /** Programs one half word if it differs and reads it back. */
    method ProgramChecked(address: nat, lo: byte, hi: byte) returns (ok: bool)
      requires chip.Valid() && chip.Holds(address, 2)
      modifies chip`image, chip.cells
      ensures chip.Valid() && |chip.image| == |old(chip.image)|
      ensures var i := address - chip.base;
        && (ok <==> Programmable(old(chip.image)[i], lo) && Programmable(old(chip.image)[i + 1], hi))
        && (ok ==> chip.image == old(chip.image)[i := lo][i + 1 := hi])
    {
      BitAndSelf(lo);
      BitAndSelf(hi);
      var oldLo := chip.Read(address);
      var oldHi := chip.Read(address + 1);
      if oldLo != lo || oldHi != hi {
        chip.ProgramHalfWord(address, lo, hi);
        var newLo := chip.Read(address);
        var newHi := chip.Read(address + 1);
        return newLo == lo && newHi == hi;
      }
      return true;
    }

    /** What flush_page finds by comparing the buffer with the flash byte by byte, up to the first byte that needs an
        erase. */
    method ComparePage(address: nat) returns (needs: Needs)
      requires Mirrored() && chip.Holds(address, pageSize)
      ensures needs.Erase? <==> !AllProgrammable(chip.Slice(address, pageSize), page)
      ensures needs.Nothing? <==> chip.Slice(address, pageSize) == page
    {
      ghost var was := chip.Slice(address, pageSize);
      needs := Nothing;
      var i := 0;
      while i < pageSize
        invariant i <= pageSize && !needs.Erase?
        invariant AllProgrammable(was[..i], page[..i])
        invariant needs.Nothing? <==> was[..i] == page[..i]
      {
        var newValue := pageBuffer[i];
        var oldValue := chip.Read(address + i);
        assert oldValue == was[i] && newValue == page[i];
        BitAndSelf(newValue);
        if oldValue == newValue {
        } else if BitAnd(oldValue, newValue) == newValue {
          needs := Write;
          assert was[..i + 1][i] != page[..i + 1][i];
        } else {
          assert was[i] != page[i] && !Programmable(was[i], page[i]);
          return Erase;
        }
        assert was[..i + 1] == was[..i] + [oldValue] && page[..i + 1] == page[..i] + [newValue];
        i := i + 1;
      }
      assert was[..i] == was && page[..i] == page;
    }

    /** Writes the buffer back. The page ends up equal to the buffer whatever it held, nothing else changes, and the
        page is erased exactly when some bit must go from 0 to 1. */
    method FlushPage() returns (r: Outcome)
      requires Valid()
      modifies chip`erased, chip`image, chip.cells
      ensures Valid()
      ensures match currentPage
        case None => r == Err(InvalidAddress) && chip.image == old(chip.image) && chip.erased == old(chip.erased)
        case Some(address) =>
          && r == Ok && chip.image == WriteAt(old(chip.image), address - chip.base, page)
          && chip.erased == old(chip.erased) +
               if AllProgrammable(old(chip.Slice(address, pageSize)), page) then [] else [address]
      ensures Coherent()
    {
      if currentPage == None {
        return Err(InvalidAddress);
      }
      r := FlushLoaded(currentPage.value);
      WriteAtSlice(old(chip.image), currentPage.value - chip.base, page);
    }

    method FlushLoaded(address: nat) returns (r: Outcome)
      requires Mirrored() && InRange(address) && pageSize % 4 == 0 && currentPage == Some(address)
      modifies chip`erased, chip`image, chip.cells
      ensures Mirrored() && r == Ok
      ensures chip.image == WriteAt(old(chip.image), address - chip.base, page)
      ensures chip.erased == old(chip.erased) +
        if AllProgrammable(old(chip.Slice(address, pageSize)), page) then [] else [address]
    {
      var needs := ComparePage(address);
      r := Ok;
      if needs.Erase? {
        r := EraseForBuffer(address);
      } else if needs.Nothing? {
        WriteAtSame(chip.image, address - chip.base, pageSize);
      }
      if r == Ok && !needs.Nothing? {
        r := WritePage();
      }
    }

    /** Erasing makes every buffer programmable, and writing it then gives what writing it over the old page gives. */
    method EraseForBuffer(address: nat) returns (r: Outcome)
      requires Mirrored() && chip.Holds(address, pageSize) && pageSize % 4 == 0
      modifies chip`erased, chip`image, chip.cells
      ensures Mirrored() && r == Ok && chip.erased == old(chip.erased) + [address] && |chip.image| == |old(chip.image)|
      ensures AllProgrammable(chip.Slice(address, pageSize), page)
      ensures WriteAt(chip.image, address - chip.base, page) == WriteAt(old(chip.image), address - chip.base, page)
    {
      r := ErasePage(address);
      WriteAtSlice(old(chip.image), address - chip.base, Blank(pageSize));
      ErasedIsProgrammable(page);
      WriteAtTwice(old(chip.image), address - chip.base, Blank(pageSize), page);
    }

    /** What the flash will hold once the loaded page is written back. */
    ghost function Effective(): (s: seq<byte>)
      requires Geometry() && |page| == pageSize
      reads this, chip
      ensures |s| == |chip.image|
    {
      match currentPage
      case None => chip.image
      case Some(loaded) => WriteAt(chip.image, loaded - chip.base, page)
    }

    lemma EffectivePage()
      requires Geometry() && |page| == pageSize && currentPage.Some?
      ensures var at := currentPage.value - chip.base; Effective()[at..at + pageSize] == page
    {
      WriteAtSlice(chip.image, currentPage.value - chip.base, page);
    }

    /** A loaded page equals its flash page exactly when writing it back would change nothing. */
    lemma CoherentIff()
      requires Geometry() && |page| == pageSize
      ensures Coherent() <==> Effective() == chip.image
    {
      if currentPage.Some? {
        WriteAtSame(chip.image, currentPage.value - chip.base, pageSize);
        EffectivePage();
      }
    }

    /** After an error, writing the loaded page back puts the half word at the end of the range at its beginning. */
    lemma EffectiveWhenScrambled()
      requires Geometry() && Scrambled() && |page| == pageSize
      ensures Effective() == match currentPage
        case None => chip.image
        case Some(loaded) => WriteAt(chip.image, loaded - chip.base, EndWord())
    {
    }

    /** Makes `address` the loaded page; a different loaded page is flushed first. */
    method LoadPage(address: nat) returns (r: Outcome)
      requires Valid() && address < TWO_32
      modifies this`currentPage, this`page, pageBuffer, chip`erased, chip`image, chip.cells
      ensures Valid()
      ensures r == if old(currentPage) == Some(address) || IsPage(address) then Ok else Err(InvalidAddress)
      ensures r != Ok ==> currentPage == old(currentPage) && chip.image == old(Effective())
      ensures r != Ok && address == maxAddress ==> Scrambled()
      ensures r == Ok ==> currentPage == Some(address) && Effective() == old(Effective())
    {
      if currentPage.Some? && currentPage.value == address {
        return Ok;
      }
      if currentPage.Some? {
        r := FlushPage();
        if r != Ok {
          return;
        }
      }
      ghost var was := page;
      r := ReadPage(address);
      assert r != Ok && currentPage.Some? ==> was == chip.Slice(currentPage.value, pageSize);
      if r == Ok {
        CoherentIff();
      }
    }

    /** A loaded page whose first half word in the buffer is the one at the end of the range. */
    ghost predicate Scrambled()
      requires Geometry()
      reads this, chip
    {
      currentPage.Some? ==> Overwritten(page, chip.Slice(currentPage.value, pageSize))
    }

    /** Copies the part of `bytes` that belongs to the page at `start` into the buffer. */
    method CopyIntoBuffer(start: nat, address: nat, bytes: seq<byte>)
      requires Mirrored() && address < start + pageSize && (start < address || start < address + |bytes|)
      modifies this`page, pageBuffer
      ensures Mirrored()
      ensures page == Overlay(old(page), start, address, bytes)
    {
      if start < address {
        var offset := address - start;
        var count := if pageSize - offset < |bytes| then pageSize - offset else |bytes|;
        forall k | 0 <= k < count {
          pageBuffer[offset + k] := bytes[k];
        }
      } else {
        var offset := start - address;
        var count := if |bytes| - offset < pageSize then |bytes| - offset else pageSize;
        forall k | 0 <= k < count {
          pageBuffer[k] := bytes[offset + k];
        }
      }
      page := pageBuffer[..pageSize];
      assert page == Overlay(old(page), start, address, bytes);
    }

    /** One pass of write_bytes' loop. Before it, writing the loaded page back would give `target` up to this page and
        `image` from there on; after it, up to the end of this page. */
    method WriteOnePage(start: nat, address: nat, bytes: seq<byte>, ghost image: seq<byte>, ghost target: seq<byte>)
      returns (r: Outcome)
      requires Valid() && IsAligned(start, pageBits) && minAddress <= start <= maxAddress
      requires address < start + pageSize && (start < address || start < address + |bytes|)
      requires IsTarget(target, image, address, bytes) && |image| == |chip.image| && WrittenUpTo(start, image, target)
      modifies this`currentPage, this`page, pageBuffer, chip`erased, chip`image, chip.cells
      ensures Valid()
      ensures r == if start < maxAddress then Ok else Err(InvalidAddress)
      ensures r != Ok ==> Scrambled() && chip.image == Spliced(target, image, start - chip.base)
      ensures r != Ok ==> currentPage == old(currentPage)
      ensures r == Ok ==> currentPage == Some(start) && |image| == |chip.image|
      ensures r == Ok ==> WrittenUpTo(start + pageSize, image, target)
    {
      if start < maxAddress {
        PagesApart(start, maxAddress, pageBits);
      }
      ghost var at := start - chip.base;
      r := LoadPage(start);
      if r == Ok {
        EffectivePage();
        SplicedPage(target, image, at, pageSize);
        ghost var was := page;
        CopyIntoBuffer(start, address, bytes);
        OverlaidPage(was, page, image, target, address, bytes, start);
        WriteAtTwice(chip.image, at, was, page);
      }
    }

    lemma OverlaidPage(was: seq<byte>, now: seq<byte>, image: seq<byte>, target: seq<byte>, address: nat,
                       bytes: seq<byte>, start: nat)
      requires Geometry() && IsTarget(target, image, address, bytes) && |image| == |chip.image|
      requires minAddress <= start && start + pageSize <= maxAddress && |was| == pageSize
      requires was == image[start - chip.base..start - chip.base + pageSize]
      requires now == Overlay(was, start, address, bytes)
      ensures now == target[start - chip.base..start - chip.base + pageSize]
    {
    }

    /** Writes across any number of pages as one plain write over what the flash would hold with the loaded page written
        back. On success the page buffer equals the page it was read from. Bytes past the end of the range are an
        error, found after what fits was written, and writing nothing fails when no page is loaded and none is touched.
        An error leaves the loaded page in the buffer with the half word at the end of the range as its first: whether
        that is what the flash has there can be said before the call. */
    method WriteBytes(address: nat, bytes: seq<byte>) returns (r: Outcome)
      requires Valid()
      requires minAddress <= address <= maxAddress && address + |bytes| <= TWO_32
      modifies this`currentPage, this`page, pageBuffer, chip`erased, chip`image, chip.cells
      ensures Valid()
      ensures chip.image == WriteAt(old(Effective()), address - chip.base, bytes[..Fitting(address, |bytes|)])
      ensures currentPage == LoadedAfter(address, |bytes|, maxAddress, pageBits, old(currentPage))
      ensures var nothing := TouchesNothing(address, |bytes|, pageBits) && old(currentPage) == None;
        r == if address + |bytes| > maxAddress || nothing then Err(InvalidAddress) else Ok
      ensures if r == Ok then Coherent() else Scrambled()
      ensures r != Ok ==> (Coherent() <==> (currentPage.Some? ==> chip.Slice(currentPage.value, 2) == EndWord()))
    {
      ghost var image := Effective();
      ghost var target := WriteAt(image, address - chip.base, bytes[..Fitting(address, |bytes|)]);
      PageBounds(address, |bytes|);
      var startPage := PageAddress(address, pageBits);
      var endPage := PageAddress(address + |bytes| - 1, pageBits);
      SplicedFromStart(startPage, address, image, target, bytes);
      var next;
      r, next := WritePages(startPage, endPage, address, bytes, image, target);
      SplicedIsTarget(target, image, address, bytes, next);
      LoadedIs(startPage, endPage, address, |bytes|, next, old(currentPage));
      if r == Ok {
        r := FlushPage();
      }
      if r != Ok {
        CoherentAfterErrorIff();
      }
    }

    lemma PageBounds(address: nat, n: nat)
      requires Geometry() && minAddress <= address <= maxAddress && address + n <= TWO_32
      ensures var start, end := PageAddress(address, pageBits), PageAddress(address + n - 1, pageBits);
        && IsAligned(start, pageBits) && minAddress <= start <= address < start + pageSize
        && IsAligned(end, pageBits) && end <= address + n - 1 < end + pageSize
    {
      StartsInRange(address);
      PageAddressRoundsDown(address, pageBits);
      PageAddressRoundsDown(address + n - 1, pageBits);
    }

    /** The page loaded when the loop ends at `next`. */
    lemma LoadedIs(start: nat, end: nat, address: nat, n: nat, next: nat, was: Option<nat>)
      requires Geometry() && minAddress <= address <= maxAddress && start == PageAddress(address, pageBits)
      requires minAddress <= start <= address < start + pageSize && IsAligned(start, pageBits)
      requires end == PageAddress(address + n - 1, pageBits) && start <= next
      requires if address + n <= maxAddress
        then next == if TouchesNothing(address, n, pageBits) then start else end + pageSize
        else next == maxAddress
      requires address + n <= maxAddress && !TouchesNothing(address, n, pageBits) ==> next != start
      ensures (if next == start then was else Some(next - pageSize)) ==
        LoadedAfter(address, n, maxAddress, pageBits, was)
    {
      if start < maxAddress {
        PagesApart(start, maxAddress, pageBits);
      }
    }

    /** After an error the buffer still equals its page if and only if the page begins with the half word at the end of
        the range. */
    lemma CoherentAfterErrorIff()
      requires Geometry() && Scrambled() && |page| == pageSize
      ensures Coherent() <==> (currentPage.Some? ==> chip.Slice(currentPage.value, 2) == EndWord())
    {
      if currentPage.Some? {
        var slice := chip.Slice(currentPage.value, pageSize);
        assert slice == slice[..2] + slice[2..];
        assert slice[..2] == chip.Slice(currentPage.value, 2) && page[..2] == EndWord();
      }
    }

    /** The loop of write_bytes over the pages from `startPage` to `endPage`; `next` is the first one not written. */
    method WritePages(startPage: nat, endPage: nat, address: nat, bytes: seq<byte>,
                      ghost image: seq<byte>, ghost target: seq<byte>) returns (r: Outcome, next: nat)
      requires Valid() && IsAligned(startPage, pageBits) && IsAligned(endPage, pageBits)
      requires minAddress <= startPage <= maxAddress && startPage <= address < startPage + pageSize
      requires startPage == PageAddress(address, pageBits)
      requires endPage <= address + |bytes| - 1 < endPage + pageSize
      requires IsTarget(target, image, address, bytes) && |image| == |chip.image|
      requires WrittenUpTo(startPage, image, target)
      modifies this`currentPage, this`page, pageBuffer, chip`erased, chip`image, chip.cells
      ensures Valid() && |image| == |chip.image| && startPage <= next <= maxAddress
      ensures r == if address + |bytes| <= maxAddress then Ok else Err(InvalidAddress)
      ensures r == Ok ==> WrittenUpTo(next, image, target) && address + |bytes| <= next
      ensures currentPage == if next == startPage then old(currentPage) else Some(next - pageSize)
      ensures r == Ok ==> next == if TouchesNothing(address, |bytes|, pageBits) then startPage else endPage + pageSize
      ensures r == Ok && next == startPage ==> TouchesNothing(address, |bytes|, pageBits)
      ensures r != Ok ==> Scrambled() && next == maxAddress && chip.image == Spliced(target, image, next - chip.base)
    {
      next := startPage;
      while next <= endPage
        invariant Valid() && |image| == |chip.image| && IsAligned(next, pageBits) && startPage <= next <= maxAddress
        invariant WrittenUpTo(next, image, target)
        invariant currentPage == if next == startPage then old(currentPage) else Some(next - pageSize)
        invariant next != startPage ==> next <= endPage + pageSize
        decreases endPage + pageSize - next
      {
        r := WriteOnePage(next, address, bytes, image, target);
        if r != Ok {
          return;
        }
        PagesApart(next, maxAddress, pageBits);
        next := next + pageSize;
      }
      LastPage(startPage, endPage, address, |bytes|, next);
      r := Ok;
    }

    /** Where the loop ends: after the last page, or at once if the write touches nothing. */
    lemma LastPage(startPage: nat, endPage: nat, address: nat, n: nat, next: nat)
      requires Geometry() && IsAligned(startPage, pageBits) && IsAligned(endPage, pageBits) && IsAligned(next, pageBits)
      requires startPage <= address < startPage + pageSize && startPage == PageAddress(address, pageBits)
      requires endPage <= address + n - 1 < endPage + pageSize
      requires endPage < next && startPage <= next && (next != startPage ==> next <= endPage + pageSize)
      ensures next == if TouchesNothing(address, n, pageBits) then startPage else endPage + pageSize
      ensures next == startPage ==> TouchesNothing(address, n, pageBits)
      ensures address + n <= next
    {
      PagesApart(endPage, next, pageBits);
      if startPage < endPage {
        PagesApart(startPage, endPage, pageBits);
      } else if endPage < startPage {
        PagesApart(endPage, startPage, pageBits);
      }
    }

    /** Before the first pass nothing is written. */
    lemma SplicedFromStart(start: nat, address: nat, image: seq<byte>, target: seq<byte>, bytes: seq<byte>)
      requires IsTarget(target, image, address, bytes)
      requires chip.base <= start <= address && start - chip.base <= |image|
      ensures Spliced(target, image, start - chip.base) == image
    {
    }

    lemma StartsInRange(address: nat)
      requires Geometry() && minAddress <= address <= maxAddress
      ensures minAddress <= PageAddress(address, pageBits) <= address
    {
      PageAddressRoundsDown(address, pageBits);
      var start := PageAddress(address, pageBits);
      if start < minAddress {
        PagesApart(start, minAddress, pageBits);
      }
    }

    /** Past the bytes written, target and old image agree. */
    lemma SplicedIsTarget(target: seq<byte>, image: seq<byte>, address: nat, bytes: seq<byte>, next: nat)
      requires IsTarget(target, image, address, bytes)
      requires chip.base <= next && next - chip.base <= |image| && (address + |bytes| <= next || maxAddress <= next)
      ensures Spliced(target, image, next - chip.base) == target
    {
    }

    /** Writing the loaded page back would give `target` up to `next` and `image` from there on. */
    ghost predicate WrittenUpTo(next: nat, image: seq<byte>, target: seq<byte>)
      requires Geometry() && |page| == pageSize
      requires chip.base <= next && next - chip.base <= |image| == |target|
      reads this, chip
    {
      Effective() == Spliced(target, image, next - chip.base)
    }

    /** `target` is `image` with as much of `bytes` written at `address` as fits below the end of the range. */
    ghost predicate IsTarget(target: seq<byte>, image: seq<byte>, address: nat, bytes: seq<byte>)
    {
      && chip.base <= address <= maxAddress <= chip.base + |image|
      && target == WriteAt(image, address - chip.base, bytes[..Fitting(address, |bytes|)])
    }

    /** How much of a write of `n` bytes at `address` lies below the end of the range. */
    function Fitting(address: nat, n: nat): (k: nat)
      requires address <= maxAddress
    {
      if address + n <= maxAddress then n else maxAddress - address
    }
  }

  /** A write of no bytes that begins a page looks at no page. */
  predicate TouchesNothing(address: nat, n: nat, pageBits: nat)
    requires pageBits <= 32
  {
    n == 0 && PageAddress(address, pageBits) == address
  }

  /** The page in the buffer after write_bytes: the last one it looked at, which for a write past the end of the range
      is the last of the range. */
  function LoadedAfter(address: nat, n: nat, maxAddress: nat, pageBits: nat, loaded: Option<nat>): Option<nat>
    requires pageBits <= 32
  {
    if TouchesNothing(address, n, pageBits) || (address + n > maxAddress && address == maxAddress) then loaded
    else if address + n > maxAddress
    then if Pow2(pageBits) <= maxAddress then Some(maxAddress - Pow2(pageBits)) else None
    else if address + n == 0 then None
    else Some(PageAddress(address + n - 1, pageBits))
  }

  /** The content of the page at `start` with the bytes written at `address` laid over it. */
  function Overlay(page: seq<byte>, start: nat, address: nat, bytes: seq<byte>): (r: seq<byte>)
    ensures |r| == |page|
  {
    seq(|page|, k requires 0 <= k < |page| =>
      if address <= start + k < address + |bytes| then bytes[start + k - address] else page[k])
  }

  /** The first `n` bytes of one image followed by the rest of another. */
  function Spliced(front: seq<byte>, back: seq<byte>, n: nat): seq<byte>
    requires n <= |front| == |back|
    ensures |Spliced(front, back, n)| == |back|
  {
    seq(|back|, k requires 0 <= k < |back| => if k < n then front[k] else back[k])
  }

  lemma SplicedPage(target: seq<byte>, image: seq<byte>, at: nat, n: nat)
    requires |target| == |image| && at + n <= |image|
    ensures Spliced(target, image, at)[at..at + n] == image[at..at + n]
    ensures WriteAt(Spliced(target, image, at), at, target[at..at + n]) == Spliced(target, image, at + n)
  {
  }

  /** page_address: address & !(page_size - 1) on 32-bit words. */
  function PageAddress(address: nat, pageBits: nat): nat
    requires pageBits <= 32
  {
    Pow2Of32();
    Pow2Grows(pageBits, 32);
    BitAnd(address, TWO_32 - Pow2(pageBits))
  }

  /** The low `bits` bits of the address are clear. */
  predicate IsAligned(address: nat, bits: nat) {
    bits == 0 || (address % 2 == 0 && IsAligned(address / 2, bits - 1))
  }

  lemma {:induction false} AlignedIff(address: nat, bits: nat)
    ensures IsAligned(address, bits) <==> address % Pow2(bits) == 0
  {
    if bits > 0 {
      AlignedIff(address / 2, bits - 1);
      ModDouble(address, Pow2(bits - 1));
    }
  }

  /** The mask rounds an address down to a multiple of the page size. */
  lemma PageAddressIs(address: nat, pageBits: nat)
    requires pageBits <= 32 && address < TWO_32
    ensures PageAddress(address, pageBits) == address - address % Pow2(pageBits)
    ensures IsAligned(address, pageBits) <==> PageAddress(address, pageBits) == address
  {
    AlignedIff(address, pageBits);
    Pow2Of32();
    MaskRoundsDown(address, pageBits, 32);
  }

  lemma MaskRoundsDown(address: nat, pageBits: nat, width: nat)
    requires pageBits <= width && Pow2(width) == TWO_32 && address < TWO_32
    ensures Pow2(pageBits) <= TWO_32
    ensures BitAnd(address, TWO_32 - Pow2(pageBits)) == address - address % Pow2(pageBits)
  {
    BitAndClearsLow(address, pageBits, width);
  }

  lemma PageAddressRoundsDown(address: nat, pageBits: nat)
    requires pageBits <= 32 && address < TWO_32
    ensures var page := PageAddress(address, pageBits);
      IsAligned(page, pageBits) && page <= address < page + Pow2(pageBits)
  {
    var d := Pow2(pageBits);
    PageAddressIs(address, pageBits);
    RoundedIsMultiple(address, d);
    AlignedIff(address - address % d, pageBits);
  }

  lemma RoundedIsMultiple(a: nat, d: nat)
    requires d > 0
    ensures (a - a % d) % d == 0 && a - a % d <= a < a - a % d + d
  {
    assert a == d * (a / d) + a % d;
    DivModUnique(d * (a / d), d, a / d, 0);
  }

  /** Distinct pages are at least one page apart, and the page after a page is a page. */
  lemma PagesApart(x: nat, y: nat, pageBits: nat)
    requires IsAligned(x, pageBits) && IsAligned(y, pageBits) && x < y
    ensures x + Pow2(pageBits) <= y && IsAligned(x + Pow2(pageBits), pageBits)
  {
    var d := Pow2(pageBits);
    AlignedIff(x, pageBits);
    AlignedIff(y, pageBits);
    MultiplesGap(x, y, d);
    NextMultiple(x, d);
    AlignedIff(x + d, pageBits);
  }

  lemma NextMultiple(x: nat, d: nat)
    requires d > 0 && x % d == 0
    ensures (x + d) % d == 0
  {
    assert x == d * (x / d);
    assert d * (x / d) + d == d * (x / d + 1);
    DivModUnique(x + d, d, x / d + 1, 0);
  }

  lemma {:induction false} PageSizes(bits: nat)
    requires 2 <= bits <= 11
    ensures Pow2(bits) % 4 == 0 && 4 <= Pow2(bits) <= 2048
  {
    Pow2Add(2, bits - 2);
    Pow2Grows(bits, 11);
    Pow2Grows(2, bits);
    assert Pow2(5) == 32;
    Pow2Add(5, 5);
  }

  /** Distinct multiples of `d` are at least `d` apart. */
  lemma MultiplesGap(x: nat, y: nat, d: nat)
    requires d > 0 && x % d == 0 && y % d == 0 && x < y
    ensures x + d <= y
  {
    var p, q := x / d, y / d;
    assert x == d * p && y == d * q;
    if q <= p {
      MulMono(d, q, p);
    } else {
      MulGap(d, p, q);
    }
  }
}
