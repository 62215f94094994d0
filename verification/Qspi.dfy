/** Pages of the recorder's flash chip: data is programmed in pieces, through 24-bit addresses within the segment that
    the chip's extender register selects and the driver remembers. */
module Qspi {
  import opened Bytes
  import Flash

  const SEGMENT: nat := 0x100_0000
  const EXTENDER_UNSET: nat := 0xFF

  /** Programming a piece within one 256-byte page of the chip: it starts at `offset`, wraps around at the end of the
      page, and can only clear bits. */
  function PageProgram(image: seq<byte>, page: nat, offset: nat, block: seq<byte>): (r: seq<byte>)
    requires offset < 256
    ensures |r| == |image|
  {
    seq(|image|, k requires 0 <= k < |image| =>
      if page <= k < page + 256 && (k - page + 256 - offset) % 256 < |block|
      then Flash.AndBytes(image[k], block[(k - page + 256 - offset) % 256]) else image[k])
  }

  /** `data` programmed at `at` as if the chip had no pages. */
  function AndAt(image: seq<byte>, at: nat, data: seq<byte>): (r: seq<byte>)
    ensures |r| == |image|
  {
    seq(|image|, k requires 0 <= k < |image| =>
      if at <= k < at + |data| then Flash.AndBytes(image[k], data[k - at]) else image[k])
  }

  lemma AlignedPieceIsPlain(image: seq<byte>, page: nat, block: seq<byte>)
    requires |block| <= 256
    ensures PageProgram(image, page, 0, block) == AndAt(image, page, block)
  {
  }

  lemma AndAtAppend(image: seq<byte>, at: nat, first: seq<byte>, second: seq<byte>)
    ensures AndAt(AndAt(image, at, first), at + |first|, second) == AndAt(image, at, first + second)
  {
  }

  lemma AndAtNothing(image: seq<byte>, at: nat)
    ensures AndAt(image, at, []) == image
  {
  }

  /** On erased cells programming is writing. */
  lemma AndAtErased(image: seq<byte>, at: nat, data: seq<byte>)
    requires at + |data| <= |image| && image[at..at + |data|] == Flash.Blank(|data|)
    ensures AndAt(image, at, data) == WriteAt(image, at, data)
  {
    forall k | at <= k < at + |data| ensures Flash.AndBytes(image[k], data[k - at]) == data[k - at] {
      assert image[k] == image[at..at + |data|][k - at] == 255;
      Flash.ErasedIsProgrammable(data);
      assert Flash.Programmable(Flash.Blank(|data|)[k - at], data[k - at]);
    }
  }

  /** The address in the whole chip that a 24-bit address names in a segment. */
  function FullAddress(extender: nat, address: nat): nat {
    extender * 0x100_0000 + address
  }

  /** The chip page that a 24-bit address names in the selected segment. */
  function ChipPage(extender: nat, address: nat): nat {
    extender * 0x100_0000 + (address % 0x100_0000 - address % 0x100_0000 % 256)
  }

  lemma AlignedAddress(extender: nat, address: nat)
    requires address % 256 == 0 && address < SEGMENT
    ensures ChipPage(extender, address) == FullAddress(extender, address)
  {
  }

  lemma WholePiece(image: seq<byte>, extender: nat, address: nat, block: seq<byte>)
    requires address % 256 == 0 && address < SEGMENT && |block| <= 256
    ensures PageProgram(image, ChipPage(extender, address), address % 256, block) ==
      AndAt(image, FullAddress(extender, address), block)
  {
    AlignedAddress(extender, address);
    AlignedPieceIsPlain(image, ChipPage(extender, address), block);
  }

  /** The chip. A command may fail, and then does nothing. */
  class Chip {
    var image: seq<byte>
    var extender: nat
    var writeLatch: bool

    constructor (image: seq<byte>, extender: nat)
      ensures this.image == image && this.extender == extender && !writeLatch
    {
      this.image, this.extender, writeLatch := image, extender, false;
    }

    method WriteEnable() returns (ok: bool)
      modifies this`writeLatch
      ensures ok ==> writeLatch
      ensures !ok ==> writeLatch == old(writeLatch)
    {
      ok := *;
      if ok {
        writeLatch := true;
      }
    }

    method CheckWriteOk() returns (ok: bool)
      ensures ok ==> writeLatch
    {
      ok := *;
      ok := ok && writeLatch;
    }

    method Program(address: nat, block: seq<byte>) returns (ok: bool)
      requires writeLatch && |block| <= 256
      modifies this`image, this`writeLatch
      ensures ok ==>
        image == PageProgram(old(image), ChipPage(extender, address), address % 256, block)
      ensures !ok ==> image == old(image)
    {
      ok := *;
      if ok {
        image := PageProgram(image, ChipPage(extender, address), address % 256, block);
        writeLatch := false;
      }
    }

    method WriteExtender(value: nat) returns (ok: bool)
      modifies this`extender, this`writeLatch
      ensures extender == if ok then value else old(extender)
    {
      ok := *;
      if ok {
        extender := value;
        writeLatch := false;
      }
    }
  }

  /** A write of `n` bytes that ends after `written` of them has programmed its first piece whole, or nothing. */
  predicate FirstPieceWhole(n: nat, written: nat) {
    written == 0 || written == n || written >= 256
  }

  class Driver {
    const chip: Chip
    var extenderValue: nat
    var mapped: bool

    constructor (chip: Chip)
      ensures this.chip == chip && extenderValue == EXTENDER_UNSET && Valid()
    {
      this.chip, extenderValue, mapped := chip, EXTENDER_UNSET, false;
    }

    /** Once set, the remembered extender is the chip's. */
    ghost predicate Valid()
      reads this, chip
    {
      extenderValue != EXTENDER_UNSET ==> extenderValue == chip.extender
    }

    method CancelMemoryMapping() returns (ok: bool)
      requires Valid()
      modifies this`mapped
      ensures Valid()
    {
      ok := true;
      if mapped {
        mapped := false;
        ok := *;
      }
    }

    method SetAddrExtender(value: nat) returns (ok: bool)
      requires Valid()
      modifies this`mapped, this`extenderValue, chip`extender, chip`writeLatch
      ensures Valid()
      ensures ok ==> extenderValue == value
      ensures !ok ==> extenderValue == old(extenderValue) && chip.extender == old(chip.extender)
    {
      if extenderValue != value {
        ok := CancelMemoryMapping();
        if !ok {
          return;
        }
        ok := chip.WriteEnable();
        if !ok {
          return;
        }
        ok := chip.WriteExtender(value);
        if !ok {
          return;
        }
        extenderValue := value;
      }
      return true;
    }

    /** Programs `data` from `start` on, which begins a chip page, within the selected segment. A failure leaves a
        beginning of the data programmed: nothing, or at least its first 256 bytes. */
    method WriteBlock(start: nat, data: seq<byte>) returns (ok: bool, ghost written: nat)
      requires Valid() && start % 256 == 0 && start + |data| <= SEGMENT
      modifies this`mapped, chip`image, chip`writeLatch
      ensures Valid() && written <= |data| && (ok ==> written == |data|) && FirstPieceWhole(|data|, written)
      ensures chip.image == AndAt(old(chip.image), FullAddress(chip.extender, start), data[..written])
    {
      written := 0;
      AndAtNothing(chip.image, FullAddress(chip.extender, start));
      ok := CancelMemoryMapping();
      if !ok {
        return;
      }
      var at := 0;
      while at < |data|
        invariant Valid() && written <= |data| && (at < |data| ==> written == at)
        invariant (at >= |data| ==> written == |data|)
        invariant at % 256 == 0 && FirstPieceWhole(|data|, written)
        invariant chip.image == AndAt(old(chip.image), FullAddress(chip.extender, start), data[..written])
      {
        var end := if |data| - at >= 256 then at + 256 else |data|;
        ok := WritePiece(start + at, data[at..end]);
        if !ok {
          return;
        }
        NextPiece(old(chip.image), chip.extender, start, data, at, end);
        written := end;
        at := at + 256;
      }
      return true, |data|;
    }

    method WritePiece(address: nat, block: seq<byte>) returns (ok: bool)
      requires Valid() && |block| <= 256 && address % 256 == 0 && address < SEGMENT
      modifies chip`image, chip`writeLatch
      ensures Valid()
      ensures ok ==> chip.image == AndAt(old(chip.image), FullAddress(chip.extender, address), block)
      ensures !ok ==> chip.image == old(chip.image)
    {
      ok := chip.WriteEnable();
      if !ok {
        return;
      }
      ok := chip.CheckWriteOk();
      if !ok {
        return;
      }
      ok := chip.Program(address, block);
      WholePiece(old(chip.image), chip.extender, address, block);
    }
  }

  lemma NextPiece(image: seq<byte>, extender: nat, start: nat, data: seq<byte>, from: nat, to: nat)
    requires from <= to <= |data|
    ensures var first := AndAt(image, FullAddress(extender, start), data[..from]);
      AndAt(first, FullAddress(extender, start + from), data[from..to]) ==
        AndAt(image, FullAddress(extender, start), data[..to])
  {
    AndAtAppend(image, FullAddress(extender, start), data[..from], data[from..to]);
    assert data[..from] + data[from..to] == data[..to];
  }

  // ---- Pages of 4096 bytes ----

  /** Where page `k` is within its segment, and which segment that is. */
  function PageAddress24(k: nat): nat {
    k * 4096 % 0x100_0000
  }

  function PageSegment(k: nat): nat {
    k * 4096 / 0x100_0000
  }

  /** A page lies within one segment and begins a chip page. */
  lemma PageInSegment(k: nat)
    ensures PageAddress24(k) % 4096 == 0 && PageAddress24(k) % 256 == 0 && PageAddress24(k) + 4096 <= SEGMENT
    ensures FullAddress(PageSegment(k), PageAddress24(k)) == k * 4096
  {
    assert PageAddress24(k) == k % 4096 * 4096;
  }

  /** A write through page `k`'s accessor lands in page `k` if and only if the chip still has that page's segment
      selected. */
  lemma LandsInPageIff(k: nat, extender: nat)
    ensures FullAddress(extender, PageAddress24(k)) == k * 4096 <==> extender == PageSegment(k)
  {
    PageInSegment(k);
  }

  class PageAccessor {
    const driver: Driver
    const addr24: nat

    constructor (driver: Driver, addr24: nat)
      ensures this.driver == driver && this.addr24 == addr24
    {
      this.driver, this.addr24 := driver, addr24;
    }

    /** Programs the page the chip's extender selects now, whichever was selected when the accessor was made. */
    method Write(data: seq<byte>) returns (ok: bool, ghost written: nat)
      requires driver.Valid() && addr24 % 256 == 0 && addr24 + |data| <= SEGMENT
      modifies driver`mapped, driver.chip`image, driver.chip`writeLatch
      ensures driver.Valid() && written <= |data| && (ok ==> written == |data|) && FirstPieceWhole(|data|, written)
      ensures driver.chip.image ==
        AndAt(old(driver.chip.image), FullAddress(driver.chip.extender, addr24), data[..written])
    {
      ok, written := driver.WriteBlock(addr24, data);
    }
  }

  method SelectPage(driver: Driver, k: nat) returns (r: Option<PageAccessor>)
    requires driver.Valid()
    modifies driver`mapped, driver`extenderValue, driver.chip`extender, driver.chip`writeLatch
    ensures driver.Valid()
    ensures r.Some? ==>
      && r.value.driver == driver && r.value.addr24 == PageAddress24(k)
      && driver.extenderValue == PageSegment(k)
      && (PageSegment(k) != EXTENDER_UNSET ==> driver.chip.extender == PageSegment(k))
  {
    var awake: bool := *;
    if !awake {
      return None;
    }
    var ok := driver.SetAddrExtender(k * 4096 / 0x100_0000);
    if !ok {
      return None;
    }
    var accessor := new PageAccessor(driver, k * 4096 % 0x100_0000);
    return Some(accessor);
  }

  /** What storing a page does: selecting it and writing up to 4096 bytes to it at once. If the page is erased it then
      holds the data, and no other byte of the chip has changed; a failure leaves a beginning of the data. */
  method StorePage(driver: Driver, k: nat, data: seq<byte>) returns (ok: bool, ghost written: nat)
    requires driver.Valid() && |data| <= 4096 && PageSegment(k) != EXTENDER_UNSET
    requires k * 4096 + |data| <= |driver.chip.image|
    requires driver.chip.image[k * 4096..k * 4096 + |data|] == Flash.Blank(|data|)
    modifies driver`mapped, driver`extenderValue, driver.chip`extender, driver.chip`writeLatch, driver.chip`image
    ensures driver.Valid() && written <= |data| && (ok ==> written == |data|) && FirstPieceWhole(|data|, written)
    ensures driver.chip.image == WriteAt(old(driver.chip.image), k * 4096, data[..written])
  {
    written := 0;
    WriteNothing(driver.chip.image, k * 4096);
    var page := SelectPage(driver, k);
    if page.None? {
      return false, 0;
    }
    PageInSegment(k);
    ok, written := page.value.Write(data);
    LandsInPageIff(k, driver.chip.extender);
    ErasedPrefix(old(driver.chip.image), k * 4096, |data|, written);
    AndAtErased(old(driver.chip.image), k * 4096, data[..written]);
  }

  lemma WriteNothing(image: seq<byte>, at: nat)
    requires at <= |image|
    ensures WriteAt(image, at, []) == image
  {
  }

  lemma ErasedPrefix(image: seq<byte>, at: nat, n: nat, m: nat)
    requires m <= n && at + n <= |image| && image[at..at + n] == Flash.Blank(n)
    ensures image[at..at + m] == Flash.Blank(m)
  {
    assert image[at..at + m] == image[at..at + n][..m];
  }
}
