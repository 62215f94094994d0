/** The storage as it runs: a shared cache of the next empty page, the search that uses it, and the page writer. */
module Storage {
  import opened Bytes
  import opened StorageSpec

  class Storage {
    var nextEmptyPage: Memory
    var pages: seq<Header>

    constructor (pages: seq<Header>)
      ensures this.pages == pages && nextEmptyPage == Undefined
    {
      this.pages, nextEmptyPage := pages, Undefined;
    }

    /** The number of pages, or 0 when the driver is in use by another task. */
    method FlashSizePages(locked: bool) returns (n: nat)
      ensures n == if locked then |pages| else 0
    {
      n := if locked then |pages| else 0;
    }

    method FindNextEmptyPage(start: nat, l: Locks, ghost next: nat, ghost open: Option<nat>) returns (r: Option<nat>)
      modifies this`nextEmptyPage
      ensures var s := old(Store(pages, nextEmptyPage, next, open));
        r == s.Found(start, l) && Store(pages, nextEmptyPage, next, open) == s.AfterFind(start, l)
    {
      if l.read {
        match nextEmptyPage
        case PartialUsed(nextFreePage) =>
          if start <= nextFreePage {
            return Some(nextFreePage);
          }
        case FullUsed =>
          return None;
        case Undefined =>
      }
      var size := FlashSizePages(l.size);
      if start < size {
        var p := start;
        while p < size
          invariant start <= p <= size && FirstErased(pages, start) == FirstErased(pages, p)
        {
          if pages[p].Erased() {
            if l.update {
              nextEmptyPage := PartialUsed(p);
            }
            return Some(p);
          }
          p := p + 1;
        }
      }
      if l.update {
        nextEmptyPage := FullUsed;
      }
      return None;
    }

    method WriteHeader(p: nat, id: nat)
      modifies this`pages
      ensures pages == if p < |old(pages)| then old(pages)[p := NewHeader(id)] else old(pages)
    {
      if p < |pages| {
        pages := pages[p := NewHeader(id)];
      }
    }
  }

  class FlashDiffWriter {
    const storage: Storage
    var nextPageNumber: nat
    var pageAcquired: bool
    var destPage: nat  // the page the block being filled will go to

    constructor (storage: Storage)
      ensures this.storage == storage && Model() == Store(storage.pages, storage.nextEmptyPage, 0, None)
    {
      this.storage := storage;
      nextPageNumber, pageAcquired, destPage := 0, false, 0;
    }

    ghost function Model(): Store
      reads this, storage
    {
      Store(storage.pages, storage.nextEmptyPage, nextPageNumber, if pageAcquired then Some(destPage) else None)
    }

    method TryCreateNewPage(l: Locks, settings: bool) returns (page: Option<nat>)
      modifies this, storage`nextEmptyPage
      ensures Model() == old(Model()).AfterCreate(l, settings)
      ensures page == old(Model()).Created(l, settings)
    {
      if pageAcquired {
        return None;
      }
      var found := storage.FindNextEmptyPage(nextPageNumber, l, nextPageNumber, None);
      if found.None? {
        return None;
      }
      nextPageNumber := found.value;
      if !settings {
        return None;
      }
      destPage := nextPageNumber;
      nextPageNumber := nextPageNumber + 1;
      pageAcquired := true;
      return Some(destPage);
    }

    /** Writes the block that was being filled; `generated` and `selected` say how far it gets before the flash is
        touched. */
    method Write(id: nat, generated: bool, selected: bool, end: WriteEnd) returns (ok: bool)
      requires pageAcquired
      modifies this`pageAcquired, storage`pages
      ensures Model() == old(Model()).AfterWrite(id, if generated && selected then end else NotStarted)
      ensures ok <==> generated && selected && end.Complete?
    {
      pageAcquired := false;
      if !generated || !selected {
        return false;
      }
      match end
      case NotStarted => return false;
      case Complete =>
        storage.WriteHeader(destPage, id);
        return true;
      case Torn(headerWritten) =>
        if headerWritten {
          storage.WriteHeader(destPage, id);
        }
        return false;
    }
  }
}
