/**
 * The prototype buffer pool of the `buffer` package: the same frame slots,
 * free list and page table as the `storage` pool, with no replacer, no disk
 * and no way to insert a page. Its `DeletePage` empties the frame but never
 * returns it to the free list, so a deleted page's frame is lost for good.
 */
module PrototypeBuffer {
  import opened Common

  const MaxPoolSize: nat := 50

  type PageID = int
  type FrameID = nat

  datatype Page = Page(id: PageID, data: seq<byte>, isDirty: bool, isPinned: bool)

  /** The zero value `Page{}`: what `FetchPage` returns on a miss. */
  const ZeroPage: Page := Page(0, [], false, false)

  datatype Error =
    | PinnedCannotDelete   // "Page is pinned, cannot delete"
    | PinnedCannotAccess   // "Page is pinned, cannot access"
    | NotFound             // "Page not found" / "Page Not Found"

  datatype Pool = Pool(frames: seq<Option<Page>>, freeList: seq<FrameID>, table: map<PageID, FrameID>)

  /** The state `NewBufferPoolManager` builds. */
  function Initial(): (r: Pool)
    ensures |r.frames| == MaxPoolSize && forall f :: 0 <= f < MaxPoolSize ==> r.frames[f].None?
    ensures |r.freeList| == MaxPoolSize && forall f :: 0 <= f < MaxPoolSize ==> r.freeList[f] == f
    ensures r.table == map[]
  {
    Pool(seq(MaxPoolSize, _ => None), seq(MaxPoolSize, i requires 0 <= i < MaxPoolSize => i), map[])
  }

  // ---------------------------------------------------------------- invariants

  /**
   * What every operation keeps: the free list holds distinct empty frames,
   * and every page-table entry names an occupied frame holding a page with
   * that ID. Unlike in the `storage` pool, an empty frame need not be free.
   */
  ghost predicate Sound(s: Pool)
  {
    |s.frames| == MaxPoolSize &&
    (forall i, j :: 0 <= i < j < |s.freeList| ==> s.freeList[i] != s.freeList[j]) &&
    (forall i :: 0 <= i < |s.freeList| ==> s.freeList[i] < MaxPoolSize && s.frames[s.freeList[i]].None?) &&
    (forall id :: id in s.table ==>
      s.table[id] < MaxPoolSize && s.frames[s.table[id]].Some? && s.frames[s.table[id]].value.id == id)
  }

  /** The free list holds every empty frame: free and occupied frames partition the range. */
  ghost predicate Partitioned(s: Pool)
    requires Sound(s)
  {
    forall f :: 0 <= f < MaxPoolSize && s.frames[f].None? ==> f in s.freeList
  }

  function Resident(s: Pool, id: PageID): Page
    requires Sound(s) && id in s.table
  {
    s.frames[s.table[id]].value
  }

  lemma InitialPartitioned()
    ensures Sound(Initial()) && Partitioned(Initial())
    ensures forall i :: 0 <= i < MaxPoolSize ==> Initial().freeList[i] == i && Initial().frames[i].None?
    ensures |Initial().freeList| == MaxPoolSize && Initial().table == map[]
  {
    var s := Initial();
    forall f | 0 <= f < MaxPoolSize && s.frames[f].None?
      ensures f in s.freeList
    {
      assert s.freeList[f] == f;
    }
  }

  // ------------------------------------------------------------ the operations

  /** `DeletePage`: refuse a pinned or absent page; otherwise empty its frame (and only that). */
  function PoolDelete(s: Pool, id: PageID): (r: (Option<Error>, Pool))
    requires Sound(s)
    ensures Sound(r.1)
    ensures r.0.None? <==> id in s.table && !Resident(s, id).isPinned
    ensures r.0.Some? ==> r.1 == s
    ensures id !in s.table ==> r.0 == Some(NotFound)
    ensures id in s.table && Resident(s, id).isPinned ==> r.0 == Some(PinnedCannotDelete)
    ensures r.1.freeList == s.freeList
    ensures r.0.None? ==> r.1.table == s.table - {id} && r.1.frames == s.frames[s.table[id] := None]
  {
    if id in s.table then
      var f := s.table[id];
      if s.frames[f].value.isPinned then (Some(PinnedCannotDelete), s)
      else (None, s.(table := s.table - {id}, frames := s.frames[f := None]))
    else (Some(NotFound), s)
  }

  /** `Pin`: set the resident page's pin flag. */
  function PoolPin(s: Pool, id: PageID): (r: (Option<Error>, Pool))
    requires Sound(s)
    ensures Sound(r.1)
    ensures Partitioned(s) ==> Partitioned(r.1)
    ensures r.0.None? <==> id in s.table
    ensures r.0.Some? ==> r.0 == Some(NotFound) && r.1 == s
    ensures id in s.table ==>
      r.1.table == s.table && r.1.freeList == s.freeList &&
      Resident(r.1, id) == Resident(s, id).(isPinned := true) &&
      r.1.frames == s.frames[s.table[id] := Some(Resident(s, id).(isPinned := true))]
  {
    if id in s.table then
      var f := s.table[id];
      (None, s.(frames := s.frames[f := Some(s.frames[f].value.(isPinned := true))]))
    else (Some(NotFound), s)
  }

  /** `Unpin`: overwrite the dirty flag with `isDirty` and clear the pin flag. */
  function PoolUnpin(s: Pool, id: PageID, isDirty: bool): (r: (Option<Error>, Pool))
    requires Sound(s)
    ensures Sound(r.1)
    ensures Partitioned(s) ==> Partitioned(r.1)
    ensures r.0.None? <==> id in s.table
    ensures r.0.Some? ==> r.0 == Some(NotFound) && r.1 == s
  {
    if id in s.table then
      var f := s.table[id];
      (None, s.(frames := s.frames[f := Some(s.frames[f].value.(isDirty := isDirty, isPinned := false))]))
    else (Some(NotFound), s)
  }

  /**
   * `FetchPage`: on a hit of an unpinned page return a copy taken before
   * pinning and pin the resident page; on a hit of a pinned page fail; on a
   * miss return the zero page and change nothing (there is no disk read).
   */
  function PoolFetch(s: Pool, id: PageID): (r: (Result<Page, Error>, Pool))
    requires Sound(s)
    ensures Sound(r.1)
    ensures id in s.table && Resident(s, id).isPinned ==> r == (Err(PinnedCannotAccess), s)
    ensures id in s.table && !Resident(s, id).isPinned ==> r.0 == Ok(Resident(s, id)) && r.1 == PoolPin(s, id).1
    ensures id !in s.table ==> r == (Ok(ZeroPage), s)
  {
    if id in s.table then
      var page := s.frames[s.table[id]].value;
      if page.isPinned then (Err(PinnedCannotAccess), s)
      else (Ok(page), PoolPin(s, id).1)
    else (Ok(ZeroPage), s)
  }

  // ------------------------------------------------------------------- lemmas

  /**
   * A successful delete loses its frame: it is empty, yet not on the free
   * list, so free and occupied frames no longer cover the whole range.
   */
  lemma DeleteLeaksFrame(s: Pool, id: PageID)
    requires Sound(s) && id in s.table && !Resident(s, id).isPinned
    ensures var t := PoolDelete(s, id).1;
      t.frames[s.table[id]].None? && s.table[id] !in t.freeList && !Partitioned(t)
  {
  }

  /** No operation of the prototype puts a frame back on the free list, so a lost frame stays lost. */
  lemma NoOperationGrowsFreeList(s: Pool, id: PageID, isDirty: bool)
    requires Sound(s)
    ensures PoolDelete(s, id).1.freeList == s.freeList
    ensures PoolPin(s, id).1.freeList == s.freeList
    ensures PoolUnpin(s, id, isDirty).1.freeList == s.freeList
    ensures PoolFetch(s, id).1.freeList == s.freeList
  {
  }

  /**
   * A fetch hit pins the page, so a second fetch and a delete are refused
   * until it is unpinned; after the unpin the delete succeeds.
   */
  lemma FetchPinsUntilUnpin(s: Pool, id: PageID, isDirty: bool)
    requires Sound(s) && id in s.table && !Resident(s, id).isPinned
    ensures var t := PoolFetch(s, id).1;
      PoolFetch(t, id) == (Err(PinnedCannotAccess), t) &&
      PoolDelete(t, id) == (Some(PinnedCannotDelete), t) &&
      PoolDelete(PoolUnpin(t, id, isDirty).1, id).0.None?
  {
  }

  /** A page whose pin flag is set is never removed from its frame by a delete. */
  lemma DeleteKeepsPinned(s: Pool, id: PageID)
    requires Sound(s)
    ensures forall f :: 0 <= f < MaxPoolSize && s.frames[f].Some? && s.frames[f].value.isPinned ==>
      PoolDelete(s, id).1.frames[f] == s.frames[f]
  {
  }

  /** `Unpin` sets the dirty flag to exactly its argument: a dirty page can be made clean. */
  lemma UnpinOverwritesDirty(s: Pool, id: PageID, isDirty: bool)
    requires Sound(s) && id in s.table
    ensures var t := PoolUnpin(s, id, isDirty).1;
      id in t.table && Resident(t, id) == Resident(s, id).(isDirty := isDirty, isPinned := false) &&
      t.table == s.table && t.freeList == s.freeList &&
      t.frames == s.frames[s.table[id] := Some(Resident(s, id).(isDirty := isDirty, isPinned := false))]
  {
  }

  // ---------------------------------------------------------------- the class

  class BufferPoolManager {
    const pages: array<Option<Page>>
    var freeList: seq<FrameID>
    var pageTable: map<PageID, FrameID>

    ghost function State(): Pool
      reads this, pages
    {
      Pool(pages[..], freeList, pageTable)
    }

    ghost predicate Valid()
      reads this, pages
    {
      Sound(State())
    }

    /** `NewBufferPoolManager`: every frame free, in ascending order; empty table. */
    constructor ()
      ensures Valid() && Partitioned(State())
      ensures State() == Initial()
    {
      var free: seq<FrameID> := [];
      var slots := new Option<Page>[MaxPoolSize];
      for i := 0 to MaxPoolSize
        invariant |free| == i && forall j :: 0 <= j < i ==> free[j] == j
        invariant forall j :: 0 <= j < i ==> slots[j] == None
      {
        free := free + [i];
        slots[i] := None;
      }
      pages := slots;
      freeList := free;
      pageTable := map[];
      new;
      assert pages[..] == Initial().frames;
      assert freeList == Initial().freeList;
      InitialPartitioned();
    }

    /** `NewPage`: build a clean, unpinned page; the pool itself is not touched. */
    method NewPage(pageID: PageID, data: seq<byte>) returns (page: Page)
      ensures page.id == pageID && page.data == data
      ensures !page.isDirty && !page.isPinned
    {
      page := Page(pageID, data, false, false);
    }

    method DeletePage(pageID: PageID) returns (err: Option<Error>)
      requires Valid()
      modifies this, pages
      ensures Valid()
      ensures (err, State()) == PoolDelete(old(State()), pageID)
    {
      if pageID in pageTable {
        var frameID := pageTable[pageID];
        var page := pages[frameID].value;
        if page.isPinned {
          return Some(PinnedCannotDelete);
        }
        pageTable := pageTable - {pageID};
        pages[frameID] := None;
        return None;
      }
      return Some(NotFound);
    }

    method Pin(pageID: PageID) returns (err: Option<Error>)
      requires Valid()
      modifies pages
      ensures Valid()
      ensures (err, State()) == PoolPin(old(State()), pageID)
    {
      if pageID in pageTable {
        var frameID := pageTable[pageID];
        var page := pages[frameID].value;
        pages[frameID] := Some(page.(isPinned := true));
        return None;
      }
      return Some(NotFound);
    }

    method Unpin(pageID: PageID, isDirty: bool) returns (err: Option<Error>)
      requires Valid()
      modifies pages
      ensures Valid()
      ensures (err, State()) == PoolUnpin(old(State()), pageID, isDirty)
    {
      if pageID in pageTable {
        var frameID := pageTable[pageID];
        var page := pages[frameID].value;
        pages[frameID] := Some(page.(isDirty := isDirty, isPinned := false));
        return None;
      }
      return Some(NotFound);
    }

    method FetchPage(pageID: PageID) returns (r: Result<Page, Error>)
      requires Valid()
      modifies pages
      ensures Valid()
      ensures (r, State()) == PoolFetch(old(State()), pageID)
    {
      if pageID in pageTable {
        var page := pages[pageTable[pageID]].value;
        if page.isPinned {
          return Err(PinnedCannotAccess);
        }
        var _ := Pin(pageID);
        return Ok(page);
      }
      return Ok(ZeroPage);
    }
  }
}
