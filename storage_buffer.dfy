/**
 * The buffer pool manager of the `storage` package: a fixed array of frame
 * slots, a FIFO free list of frame IDs and a page table from page ID to frame ID.
 *
 * Every operation is given twice: as a function over a `Pool` value (the
 * specification, about which the lemmas speak) and as a method of the class
 * `BufferPoolManager` that changes the array, the free list and the table step
 * by step and is proved to agree with the function.
 *
 * The LRU-K replacer and the disk scheduler are collaborators whose code is not
 * part of this model: every `RecordAccess(frame)` is recorded in the ghost log
 * `accesses`, every `AddReq(req)` in the ghost log `requests`, and the frame
 * the replacer's `Evict` chooses (or its failure) is a parameter of `Evict`.
 */
module StorageBuffer {
  import opened Common

  const MaxPoolSize: nat := 50

  /** Go's `PageID int64`; page IDs are only compared, never computed. */
  type PageID = int

  /** Go's `FrameID int`; only `0 .. MaxPoolSize - 1` ever occur. */
  type FrameID = nat

  datatype Page = Page(id: PageID, data: seq<seq<byte>>, isDirty: bool, isPinned: bool)

  /** The zero value `Page{}`: what `FetchPage` returns on a miss. */
  const ZeroPage: Page := Page(0, [], false, false)

  /** The two request kinds, written `"READ"` and `"WRITE"` in the source. */
  datatype Operation = Read | Write

  datatype DiskReq = DiskReq(page: Page, operation: Operation)

  datatype Error =
    | UnableToAdd          // "unable to add page to buffer pool"
    | PinnedCannotDelete   // "Page is pinned, cannot delete"
    | PinnedCannotAccess   // "Page is pinned, cannot access"
    | NotFound             // "Page not found" / "Page Not Found"
    | ReplacerFailed       // whatever error the replacer's Evict returns

  /**
   * The abstract state of a pool: the frame slots (`None` is a nil slot),
   * the free list, the page table, and the two collaborator logs.
   */
  datatype Pool = Pool(
    frames: seq<Option<Page>>,
    freeList: seq<FrameID>,
    table: map<PageID, FrameID>,
    accesses: seq<FrameID>,
    requests: seq<DiskReq>)

  /** The frame IDs `0, 1, ..., n - 1` in ascending order. */
  function FrameRange(n: nat): (r: seq<FrameID>)
    ensures |r| == n
    ensures forall i :: 0 <= i < n ==> r[i] == i
  {
    seq(n, i requires 0 <= i < n => i)
  }

  /** The state `NewBufferPoolManager` builds. */
  function Initial(): (r: Pool)
    ensures |r.frames| == MaxPoolSize && forall f :: 0 <= f < MaxPoolSize ==> r.frames[f].None?
    ensures r.freeList == FrameRange(MaxPoolSize)
    ensures r.table == map[] && r.accesses == [] && r.requests == []
  {
    Pool(seq(MaxPoolSize, _ => None), FrameRange(MaxPoolSize), map[], [], [])
  }

  // ---------------------------------------------------------------- invariants

  /** The free list holds distinct frame IDs, and it holds exactly the empty slots. */
  ghost predicate FreeListPartition(s: Pool)
    requires |s.frames| == MaxPoolSize
  {
    (forall i, j :: 0 <= i < j < |s.freeList| ==> s.freeList[i] != s.freeList[j]) &&
    (forall i :: 0 <= i < |s.freeList| ==> s.freeList[i] < MaxPoolSize && s.frames[s.freeList[i]].None?) &&
    (forall f :: 0 <= f < MaxPoolSize && s.frames[f].None? ==> f in s.freeList)
  }

  /** Every page-table entry names an occupied frame holding a page with that ID. */
  ghost predicate TableSound(s: Pool)
    requires |s.frames| == MaxPoolSize
  {
    forall id :: id in s.table ==>
      s.table[id] < MaxPoolSize && s.frames[s.table[id]].Some? && s.frames[s.table[id]].value.id == id
  }

  /** Every occupied frame is the one the page table names for its page's ID. */
  ghost predicate FramesIndexed(s: Pool)
    requires |s.frames| == MaxPoolSize
  {
    forall f :: 0 <= f < MaxPoolSize && s.frames[f].Some? ==>
      s.frames[f].value.id in s.table && s.table[s.frames[f].value.id] == f
  }

  /** What every operation keeps, whatever its arguments. */
  ghost predicate Sound(s: Pool)
  {
    |s.frames| == MaxPoolSize && FreeListPartition(s) && TableSound(s)
  }

  /**
   * The page table and the frame slots agree in both directions: the table is
   * a bijection between the resident page IDs and the occupied frames.
   */
  ghost predicate Consistent(s: Pool)
  {
    Sound(s) && FramesIndexed(s)
  }

  /** The page resident under `id`; only meaningful when `id` is in the table. */
  function Resident(s: Pool, id: PageID): Page
    requires Sound(s) && id in s.table
  {
    s.frames[s.table[id]].value
  }

  lemma InitialConsistent()
    ensures Consistent(Initial())
    ensures Initial().freeList == FrameRange(MaxPoolSize)
  {
    var s := Initial();
    forall f | 0 <= f < MaxPoolSize && s.frames[f].None?
      ensures f in s.freeList
    {
      assert s.freeList[f] == f;
    }
  }

  // ------------------------------------------------------------ the operations

  /** `InsertPage`: take the head of the free list, store the page there, map its ID to it. */
  function PoolInsert(s: Pool, page: Page): (r: (bool, Pool))
    requires Sound(s)
    ensures Sound(r.1)
    ensures r.0 <==> s.freeList != []
    ensures !r.0 ==> r.1 == s
    ensures Consistent(s) && page.id !in s.table ==> Consistent(r.1)
    ensures r.0 ==>
      r.1.freeList == s.freeList[1..] && r.1.table == s.table[page.id := s.freeList[0]] &&
      r.1.frames == s.frames[s.freeList[0] := Some(page)] &&
      r.1.accesses == s.accesses && r.1.requests == s.requests
  {
    if s.freeList == [] then (false, s)
    else
      var f := s.freeList[0];
      var t := s.(frames := s.frames[f := Some(page)], freeList := s.freeList[1..], table := s.table[page.id := f]);
      assert FreeListPartition(t) by {
        forall g | 0 <= g < MaxPoolSize && t.frames[g].None?
          ensures g in t.freeList
        {
          assert g in s.freeList && g != f;
          var k :| 0 <= k < |s.freeList| && s.freeList[k] == g;
          assert k != 0 && t.freeList[k - 1] == g;
        }
      }
      (true, t)
  }

  /** `DeletePage`: refuse a pinned or absent page; otherwise empty its frame and free it. */
  function PoolDelete(s: Pool, id: PageID): (r: (Result<FrameID, Error>, Pool))
    requires Sound(s)
    ensures Sound(r.1)
    ensures Consistent(s) ==> Consistent(r.1)
    ensures r.0.Ok? <==> id in s.table && !Resident(s, id).isPinned
    ensures r.0.Err? ==> r.1 == s
    ensures id !in s.table ==> r.0 == Err(NotFound)
    ensures id in s.table && Resident(s, id).isPinned ==> r.0 == Err(PinnedCannotDelete)
    ensures r.0.Ok? ==>
      r.0.value == s.table[id] && r.1.frames[r.0.value].None? &&
      r.1.table == s.table - {id} && r.1.freeList == s.freeList + [r.0.value] &&
      r.1.frames == s.frames[r.0.value := None] &&
      r.1.accesses == s.accesses && r.1.requests == s.requests
  {
    if id in s.table then
      var f := s.table[id];
      if s.frames[f].value.isPinned then (Err(PinnedCannotDelete), s)
      else
        var t := s.(table := s.table - {id}, frames := s.frames[f := None], freeList := s.freeList + [f]);
        assert FreeListPartition(t) by {
          forall i, j | 0 <= i < j < |t.freeList| ensures t.freeList[i] != t.freeList[j] {
            if j == |s.freeList| { assert s.frames[s.freeList[i]].None?; }
          }
          forall g | 0 <= g < MaxPoolSize && t.frames[g].None?
            ensures g in t.freeList
          {
            if g != f { assert g in s.freeList; }
            else { assert t.freeList[|s.freeList|] == g; }
          }
        }
        (Ok(f), t)
    else (Err(NotFound), s)
  }

  /** `Pin`: set the resident page's pin flag and tell the replacer about an access. */
  function PoolPin(s: Pool, id: PageID): (r: (Option<Error>, Pool))
    requires Sound(s)
    ensures Sound(r.1)
    ensures Consistent(s) ==> Consistent(r.1)
    ensures r.0.None? <==> id in s.table
    ensures r.0.Some? ==> r.0 == Some(NotFound) && r.1 == s
    ensures id in s.table ==>
      r.1.table == s.table && r.1.freeList == s.freeList && r.1.requests == s.requests &&
      Resident(r.1, id) == Resident(s, id).(isPinned := true) &&
      r.1.accesses == s.accesses + [s.table[id]] &&
      r.1.frames == s.frames[s.table[id] := Some(Resident(s, id).(isPinned := true))]
  {
    if id in s.table then
      var f := s.table[id];
      (None, s.(frames := s.frames[f := Some(s.frames[f].value.(isPinned := true))], accesses := s.accesses + [f]))
    else (Some(NotFound), s)
  }

  /** `Unpin`: overwrite the dirty flag with `isDirty` and clear the pin flag. */
  function PoolUnpin(s: Pool, id: PageID, isDirty: bool): (r: (Option<Error>, Pool))
    requires Sound(s)
    ensures Sound(r.1)
    ensures Consistent(s) ==> Consistent(r.1)
    ensures r.0.None? <==> id in s.table
    ensures r.0.Some? ==> r.0 == Some(NotFound) && r.1 == s
  {
    if id in s.table then
      var f := s.table[id];
      (None, s.(frames := s.frames[f := Some(s.frames[f].value.(isDirty := isDirty, isPinned := false))]))
    else (Some(NotFound), s)
  }

  /**
   * `FetchPage`: on a hit of an unpinned page return a copy taken before
   * pinning and pin the resident page; on a hit of a pinned page fail; on a
   * miss queue a READ request and return the zero page.
   */
  function PoolFetch(s: Pool, id: PageID): (r: (Result<Page, Error>, Pool))
    requires Sound(s)
    ensures Sound(r.1)
    ensures Consistent(s) ==> Consistent(r.1)
    ensures id in s.table && Resident(s, id).isPinned ==> r == (Err(PinnedCannotAccess), s)
    ensures id in s.table && !Resident(s, id).isPinned ==> r.0 == Ok(Resident(s, id)) && r.1 == PoolPin(s, id).1
    ensures id !in s.table ==> r.0 == Ok(ZeroPage) && r.1 == s.(requests := s.requests + [DiskReq(ZeroPage, Read)])
  {
    if id in s.table then
      var page := s.frames[s.table[id]].value;
      if page.isPinned then (Err(PinnedCannotAccess), s)
      else (Ok(page), PoolPin(s, id).1)
    else (Ok(ZeroPage), s.(requests := s.requests + [DiskReq(ZeroPage, Read)]))
  }

  /**
   * What the replacer's `Evict` may answer: a failure, or a frame that holds a
   * page (the source dereferences the victim's slot without a nil check).
   */
  ghost predicate VictimAdmissible(s: Pool, victim: Result<FrameID, Error>)
  {
    victim.Ok? ==> victim.value < |s.frames| && s.frames[victim.value].Some?
  }

  /**
   * `Evict`: pass on the replacer's failure; otherwise queue a WRITE request
   * carrying the victim page, delete that page, and succeed even when the
   * delete fails.
   */
  function PoolEvict(s: Pool, victim: Result<FrameID, Error>): (r: (Option<Error>, Pool))
    requires Sound(s) && VictimAdmissible(s, victim)
    ensures Sound(r.1)
    ensures Consistent(s) ==> Consistent(r.1)
    ensures victim.Err? ==> r == (Some(victim.error), s)
    ensures victim.Ok? ==> r.0.None?
    ensures victim.Ok? ==>
      r.1.requests == s.requests + [DiskReq(s.frames[victim.value].value, Write)] &&
      r.1.accesses == s.accesses
    ensures victim.Ok? ==>
      r.1.(requests := s.requests) == PoolDelete(s, s.frames[victim.value].value.id).1
  {
    if victim.Err? then (Some(victim.error), s)
    else
      var page := s.frames[victim.value].value;
      var t := s.(requests := s.requests + [DiskReq(page, Write)]);
      (None, PoolDelete(t, page.id).1)
  }

  // ------------------------------------------------------------------- lemmas

  /**
   * Inserting a page whose ID is already resident leaves the frame it used to
   * occupy holding a page the table no longer names: the source does not check
   * residency, so the bijection only survives inserts of new IDs.
   */
  lemma InsertResidentOrphansFrame(s: Pool, page: Page)
    requires Consistent(s) && s.freeList != [] && page.id in s.table
    ensures var t := PoolInsert(s, page).1;
      var old_f := s.table[page.id];
      t.frames[old_f] == s.frames[old_f] && t.table[page.id] != old_f && !FramesIndexed(t)
  {
    var t := PoolInsert(s, page).1;
    var old_f := s.table[page.id];
    assert s.freeList[0] != old_f;
    assert t.frames[old_f].Some? && t.frames[old_f].value.id == page.id;
  }

  /** A successful insert makes the page visible to `FetchPage` at the frame it took. */
  lemma {:induction false} InsertThenFetch(s: Pool, page: Page)
    requires Sound(s) && s.freeList != [] && !page.isPinned
    ensures var t := PoolInsert(s, page).1;
      page.id in t.table && t.table[page.id] == s.freeList[0] &&
      PoolFetch(t, page.id).0 == Ok(page) &&
      PoolFetch(t, page.id).1.frames[s.freeList[0]] == Some(page.(isPinned := true)) &&
      PoolFetch(t, page.id).1.accesses == s.accesses + [s.freeList[0]]
  {
    var t := PoolInsert(s, page).1;
    assert t.table[page.id] == s.freeList[0];
    assert Resident(t, page.id) == page;
  }

  /**
   * FIFO reuse: when the pool is full, the frame a delete frees is the one
   * the next insert takes.
   */
  lemma DeleteThenInsertReusesFrame(s: Pool, id: PageID, page: Page)
    requires Sound(s) && s.freeList == []
    requires id in s.table && !Resident(s, id).isPinned
    ensures var (d, t) := PoolDelete(s, id);
      d.Ok? && PoolInsert(t, page).0 &&
      PoolInsert(t, page).1.table[page.id] == d.value &&
      PoolInsert(t, page).1.frames[d.value] == Some(page)
  {
  }

  /** A page whose pin flag is set is never removed from its frame by a delete. */
  lemma DeleteKeepsPinned(s: Pool, id: PageID)
    requires Sound(s)
    ensures forall f :: 0 <= f < MaxPoolSize && s.frames[f].Some? && s.frames[f].value.isPinned ==>
      PoolDelete(s, id).1.frames[f] == s.frames[f]
  {
  }

  /** Nor by an eviction, even when the replacer names the pinned page's frame. */
  lemma EvictKeepsPinned(s: Pool, victim: Result<FrameID, Error>)
    requires Sound(s) && VictimAdmissible(s, victim)
    ensures forall f :: 0 <= f < MaxPoolSize && s.frames[f].Some? && s.frames[f].value.isPinned ==>
      PoolEvict(s, victim).1.frames[f] == s.frames[f]
  {
    if victim.Ok? {
      var page := s.frames[victim.value].value;
      DeleteKeepsPinned(s.(requests := s.requests + [DiskReq(page, Write)]), page.id);
    }
  }

  /**
   * In a consistent pool, evicting an unpinned victim writes that page out and
   * returns its frame to the tail of the free list.
   */
  lemma EvictUnpinnedFreesVictim(s: Pool, f: FrameID)
    requires Consistent(s) && f < MaxPoolSize && s.frames[f].Some? && !s.frames[f].value.isPinned
    ensures var t := PoolEvict(s, Ok(f)).1;
      t.requests == s.requests + [DiskReq(s.frames[f].value, Write)] &&
      t.frames[f].None? && t.freeList == s.freeList + [f] &&
      s.frames[f].value.id !in t.table
  {
  }

  /**
   * In a consistent pool, evicting a pinned victim still queues its WRITE
   * request but leaves the frames, the table and the free list as they were.
   */
  lemma EvictPinnedOnlyWrites(s: Pool, f: FrameID)
    requires Consistent(s) && f < MaxPoolSize && s.frames[f].Some? && s.frames[f].value.isPinned
    ensures PoolEvict(s, Ok(f)) == (None, s.(requests := s.requests + [DiskReq(s.frames[f].value, Write)]))
  {
  }

  /** Unpinning with the old dirty flag undoes a pin's effect on the frames. */
  lemma PinUnpinRestoresFrames(s: Pool, id: PageID)
    requires Sound(s) && id in s.table && !Resident(s, id).isPinned
    ensures PoolUnpin(PoolPin(s, id).1, id, Resident(s, id).isDirty).1.frames == s.frames
  {
    var f := s.table[id];
    var u := PoolUnpin(PoolPin(s, id).1, id, Resident(s, id).isDirty).1;
    assert u.frames[f] == s.frames[f];
  }

  /**
   * A fetch hit pins the page, so a second fetch and a delete are refused
   * until it is unpinned; after the unpin the delete succeeds.
   */
  lemma FetchPinsUntilUnpin(s: Pool, id: PageID, isDirty: bool)
    requires Sound(s) && id in s.table && !Resident(s, id).isPinned
    ensures var t := PoolFetch(s, id).1;
      PoolFetch(t, id) == (Err(PinnedCannotAccess), t) &&
      PoolDelete(t, id) == (Err(PinnedCannotDelete), t) &&
      PoolDelete(PoolUnpin(t, id, isDirty).1, id).0 == Ok(s.table[id])
  {
  }

  /** `Unpin` sets the dirty flag to exactly its argument: a dirty page can be made clean. */
  lemma UnpinOverwritesDirty(s: Pool, id: PageID, isDirty: bool)
    requires Sound(s) && id in s.table
    ensures var t := PoolUnpin(s, id, isDirty).1;
      id in t.table && Resident(t, id) == Resident(s, id).(isDirty := isDirty, isPinned := false) &&
      t.table == s.table && t.freeList == s.freeList && t.accesses == s.accesses && t.requests == s.requests &&
      t.frames == s.frames[s.table[id] := Some(Resident(s, id).(isDirty := isDirty, isPinned := false))]
  {
  }

  // ---------------------------------------------------------------- the class

  class BufferPoolManager {
    const pages: array<Option<Page>>
    var freeList: seq<FrameID>
    var pageTable: map<PageID, FrameID>
    /** The frames passed to the replacer's `RecordAccess`, oldest first. */
    ghost var accesses: seq<FrameID>
    /** The requests passed to the disk scheduler's `AddReq`, oldest first. */
    ghost var requests: seq<DiskReq>
    /** The `k` the LRU-K replacer is built with. */
    ghost const replacerK: nat

    ghost function State(): Pool
      reads this, pages
    {
      Pool(pages[..], freeList, pageTable, accesses, requests)
    }

    ghost predicate Valid()
      reads this, pages
    {
      Sound(State())
    }

    /** `NewBufferPoolManager`: every frame free, in ascending order; empty table; K = 2. */
    constructor ()
      ensures Valid() && Consistent(State())
      ensures State() == Initial()
      ensures freeList == FrameRange(MaxPoolSize)
      ensures replacerK == 2
    {
      var free: seq<FrameID> := [];
      var slots := new Option<Page>[MaxPoolSize];
      for i := 0 to MaxPoolSize
        invariant free == FrameRange(i)
        invariant forall j :: 0 <= j < i ==> slots[j] == None
      {
        free := free + [i];
        slots[i] := None;
      }
      pages := slots;
      freeList := free;
      pageTable := map[];
      accesses := [];
      requests := [];
      replacerK := 2;
      new;
      assert pages[..] == Initial().frames;
      InitialConsistent();
    }

    method InsertPage(page: Page) returns (isAdded: bool)
      requires Valid()
      modifies this, pages
      ensures Valid()
      ensures (isAdded, State()) == PoolInsert(old(State()), page)
    {
      if |freeList| == 0 {
        return false;
      }
      var frameID := freeList[0];
      freeList := freeList[1..];
      pages[frameID] := Some(page);
      pageTable := pageTable[page.id := frameID];
      return true;
    }

    method CreateAndInsertPage(data: seq<seq<byte>>, id: PageID) returns (err: Option<Error>)
      requires Valid()
      modifies this, pages
      ensures Valid()
      ensures var (added, s) := PoolInsert(old(State()), Page(id, data, false, false));
        State() == s && err == (if added then None else Some(UnableToAdd))
    {
      var page := Page(id, data, false, false);
      var isAdded := InsertPage(page);
      if !isAdded {
        return Some(UnableToAdd);
      }
      return None;
    }

    method DeletePage(pageID: PageID) returns (r: Result<FrameID, Error>)
      requires Valid()
      modifies this, pages
      ensures Valid()
      ensures (r, State()) == PoolDelete(old(State()), pageID)
    {
      if pageID in pageTable {
        var frameID := pageTable[pageID];
        var page := pages[frameID].value;
        if page.isPinned {
          return Err(PinnedCannotDelete);
        }
        pageTable := pageTable - {pageID};
        pages[frameID] := None;
        freeList := freeList + [frameID];
        return Ok(frameID);
      }
      return Err(NotFound);
    }

    method Pin(pageID: PageID) returns (err: Option<Error>)
      requires Valid()
      modifies this, pages
      ensures Valid()
      ensures (err, State()) == PoolPin(old(State()), pageID)
    {
      if pageID in pageTable {
        var frameID := pageTable[pageID];
        var page := pages[frameID].value;
        pages[frameID] := Some(page.(isPinned := true));
        accesses := accesses + [frameID];
        return None;
      }
      return Some(NotFound);
    }

    method Unpin(pageID: PageID, isDirty: bool) returns (err: Option<Error>)
      requires Valid()
      modifies this, pages
      ensures Valid()
      ensures (err, State()) == PoolUnpin(old(State()), pageID, isDirty)
    {
      if pageID in pageTable {
        var frameID := pageTable[pageID];
        var page := pages[frameID].value;
        pages[frameID] := Some(page.(isDirty := isDirty, isPinned := false));
        return None;
      }
      return Some(NotFound);
    }

    method FetchPage(pageID: PageID) returns (r: Result<Page, Error>)
      requires Valid()
      modifies this, pages
      ensures Valid()
      ensures (r, State()) == PoolFetch(old(State()), pageID)
    {
      if pageID in pageTable {
        var page := pages[pageTable[pageID]].value;
        if page.isPinned {
          return Err(PinnedCannotAccess);
        }
        var _ := Pin(pageID);
        return Ok(page);
      }
      requests := requests + [DiskReq(ZeroPage, Read)];
      return Ok(ZeroPage);
    }

    /**
     * `Evict(pageID)`: `victim` is what the replacer's `Evict` answered; the
     * `pageID` argument is ignored, as in the source.
     */
    method Evict(pageID: PageID, victim: Result<FrameID, Error>) returns (err: Option<Error>)
      requires Valid() && VictimAdmissible(State(), victim)
      modifies this, pages
      ensures Valid()
      ensures (err, State()) == PoolEvict(old(State()), victim)
    {
      if victim.Err? {
        return Some(victim.error);
      }
      var page := pages[victim.value].value;
      requests := requests + [DiskReq(page, Write)];
      var _ := DeletePage(page.id);
      return None;
    }
  }
}
