/** The buffer pool manager itself: every method changes the pool as `BufferPool` says. */
module BufferManagement {
  import opened Bytes
  import opened PageLayout
  import opened Pages
  import opened BufferPool

  /** The file of one table, as the pages that have been written to it. */
  class DiskManager {
    var pages: map<int, PageBytes>

    constructor ()
      ensures pages == map[]
    {
      pages := map[];
    }

    method WritePage(pageId: int, data: array<byte>)
      requires data.Length == PAGE_SIZE
      modifies this
      ensures pages == old(pages)[pageId := data[..]]
    {
      pages := pages[pageId := data[..]];
    }

    /** Nothing is promised about a page that was never written. */
    method ReadPage(pageId: int, data: array<byte>)
      requires data.Length == PAGE_SIZE
      modifies data
      ensures pageId in pages ==> data[..] == pages[pageId]
    {
      if pageId in pages {
        CopyInto(data, 0, pages[pageId]);
      }
    }
  }

  ghost function FrameOf(page: Page): Frame
    requires page.Sized()
    reads page, page.data
  {
    Frame(page.pageId, page.pinCount, page.isDirty, page.Content())
  }

  /** Some element: a container walked in no order that the engine relies on. */
  method AnyOf<T>(s: set<T>) returns (k: T)
    requires s != {}
    ensures k in s
  {
    k :| k in s;
  }

  method ZeroFill(page: Page)
    requires page.Sized()
    modifies page.data
    ensures page.Content() == ZeroPage()
  {
    forall k | 0 <= k < PAGE_SIZE {
      page.data[k] := 0;
    }
  }

  /** The frames of a new pool, and the free list naming each of them once. */
  method NewFrames(poolSize: nat) returns (frames: seq<Page>, free: seq<nat>)
    ensures |frames| == |free| == poolSize
    ensures forall k | 0 <= k < poolSize :: free[k] == k
    ensures forall k | 0 <= k < poolSize :: fresh(frames[k]) && fresh(frames[k].data) && frames[k].Sized()
    ensures forall k | 0 <= k < poolSize ::
      frames[k].pageId == INVALID_PAGE_ID && frames[k].pinCount == 0 && !frames[k].isDirty
    ensures forall j, k | 0 <= j < k < poolSize :: frames[j] != frames[k] && frames[j].data != frames[k].data
  {
    frames, free := [], [];
    for i := 0 to poolSize
      invariant |frames| == |free| == i
      invariant forall k | 0 <= k < i :: free[k] == k
      invariant forall k | 0 <= k < i :: fresh(frames[k]) && fresh(frames[k].data) && frames[k].Sized()
      invariant forall k | 0 <= k < i ::
        frames[k].pageId == INVALID_PAGE_ID && frames[k].pinCount == 0 && !frames[k].isDirty
      invariant forall j, k | 0 <= j < k < i :: frames[j] != frames[k] && frames[j].data != frames[k].data
    {
      var page := new Page();
      frames := frames + [page];
      free := free + [i];
    }
  }

  class BufferPoolManager {
    const disk: DiskManager
    const pages: seq<Page>
    var pageTable: map<int, nat>
    var freeList: seq<nat>
    var lruList: seq<LruNode>
    var lruPos: map<nat, nat>
    var nextHandle: nat
    var nextPageId: int
    ghost const Repr: set<object>

    /** The objects the pool is made of, fixed when it is built. */
    ghost predicate Built() {
      && Repr == {this, disk} + (set i | 0 <= i < |pages| :: pages[i]) + (set i | 0 <= i < |pages| :: pages[i].data)
      && (forall i | 0 <= i < |pages| :: pages[i].Sized())
      && (forall i, j | 0 <= i < j < |pages| :: pages[i] != pages[j] && pages[i].data != pages[j].data)
    }

    ghost function Frames(): (s: seq<Frame>)
      requires Built()
      reads Repr
      ensures |s| == |pages|
      ensures forall i | 0 <= i < |pages| :: s[i] == FrameOf(pages[i])
    {
      seq(|pages|, i requires 0 <= i < |pages| && Built() reads Repr => FrameOf(pages[i]))
    }

    ghost function View(): Pool
      requires Built()
      reads Repr
    {
      Pool(Frames(), pageTable, freeList, lruList, lruPos, nextHandle, nextPageId, disk.pages)
    }

    constructor (poolSize: nat, disk: DiskManager)
      ensures Built() && this.disk == disk && |pages| == poolSize && fresh(Repr - {disk})
      ensures Inv(View()) && Unpinned(View())
      ensures View().table == map[] && View().disk == disk.pages && View().nextPageId == 0
      ensures |freeList| == poolSize && forall k | 0 <= k < poolSize :: freeList[k] == k
    {
      var frames, free := NewFrames(poolSize);
      this.disk := disk;
      pages := frames;
      pageTable, freeList, lruList, lruPos := map[], free, [], map[];
      nextHandle, nextPageId := 0, 0;
      Repr := {this, disk} + (set i | 0 <= i < |frames| :: frames[i]) + (set i | 0 <= i < |frames| :: frames[i].data);
      new;
      NewPoolInv(View());
    }

    lemma ViewFacts(f: nat)
      requires Built() && f < |pages|
      ensures pages[f].Sized() && |View().frames| == |pages| && View().frames[f].data == pages[f].Content()
      ensures View().table == pageTable && View().disk == disk.pages && View().nextPageId == nextPageId
    {
    }

    method GetFreeFrameOrVictim() returns (ok: bool, frameId: nat)
      requires Built() && Shaped(View())
      modifies this
      ensures View() == TakeFrame(old(View())).0
      ensures ok == TakeFrame(old(View())).1.Some?
      ensures ok ==> frameId == TakeFrame(old(View())).1.value
      ensures ok <==> old(freeList) != [] || old(lruList) != []
      ensures ok ==> NextFrame(old(View()), frameId, freeList) && (old(freeList) != [] ==> lruList == old(lruList))
    {
      frameId := 0;
      if freeList == [] {
        if lruList == [] {
          return false, 0;
        }
        frameId := lruList[0].frame;
        lruList := lruList[1..];
        lruPos := lruPos - {frameId};
        return true, frameId;
      }
      frameId := freeList[0];
      freeList := freeList[1..];
      ok := true;
    }

    /** `list::erase` of the node an iterator points at. */
    method EraseNode(handle: nat)
      requires Built()
      modifies this`lruList
      ensures lruList == RemoveNode(old(lruList), handle)
    {
      var k := 0;
      while k < |lruList| && lruList[k].handle != handle
        invariant k <= |lruList|
        invariant forall i | 0 <= i < k :: lruList[i].handle != handle
      {
        k := k + 1;
      }
      RemoveNodeAt(lruList, handle, k);
      if k < |lruList| {
        lruList := lruList[..k] + lruList[k + 1..];
      }
    }

    method PinFrame(frameId: nat)
      requires Built()
      modifies this
      ensures View() == BufferPool.PinFrame(old(View()), frameId)
    {
      if frameId in lruPos {
        EraseNode(lruPos[frameId]);
        lruPos := lruPos - {frameId};
      }
    }

    method UnpinFrame(frameId: nat)
      requires Built()
      modifies this
      ensures View() == BufferPool.UnpinFrame(old(View()), frameId)
    {
      if frameId !in lruPos {
        lruList := lruList + [LruNode(nextHandle, frameId)];
        lruPos := lruPos[frameId := nextHandle];
        nextHandle := nextHandle + 1;
      }
    }

    /** The eviction shared by `FetchPage` and `NewPage`. */
    method EvictFrame(frameId: nat)
      requires Built() && frameId < |pages|
      modifies this, disk
      ensures View() == Evict(old(View()), frameId)
    {
      var page := pages[frameId];
      if page.pageId != INVALID_PAGE_ID && page.isDirty {
        disk.WritePage(page.pageId, page.data);
      }
      if page.pageId != INVALID_PAGE_ID {
        pageTable := pageTable - {page.pageId};
      }
    }

    /** Give the frame, emptied by `EvictFrame`, to a page. */
    method Assign(frameId: nat, pageId: int)
      requires Built() && frameId < |pages|
      modifies this, pages[frameId]
      ensures View() == Load(old(View()), frameId, pageId, old(pages[frameId].Content()))
    {
      var page := pages[frameId];
      pageTable := pageTable[pageId := frameId];
      page.pageId := pageId;
      page.pinCount := 1;
      page.isDirty := false;
      assert Frames() == old(Frames())[frameId := FrameOf(page)];
      PinFrame(frameId);
    }

    method AssignFromDisk(frameId: nat, pageId: int)
      requires Built() && frameId < |pages|
      modifies this, pages[frameId], pages[frameId].data
      ensures View() == Load(old(View()), frameId, pageId, pages[frameId].Content())
      ensures pageId in disk.pages ==> pages[frameId].Content() == disk.pages[pageId]
    {
      hide Load;
      Assign(frameId, pageId);
      ghost var before := View();
      LoadAnyBytes(old(View()), frameId, pageId, before.frames[frameId].data, ZeroPage());
      disk.ReadPage(pageId, pages[frameId].data);
      assert Frames() == before.frames[frameId := FrameOf(pages[frameId])];
      LoadAnyBytes(old(View()), frameId, pageId, before.frames[frameId].data, pages[frameId].Content());
    }

    method AssignZeroed(frameId: nat, pageId: int)
      requires Built() && frameId < |pages|
      modifies this, pages[frameId], pages[frameId].data
      ensures View() == Load(old(View()), frameId, pageId, ZeroPage())
    {
      hide Load;
      Assign(frameId, pageId);
      ghost var before := View();
      LoadAnyBytes(old(View()), frameId, pageId, before.frames[frameId].data, ZeroPage());
      ZeroFill(pages[frameId]);
      assert Frames() == before.frames[frameId := FrameOf(pages[frameId])];
    }

    /** Null is `None`; the page handed out is one of the pool's frames. */
    method FetchPage(pageId: int) returns (page: Page?)
      requires Built() && Consistent(View())
      modifies Repr
      ensures page == null ==> Fetch(old(View()), pageId, ZeroPage()) == (View(), None)
      ensures page != null ==>
        && pageId in pageTable && pageTable[pageId] < |pages| && page == pages[pageTable[pageId]]
        && Fetch(old(View()), pageId, page.Content()) == (View(), Some(pageTable[pageId]))
      ensures page != null && pageId !in old(pageTable) && pageId in old(disk.pages) ==>
        page.Content() == old(disk.pages)[pageId]
    {
      ghost var p := View();
      if pageId in pageTable {
        var frameId := pageTable[pageId];
        page := pages[frameId];
        page.pinCount := page.pinCount + 1;
        assert Frames() == p.frames[frameId := FrameOf(page)];
        PinFrame(frameId);
        return;
      }
      var ok, frameId := GetFreeFrameOrVictim();
      if !ok {
        return null;
      }
      EvictFrame(frameId);
      AssignFromDisk(frameId, pageId);
      page := pages[frameId];
      FetchMissIs(p, pageId, frameId, page.Content());
      DiskKept(p, pageId, page.Content());
    }

    method NewPage() returns (page: Page?, pageId: int)
      requires Built() && Consistent(View())
      modifies Repr
      ensures page == null ==> New(old(View())) == (View(), None)
      ensures page != null ==>
        && pageId == old(nextPageId)
        && pageId in pageTable && pageTable[pageId] < |pages| && page == pages[pageTable[pageId]]
        && New(old(View())) == (View(), Some(pageTable[pageId]))
    {
      hide Mapped, IndexedBy, New, TakeFrame, Load, Evict;
      pageId := INVALID_PAGE_ID;
      var ok, frameId := GetFreeFrameOrVictim();
      if !ok {
        NewFails(old(View()));
        return null, pageId;
      }
      NewIs(old(View()), frameId);
      EvictFrame(frameId);
      ghost var e := View();
      pageId := nextPageId;
      nextPageId := nextPageId + 1;
      assert Frames() == e.frames;
      AssignZeroed(frameId, pageId);
      page := pages[frameId];
    }

    method UnpinPage(pageId: int, isDirty: bool) returns (ok: bool)
      requires Built() && Consistent(View())
      modifies Repr
      ensures (View(), ok) == Unpin(old(View()), pageId, isDirty)
    {
      hide Mapped, IndexedBy;
      if pageId !in pageTable {
        return false;
      }
      var frameId := pageTable[pageId];
      var page := pages[frameId];
      if page.pinCount <= 0 {
        return false;
      }
      if isDirty {
        page.isDirty := true;
      }
      page.pinCount := page.pinCount - 1;
      assert Frames() == old(Frames())[frameId := FrameOf(page)];
      UnpinFrame(frameId);
      ok := true;
    }

    method FlushPage(pageId: int) returns (ok: bool)
      requires Built() && Consistent(View())
      modifies Repr
      ensures (View(), ok) == Flush(old(View()), pageId)
    {
      if pageId !in pageTable {
        return false;
      }
      var frameId := pageTable[pageId];
      var page := pages[frameId];
      if page.isDirty {
        disk.WritePage(pageId, page.data);
        page.isDirty := false;
        assert Frames() == old(Frames())[frameId := FrameOf(page)];
      }
      ok := true;
    }

    /** The page table is walked in no particular order. */
    method FlushAllPages()
      requires Built() && Consistent(View())
      modifies Repr
      ensures View() == FlushSet(old(View()), old(pageTable.Keys))
    {
      hide FlushSet, Flush, IndexedBy, Mapped;
      ghost var p := View();
      var todo := pageTable.Keys;
      FlushNone(p);
      assert p.table.Keys - todo == {};
      while todo != {}
        invariant todo <= p.table.Keys
        invariant View() == FlushSet(p, p.table.Keys - todo)
        decreases todo
      {
        var pageId := AnyOf(todo);
        FlushSetFacts(p, p.table.Keys - todo);
        FlushOneMore(p, p.table.Keys - todo, pageId);
        var _ := FlushPage(pageId);
        assert p.table.Keys - (todo - {pageId}) == p.table.Keys - todo + {pageId};
        todo := todo - {pageId};
      }
      assert p.table.Keys - {} == p.table.Keys;
    }

    method DeletePage(pageId: int) returns (ok: bool)
      requires Built() && Consistent(View())
      modifies Repr
      ensures (View(), ok) == Delete(old(View()), pageId)
    {
      hide Mapped, IndexedBy;
      if pageId !in pageTable {
        return false;
      }
      var frameId := pageTable[pageId];
      var page := pages[frameId];
      if page.pinCount > 0 {
        return false;
      }
      if page.isDirty {
        disk.WritePage(pageId, page.data);
      }
      pageTable := pageTable - {pageId};
      page.pageId := INVALID_PAGE_ID;
      page.pinCount := 0;
      page.isDirty := false;
      freeList := freeList + [frameId];
      assert Frames() == old(Frames())[frameId := FrameOf(page)];
      ok := true;
    }
  }
}
