/**
 The buffer pool as a value: what each operation of the manager does to frames, page table,
 free list, LRU list, position index and disk, and what every run of them keeps.
 */
module BufferPool {
  import opened PageLayout

  datatype Frame = Frame(pageId: int, pins: int, dirty: bool, data: PageBytes)

  /** An entry of the LRU list; `handle` is its identity, what a list iterator points at. */
  datatype LruNode = LruNode(handle: nat, frame: nat)

  datatype Pool = Pool(
    frames: seq<Frame>,
    table: map<int, nat>,
    free: seq<nat>,
    lru: seq<LruNode>,
    pos: map<nat, nat>,
    nextHandle: nat,
    nextPageId: int,
    disk: map<int, PageBytes>)

  datatype Option<T> = None | Some(value: T)

  // ---- the operations ----

  function RemoveNode(lru: seq<LruNode>, handle: nat): seq<LruNode> {
    if lru == [] then []
    else if lru[0].handle == handle then lru[1..]
    else [lru[0]] + RemoveNode(lru[1..], handle)
  }

  /** `GetFreeFrameOrVictim`. */
  function TakeFrame(p: Pool): (r: (Pool, Option<nat>))
    requires Shaped(p)
    ensures r.1.Some? ==> r.1.value < |p.frames| == |r.0.frames|
  {
    if p.free != [] then
      assert p.free[0] in p.free;
      (p.(free := p.free[1..]), Some(p.free[0]))
    else if p.lru == [] then
      (p, None)
    else
      assert p.lru[0] in p.lru;
      (p.(lru := p.lru[1..], pos := p.pos - {p.lru[0].frame}), Some(p.lru[0].frame))
  }

  function PinFrame(p: Pool, f: nat): Pool {
    if f in p.pos then p.(lru := RemoveNode(p.lru, p.pos[f]), pos := p.pos - {f}) else p
  }

  function UnpinFrame(p: Pool, f: nat): Pool {
    if f in p.pos then p
    else p.(lru := p.lru + [LruNode(p.nextHandle, f)], pos := p.pos[f := p.nextHandle], nextHandle := p.nextHandle + 1)
  }

  /** Write the frame's page back if dirty, and forget it. */
  function Evict(p: Pool, f: nat): Pool
    requires f < |p.frames|
  {
    var g := p.frames[f];
    var p1 := if g.pageId != INVALID_PAGE_ID && g.dirty then p.(disk := p.disk[g.pageId := g.data]) else p;
    if g.pageId != INVALID_PAGE_ID then p1.(table := p1.table - {g.pageId}) else p1
  }

  /** Give frame `f` to page `id`, pinned and clean, with the given bytes. */
  function Load(p: Pool, f: nat, id: int, data: PageBytes): Pool
    requires f < |p.frames|
  {
    PinFrame(p.(table := p.table[id := f], frames := p.frames[f := Frame(id, 1, false, data)]), f)
  }

  /** A free frame or the least recently used one, emptied and given to page `id`. */
  function Replacement(p: Pool, id: int, data: PageBytes): (Pool, Option<nat>)
    requires Shaped(p)
  {
    match TakeFrame(p)
    case (_, None) => (p, None)
    case (p1, Some(f)) => (Load(Evict(p1, f), f, id, data), Some(f))
  }

  /** `read` stands for the bytes that the disk delivers when it has to be asked. */
  function Fetch(p: Pool, id: int, read: PageBytes): (Pool, Option<nat>)
    requires Shaped(p)
  {
    if id in p.table then
      var f := p.table[id];
      var g := p.frames[f];
      (PinFrame(p.(frames := p.frames[f := g.(pins := g.pins + 1)]), f), Some(f))
    else
      Replacement(p, id, read)
  }

  function New(p: Pool): (Pool, Option<nat>)
    requires Shaped(p)
  {
    var (q, f) := Replacement(p, p.nextPageId, ZeroPage());
    (if f.Some? then q.(nextPageId := p.nextPageId + 1) else p, f)
  }

  function Unpin(p: Pool, id: int, dirty: bool): (Pool, bool)
    requires Shaped(p)
  {
    if id !in p.table || p.frames[p.table[id]].pins <= 0 then (p, false)
    else
      var f := p.table[id];
      var g := p.frames[f];
      (UnpinFrame(p.(frames := p.frames[f := g.(dirty := dirty || g.dirty, pins := g.pins - 1)]), f), true)
  }

  function Flush(p: Pool, id: int): (Pool, bool)
    requires Shaped(p)
  {
    if id !in p.table then (p, false)
    else
      var f := p.table[id];
      var g := p.frames[f];
      (if g.dirty then p.(disk := p.disk[id := g.data], frames := p.frames[f := g.(dirty := false)]) else p, true)
  }

  /** `FlushPage` for every id of the set that is resident. */
  function FlushSet(p: Pool, ids: set<int>): Pool
    requires Shaped(p)
  {
    p.(disk := p.disk +
         (map id | id in ids && id in p.table && p.frames[p.table[id]].dirty :: p.frames[p.table[id]].data),
       frames := seq(|p.frames|, f requires 0 <= f < |p.frames| =>
         if p.frames[f].pageId in ids && p.frames[f].pageId in p.table && p.table[p.frames[f].pageId] == f
         then p.frames[f].(dirty := false) else p.frames[f]))
  }

  function Delete(p: Pool, id: int): (Pool, bool)
    requires Shaped(p)
  {
    if id !in p.table || p.frames[p.table[id]].pins > 0 then (p, false)
    else
      var f := p.table[id];
      var g := p.frames[f];
      (p.(disk := if g.dirty then p.disk[id := g.data] else p.disk,
          table := p.table - {id},
          frames := p.frames[f := Frame(INVALID_PAGE_ID, 0, false, g.data)],
          free := p.free + [f]), true)
  }

  /** The holder of the pinned page writes its bytes. */
  function Write(p: Pool, id: int, data: PageBytes): Pool
    requires Shaped(p) && id in p.table
  {
    p.(frames := p.frames[p.table[id] := p.frames[p.table[id]].(data := data)])
  }

  // ---- the structural invariant: holds in every run whatsoever ----

  /** Indices stay inside the pool. */
  ghost predicate Shaped(p: Pool) {
    && (forall id | id in p.table :: p.table[id] < |p.frames|)
    && (forall f | f in p.free :: f < |p.frames|)
    && (forall n | n in p.lru :: n.frame < |p.frames|)
  }

  /** Page table and frames name each other; a frame is free or mapped, and free at most once. */
  ghost predicate Mapped(p: Pool)
    requires Shaped(p)
  {
    && (forall id | id in p.table :: id != INVALID_PAGE_ID && p.frames[p.table[id]].pageId == id)
    && (forall f | 0 <= f < |p.frames| && p.frames[f].pageId != INVALID_PAGE_ID ::
          p.frames[f].pageId in p.table && p.table[p.frames[f].pageId] == f)
    && (forall f | 0 <= f < |p.frames| :: p.frames[f].pageId == INVALID_PAGE_ID <==> f in p.free)
    && (forall i, j | 0 <= i < j < |p.free| :: p.free[i] != p.free[j])
  }

  ghost predicate Sorted(lru: seq<LruNode>) {
    forall i, j | 0 <= i < j < |lru| :: lru[i].handle < lru[j].handle
  }

  /** The position index points at each list entry, and at nothing else. */
  ghost predicate Indexed(p: Pool) {
    IndexedBy(p.lru, p.pos, p.nextHandle)
  }

  ghost predicate IndexedBy(lru: seq<LruNode>, pos: map<nat, nat>, next: nat) {
    && Sorted(lru)
    && (forall n | n in lru :: n.handle < next && n.frame in pos && pos[n.frame] == n.handle)
    && (forall f | f in pos :: LruNode(pos[f], f) in lru)
  }

  ghost predicate Consistent(p: Pool) {
    Shaped(p) && Mapped(p) && Indexed(p)
  }

  /** The LRU list offers exactly the unpinned pages (and, harmlessly, frames already free). */
  ghost predicate LruExact(p: Pool)
    requires Shaped(p)
  {
    forall f | 0 <= f < |p.frames| ::
      && p.frames[f].pins >= 0
      && (p.frames[f].pageId != INVALID_PAGE_ID ==> (f in p.pos <==> p.frames[f].pins == 0))
  }

  /** A clean unpinned page that the disk knows is the same there. */
  ghost predicate Coherent(p: Pool)
    requires Shaped(p)
  {
    forall id | id in p.table && id in p.disk && !p.frames[p.table[id]].dirty && p.frames[p.table[id]].pins == 0 ::
      p.frames[p.table[id]].data == p.disk[id]
  }

  ghost predicate Inv(p: Pool) {
    Consistent(p) && LruExact(p) && Coherent(p)
  }

  ghost predicate Unpinned(p: Pool) {
    forall f | 0 <= f < |p.frames| :: p.frames[f].pins == 0
  }

  /** A page is stored once it has been unpinned as dirty. */
  ghost predicate Stored(p: Pool, id: int)
    requires Shaped(p)
  {
    id in p.disk || (id in p.table && p.frames[p.table[id]].dirty)
  }

  /** The bytes of a page: its frame's if it is resident, else the disk's. */
  ghost function ContentOf(p: Pool, id: int): PageBytes
    requires Shaped(p) && Stored(p, id)
  {
    if id in p.table then p.frames[p.table[id]].data else p.disk[id]
  }

  /** The same pages are stored, with the same bytes. */
  ghost predicate SameStore(p: Pool, q: Pool)
    requires Shaped(p) && Shaped(q)
  {
    && (forall id :: Stored(p, id) <==> Stored(q, id))
    && (forall id | Stored(p, id) :: ContentOf(q, id) == ContentOf(p, id))
  }

  // ---- the LRU list ----

  lemma {:induction false} RemoveNodeKeeps(lru: seq<LruNode>, handle: nat)
    requires Sorted(lru)
    ensures var r := RemoveNode(lru, handle);
      && (forall n :: n in r <==> n in lru && n.handle != handle)
      && Sorted(r)
  {
    if lru != [] {
      assert lru == [lru[0]] + lru[1..];
      if lru[0].handle != handle {
        RemoveNodeKeeps(lru[1..], handle);
      }
    }
  }

  lemma RemoveKeepsIndex(lru: seq<LruNode>, pos: map<nat, nat>, next: nat, f: nat)
    requires IndexedBy(lru, pos, next) && f in pos
    ensures IndexedBy(RemoveNode(lru, pos[f]), pos - {f}, next)
    ensures forall n :: n in RemoveNode(lru, pos[f]) <==> n in lru && n.frame != f
  {
    RemoveNodeKeeps(lru, pos[f]);
    SameHandle(lru, LruNode(pos[f], f));
    IndexWithout(lru, RemoveNode(lru, pos[f]), pos, next, f);
  }

  lemma IndexWithout(lru: seq<LruNode>, r: seq<LruNode>, pos: map<nat, nat>, next: nat, f: nat)
    requires IndexedBy(lru, pos, next) && f in pos && Sorted(r)
    requires forall n :: n in r <==> n in lru && n.handle != pos[f]
    requires forall n | n in lru && n.handle == pos[f] :: n.frame == f
    ensures IndexedBy(r, pos - {f}, next)
    ensures forall n :: n in r <==> n in lru && n.frame != f
  {
    hide Sorted;
  }

  lemma {:induction false} RemoveNodeAt(lru: seq<LruNode>, handle: nat, k: nat)
    requires k <= |lru| && (forall i | 0 <= i < k :: lru[i].handle != handle)
    requires k < |lru| ==> lru[k].handle == handle
    ensures RemoveNode(lru, handle) == if k < |lru| then lru[..k] + lru[k + 1..] else lru
  {
    if k > 0 {
      RemoveNodeAt(lru[1..], handle, k - 1);
      assert lru == [lru[0]] + lru[1..];
    }
  }

  ghost predicate SameButLru(p: Pool, q: Pool) {
    && q.frames == p.frames && q.table == p.table && q.free == p.free
    && q.disk == p.disk && q.nextPageId == p.nextPageId
  }

  lemma PinFrameKeeps(p: Pool, f: nat)
    requires Indexed(p)
    ensures Indexed(PinFrame(p, f)) && PinFrame(p, f).pos == p.pos - {f}
    ensures forall n :: n in PinFrame(p, f).lru <==> n in p.lru && n.frame != f
    ensures SameButLru(p, PinFrame(p, f))
  {
    if f in p.pos {
      RemoveKeepsIndex(p.lru, p.pos, p.nextHandle, f);
      hide RemoveNode, IndexedBy;
    } else {
      assert p.pos - {f} == p.pos;
    }
  }

  lemma SameHandle(lru: seq<LruNode>, n: LruNode)
    requires Sorted(lru) && n in lru
    ensures forall m | m in lru && m.handle == n.handle :: m == n
  {
  }

  lemma AppendKeeps(lru: seq<LruNode>, added: LruNode)
    requires Sorted(lru) && forall n | n in lru :: n.handle < added.handle
    ensures Sorted(lru + [added])
    ensures forall n :: n in lru + [added] <==> n in lru || n == added
  {
    assert forall i | 0 <= i < |lru| :: lru[i] in lru;
  }

  lemma UnpinFrameKeeps(p: Pool, f: nat)
    requires Indexed(p)
    ensures Indexed(UnpinFrame(p, f)) && UnpinFrame(p, f).pos.Keys == p.pos.Keys + {f}
    ensures forall n | n in UnpinFrame(p, f).lru :: n in p.lru || n.frame == f
    ensures SameButLru(p, UnpinFrame(p, f))
  {
    hide Sorted;
    if f !in p.pos {
      AppendKeeps(p.lru, LruNode(p.nextHandle, f));
    }
  }

  /** Taking the front of the list is pinning it. */
  lemma PopIsPin(p: Pool)
    requires Indexed(p) && p.lru != []
    ensures var n := p.lru[0];
      n in p.lru && n.frame in p.pos && PinFrame(p, n.frame) == p.(lru := p.lru[1..], pos := p.pos - {n.frame})
  {
    assert p.lru[0] in p.lru;
  }

  // ---- bringing a page in ----

  /** The first free frame; only when none is free, the front of the LRU list. */
  ghost predicate NextFrame(p: Pool, f: nat, free: seq<nat>) {
    if p.free != [] then f == p.free[0] && free == p.free[1..]
    else p.lru != [] && f == p.lru[0].frame && free == []
  }

  /** `q` is `p` with frame `f`, which was free or the oldest unpinned one, given to page `id`. */
  ghost predicate Replaced(p: Pool, q: Pool, f: nat, id: int, data: PageBytes) {
    && f < |p.frames| && NextFrame(p, f, q.free)
    && q.frames == p.frames[f := Frame(id, 1, false, data)]
    && q.table == (p.table - {p.frames[f].pageId})[id := f]
    && q.disk == (if p.frames[f].pageId != INVALID_PAGE_ID && p.frames[f].dirty
                  then p.disk[p.frames[f].pageId := p.frames[f].data] else p.disk)
    && (forall g :: g in q.free <==> g in p.free && g != f)
    && (forall i, j | 0 <= i < j < |q.free| :: q.free[i] != q.free[j])
    && (forall n :: n in q.lru <==> n in p.lru && n.frame != f)
    && q.pos == p.pos - {f}
    && Indexed(q)
    && (f in p.pos || p.frames[f].pageId == INVALID_PAGE_ID)
  }

  lemma LoadFacts(p: Pool, p1: Pool, f: nat, id: int, data: PageBytes)
    requires Shaped(p) && Mapped(p) && Indexed(p1) && f < |p.frames|
    requires p1 == p.(free := p1.free, lru := p1.lru, pos := p1.pos)
    ensures var q := Load(Evict(p1, f), f, id, data);
      && q.frames == p.frames[f := Frame(id, 1, false, data)]
      && q.table == (p.table - {p.frames[f].pageId})[id := f]
      && q.disk == (if p.frames[f].pageId != INVALID_PAGE_ID && p.frames[f].dirty
                    then p.disk[p.frames[f].pageId := p.frames[f].data] else p.disk)
      && q.free == p1.free
      && Indexed(q) && q.pos == p1.pos - {f}
      && forall n :: n in q.lru <==> n in p1.lru && n.frame != f
  {
    var e := Evict(p1, f);
    PinFrameKeeps(e.(table := e.table[id := f], frames := e.frames[f := Frame(id, 1, false, data)]), f);
    hide IndexedBy, PinFrame;
    if p.frames[f].pageId == INVALID_PAGE_ID {
      assert p.table - {INVALID_PAGE_ID} == p.table;
    }
  }

  lemma ReplacementFacts(p: Pool, id: int, data: PageBytes)
    requires Consistent(p)
    ensures Replacement(p, id, data).1.Some? <==> p.free != [] || p.lru != []
    ensures Replacement(p, id, data).1.Some? ==>
      Replaced(p, Replacement(p, id, data).0, Replacement(p, id, data).1.value, id, data)
  {
    if p.free != [] {
      var f := p.free[0];
      assert f in p.free;
      assert p.free == [f] + p.free[1..];
      LoadFacts(p, p.(free := p.free[1..]), f, id, data);
    } else if p.lru != [] {
      PopIsPin(p);
      PinFrameKeeps(p, p.lru[0].frame);
      LoadFacts(p, PinFrame(p, p.lru[0].frame), p.lru[0].frame, id, data);
    }
  }

  /** While a frame is free, a page brought in takes it, and nothing is evicted. */
  ghost predicate TookFreeFrame(p: Pool, q: Pool, id: int, data: PageBytes)
    requires p.free != []
  {
    && p.free[0] < |p.frames| == |q.frames|
    && q.frames == p.frames[p.free[0] := Frame(id, 1, false, data)]
    && q.table == p.table[id := p.free[0]] && q.free == p.free[1..] && q.disk == p.disk
    && forall k | k in p.table :: p.table[k] != p.free[0]
  }

  lemma ReplacedByFree(p: Pool, q: Pool, f: nat, id: int, data: PageBytes)
    requires Consistent(p) && p.free != [] && id !in p.table && Replaced(p, q, f, id, data)
    ensures f == p.free[0] && TookFreeFrame(p, q, id, data)
  {
    hide IndexedBy;
    assert p.free[0] in p.free;
    assert p.table - {INVALID_PAGE_ID} == p.table;
  }

  lemma FetchTakesFree(p: Pool, id: int, read: PageBytes)
    requires Consistent(p) && p.free != [] && id !in p.table
    ensures var (q, f) := Fetch(p, id, read); f == Some(p.free[0]) && TookFreeFrame(p, q, id, read)
  {
    ReplacementFacts(p, id, read);
    hide Replacement, Replaced, TookFreeFrame, IndexedBy;
    ReplacedByFree(p, Fetch(p, id, read).0, Fetch(p, id, read).1.value, id, read);
  }

  lemma NewTakesFree(p: Pool)
    requires Consistent(p) && p.free != [] && p.nextPageId !in p.table
    ensures var (q, f) := New(p); f == Some(p.free[0]) && TookFreeFrame(p, q, p.nextPageId, ZeroPage())
  {
    ReplacementFacts(p, p.nextPageId, ZeroPage());
    hide Replacement, Replaced, IndexedBy;
    var (q, f) := Replacement(p, p.nextPageId, ZeroPage());
    ReplacedByFree(p, q, f.value, p.nextPageId, ZeroPage());
  }

  lemma ReplacedKeeps(p: Pool, q: Pool, f: nat, id: int, data: PageBytes)
    requires Consistent(p) && id !in p.table && id != INVALID_PAGE_ID
    requires Replaced(p, q, f, id, data)
    ensures Consistent(q)
    ensures q.table.Keys - {id} == p.table.Keys - {p.frames[f].pageId}
    ensures LruExact(p) ==> LruExact(q)
    ensures LruExact(p) && p.frames[f].pageId != INVALID_PAGE_ID ==> p.frames[f].pins == 0
  {
    hide IndexedBy, NextFrame;
    assert forall k | k in q.table && k != id :: k in p.table && p.table[k] != f;
    assert Shaped(q);
    assert Mapped(q);
  }

  lemma ReplacedCoherent(p: Pool, q: Pool, f: nat, id: int, data: PageBytes)
    requires Inv(p) && id !in p.table && id != INVALID_PAGE_ID
    requires Replaced(p, q, f, id, data)
    ensures Inv(q)
  {
    ReplacedKeeps(p, q, f, id, data);
    hide IndexedBy, NextFrame;
    assert forall k | k in q.table && k != id :: k in p.table && q.table[k] == p.table[k] != f;
  }

  lemma ReplacedSameStore(p: Pool, q: Pool, f: nat, id: int, data: PageBytes)
    requires Inv(p) && id !in p.table && id != INVALID_PAGE_ID
    requires Replaced(p, q, f, id, data)
    requires id in p.disk ==> data == p.disk[id]
    ensures Shaped(q) && SameStore(p, q)
  {
    ReplacedKeeps(p, q, f, id, data);
    hide IndexedBy, NextFrame;
    forall k
      ensures Stored(p, k) <==> Stored(q, k)
      ensures Stored(p, k) ==> ContentOf(q, k) == ContentOf(p, k)
    {
      if k in p.table && k != p.frames[f].pageId {
        assert k in q.table && q.table[k] == p.table[k] != f;
      }
    }
  }

  // ---- what each operation keeps ----

  lemma LoadAnyBytes(p: Pool, f: nat, id: int, data: PageBytes, data': PageBytes)
    requires f < |p.frames|
    ensures |Load(p, f, id, data).frames| == |p.frames|
    ensures Load(p, f, id, data').frames[f].data == data'
    ensures var q := Load(p, f, id, data);
      Load(p, f, id, data') == q.(frames := q.frames[f := q.frames[f].(data := data')])
  {
  }

  lemma NewFails(p: Pool)
    requires Shaped(p) && TakeFrame(p).1 == None
    ensures TakeFrame(p).0 == p && New(p) == (p, None)
  {
  }

  lemma NewIs(p: Pool, f: nat)
    requires Shaped(p) && TakeFrame(p).1 == Some(f)
    ensures var e := Evict(TakeFrame(p).0, f);
      && e.nextPageId == p.nextPageId
      && New(p) == (Load(e.(nextPageId := e.nextPageId + 1), f, p.nextPageId, ZeroPage()), Some(f))
      && p.nextPageId in New(p).0.table && New(p).0.table[p.nextPageId] == f
  {
  }

  lemma FetchMissIs(p: Pool, id: int, f: nat, read: PageBytes)
    requires Shaped(p) && TakeFrame(p).1 == Some(f) && id !in p.table
    ensures var q := Load(Evict(TakeFrame(p).0, f), f, id, read);
      && Fetch(p, id, read) == (q, Some(f))
      && id in q.table && q.table[id] == f && q.disk == Evict(TakeFrame(p).0, f).disk
  {
  }

  /** Whatever a fetch writes to the disk are the bytes that the page has anyway. */
  lemma FetchWritesContent(p: Pool, id: int, read: PageBytes)
    requires Consistent(p)
    ensures var q := Fetch(p, id, read).0;
      forall k | k in p.disk :: k in q.disk && (q.disk[k] == p.disk[k] || q.disk[k] == ContentOf(p, k))
  {
    if id in p.table {
      FetchHitFacts(p, id, read);
    } else {
      ReplacementFacts(p, id, read);
    }
    hide Replacement, IndexedBy;
  }

  /** Bringing a page in writes no other page's bytes over it on the disk. */
  lemma DiskKept(p: Pool, id: int, read: PageBytes)
    requires Consistent(p) && id !in p.table
    ensures var q := Fetch(p, id, read).0;
      (id in q.disk <==> id in p.disk) && (id in p.disk ==> q.disk[id] == p.disk[id])
  {
    ReplacementFacts(p, id, read);
    hide Replacement, IndexedBy;
  }

  lemma FlushNone(p: Pool)
    requires Shaped(p)
    ensures FlushSet(p, {}) == p
  {
    assert FlushSet(p, {}).disk == p.disk;
    assert FlushSet(p, {}).frames == p.frames;
  }

  lemma FlushOneMoreWrites(p: Pool, ids: set<int>, id: int)
    requires Shaped(p) && id in p.table && id !in ids && Shaped(FlushSet(p, ids))
    requires p.frames[p.table[id]].pageId == id
    ensures Flush(FlushSet(p, ids), id).0.disk == FlushSet(p, ids + {id}).disk
  {
    var f := p.table[id];
    assert FlushSet(p, ids).frames[f] == p.frames[f];
  }

  lemma FlushOneMore(p: Pool, ids: set<int>, id: int)
    requires Consistent(p) && id in p.table && id !in ids && Shaped(FlushSet(p, ids))
    ensures Flush(FlushSet(p, ids), id) == (FlushSet(p, ids + {id}), true)
  {
    FlushOneMoreWrites(p, ids, id);
    hide IndexedBy;
    assert Flush(FlushSet(p, ids), id).0.frames == FlushSet(p, ids + {id}).frames;
  }

  lemma NewPoolInv(p: Pool)
    requires forall f | 0 <= f < |p.frames| ::
      p.frames[f].pageId == INVALID_PAGE_ID && p.frames[f].pins == 0 && !p.frames[f].dirty
    requires |p.free| == |p.frames| && forall i | 0 <= i < |p.free| :: p.free[i] == i
    requires p.table == map[] && p.lru == [] && p.pos == map[]
    ensures Inv(p) && Unpinned(p)
  {
    forall f: nat | f < |p.frames|
      ensures f in p.free
    {
      assert p.free[f] == f;
    }
  }

  /** Only frame `f`, which keeps its page, and the LRU bookkeeping differ. */
  ghost predicate Touched(p: Pool, q: Pool, f: nat, g: Frame) {
    && f < |p.frames| && g.pageId == p.frames[f].pageId
    && q.frames == p.frames[f := g]
    && q.table == p.table && q.free == p.free && q.disk == p.disk && q.nextPageId == p.nextPageId
    && Indexed(q)
    && (forall n | n in q.lru :: n in p.lru || n.frame == f)
  }

  lemma TouchedConsistent(p: Pool, q: Pool, f: nat, g: Frame)
    requires Consistent(p) && Touched(p, q, f, g)
    ensures Consistent(q)
  {
    hide IndexedBy;
  }

  lemma TouchedSameStore(p: Pool, q: Pool, f: nat, g: Frame)
    requires Consistent(p) && Consistent(q) && Touched(p, q, f, g)
    requires g.data == p.frames[f].data && g.dirty == p.frames[f].dirty
    ensures SameStore(p, q)
  {
    hide IndexedBy;
  }

  /** What a fetch promises: the frame it hands out is pinned and holds the page's bytes. */
  ghost predicate Fetched(p: Pool, q: Pool, f: Option<nat>, id: int)
    requires Shaped(p)
  {
    && q.nextPageId == p.nextPageId
    && (f.None? ==> q == p && id !in p.table && p.free == [] && p.lru == [])
    && (f.Some? ==> id in q.table && q.table[id] == f.value < |q.frames| && q.frames[f.value].pins >= 1)
    && (f.Some? && Stored(p, id) ==> q.frames[f.value].data == ContentOf(p, id))
    && (forall k | k in p.table && p.frames[p.table[k]].pins > 0 :: k in q.table && q.table[k] == p.table[k])
  }

  lemma TouchedPinned(p: Pool, q: Pool, f: nat, g: Frame)
    requires Inv(p) && Consistent(q) && Touched(p, q, f, g)
    requires g.pins >= 1 && q.pos == p.pos - {f}
    ensures LruExact(q) && Coherent(q)
  {
    hide IndexedBy;
    assert forall k | k in p.table && p.table[k] == f :: k == p.frames[f].pageId;
  }

  lemma FetchHitFacts(p: Pool, id: int, read: PageBytes)
    requires Consistent(p) && id in p.table
    ensures var q := Fetch(p, id, read).0; var f := p.table[id];
      && Fetch(p, id, read).1 == Some(f)
      && Touched(p, q, f, p.frames[f].(pins := p.frames[f].pins + 1))
      && q.pos == p.pos - {f}
  {
    var f := p.table[id];
    PinFrameKeeps(p.(frames := p.frames[f := p.frames[f].(pins := p.frames[f].pins + 1)]), f);
    hide IndexedBy, Mapped, PinFrame;
  }

  lemma FetchHit(p: Pool, id: int, read: PageBytes)
    requires Inv(p) && id in p.table
    ensures var (q, f) := Fetch(p, id, read);
      && Inv(q) && SameStore(p, q) && Fetched(p, q, f, id)
      && f.Some? && q.frames[f.value].pins == p.frames[f.value].pins + 1
  {
    FetchHitFacts(p, id, read);
    hide IndexedBy, Fetch;
    var q := Fetch(p, id, read).0;
    var f := p.table[id];
    TouchedConsistent(p, q, f, p.frames[f].(pins := p.frames[f].pins + 1));
    TouchedSameStore(p, q, f, p.frames[f].(pins := p.frames[f].pins + 1));
    TouchedPinned(p, q, f, p.frames[f].(pins := p.frames[f].pins + 1));
    hide SameStore, LruExact, Coherent, Mapped;
  }

  lemma FetchMiss(p: Pool, id: int, read: PageBytes)
    requires Inv(p) && id !in p.table && id != INVALID_PAGE_ID
    requires id in p.disk ==> read == p.disk[id]
    ensures var (q, f) := Fetch(p, id, read);
      && Inv(q) && SameStore(p, q) && Fetched(p, q, f, id)
      && (f.Some? ==> q.frames[f.value] == Frame(id, 1, false, read))
  {
    ReplacementFacts(p, id, read);
    ReplacementCounts(p, id, read);
    hide IndexedBy, Replacement, Coherent, SameStore, LruExact;
    var (q, f) := Fetch(p, id, read);
    if f.Some? {
      ReplacedCoherent(p, q, f.value, id, read);
      ReplacedSameStore(p, q, f.value, id, read);
      ReplacedKeepsPinned(p, q, f.value, id, read);
      hide Mapped;
    }
  }

  lemma ReplacedKeepsPinned(p: Pool, q: Pool, f: nat, id: int, data: PageBytes)
    requires Consistent(p) && LruExact(p) && id !in p.table && id != INVALID_PAGE_ID
    requires Replaced(p, q, f, id, data)
    ensures id in q.table && q.table[id] == f < |q.frames| && q.frames[f] == Frame(id, 1, false, data)
    ensures forall k | k in p.table && p.frames[p.table[k]].pins > 0 :: k in q.table && q.table[k] == p.table[k]
  {
    ReplacedKeeps(p, q, f, id, data);
    hide IndexedBy, NextFrame;
  }

  lemma ReplacementCounts(p: Pool, id: int, read: PageBytes)
    requires Shaped(p)
    ensures Replacement(p, id, read).0.nextPageId == p.nextPageId
  {
  }

  /** Transparent, whatever it evicts. */
  lemma FetchKeeps(p: Pool, id: int, read: PageBytes)
    requires Inv(p) && id != INVALID_PAGE_ID
    requires id !in p.table && id in p.disk ==> read == p.disk[id]
    ensures var (q, f) := Fetch(p, id, read);
      Inv(q) && SameStore(p, q) && Fetched(p, q, f, id)
  {
    hide Fetch, Inv, SameStore, Fetched;
    if id in p.table { FetchHit(p, id, read); } else { FetchMiss(p, id, read); }
  }

  lemma NewKeeps(p: Pool)
    requires Inv(p) && p.nextPageId != INVALID_PAGE_ID
    requires p.nextPageId !in p.table && p.nextPageId !in p.disk
    ensures var (q, f) := New(p);
      && Inv(q) && SameStore(p, q)
      && (f.None? ==> q == p && p.free == [] && p.lru == [])
      && (f.Some? ==>
          && q.nextPageId == p.nextPageId + 1
          && p.nextPageId in q.table && q.table[p.nextPageId] == f.value
          && q.frames[f.value] == Frame(p.nextPageId, 1, false, ZeroPage()))
  {
    ReplacementFacts(p, p.nextPageId, ZeroPage());
    hide IndexedBy, Replacement;
    var (q, f) := Replacement(p, p.nextPageId, ZeroPage());
    if f.Some? {
      ReplacedCoherent(p, q, f.value, p.nextPageId, ZeroPage());
      ReplacedSameStore(p, q, f.value, p.nextPageId, ZeroPage());
      SameStoreNext(p, q);
    }
  }

  lemma SameStoreNext(p: Pool, q: Pool)
    requires Inv(q) && Shaped(p) && SameStore(p, q)
    ensures Inv(q.(nextPageId := p.nextPageId + 1)) && SameStore(p, q.(nextPageId := p.nextPageId + 1))
  {
    var q' := q.(nextPageId := p.nextPageId + 1);
    assert forall k :: Stored(q', k) <==> Stored(q, k);
  }

  lemma UnpinFacts(p: Pool, id: int, dirty: bool)
    requires Consistent(p) && id in p.table && p.frames[p.table[id]].pins > 0
    ensures var q := Unpin(p, id, dirty).0; var f := p.table[id];
      && Unpin(p, id, dirty).1
      && Touched(p, q, f, p.frames[f].(dirty := dirty || p.frames[f].dirty, pins := p.frames[f].pins - 1))
      && q.pos.Keys == p.pos.Keys + {f}
  {
    var f := p.table[id];
    UnpinFrameKeeps(p.(frames := p.frames[f :=
      p.frames[f].(dirty := dirty || p.frames[f].dirty, pins := p.frames[f].pins - 1)]), f);
    hide IndexedBy, Mapped, UnpinFrame;
  }

  lemma UnpinKeeps(p: Pool, id: int, dirty: bool)
    requires Consistent(p)
    ensures var (q, ok) := Unpin(p, id, dirty);
      && (ok <==> id in p.table && p.frames[p.table[id]].pins > 0)
      && (!ok ==> q == p)
      && Consistent(q) && q.table == p.table && q.disk == p.disk && q.nextPageId == p.nextPageId
      && (ok ==> q.pos.Keys == p.pos.Keys + {p.table[id]})
      && (ok ==>
            var g := p.frames[p.table[id]];
            q.frames == p.frames[p.table[id] := g.(dirty := dirty || g.dirty, pins := g.pins - 1)])
      && q.lru == (if ok && p.table[id] !in p.pos then p.lru + [LruNode(p.nextHandle, p.table[id])] else p.lru)
  {
    if id in p.table && p.frames[p.table[id]].pins > 0 {
      var f := p.table[id];
      UnpinFacts(p, id, dirty);
      hide Unpin, IndexedBy;
      TouchedConsistent(p, Unpin(p, id, dirty).0, f,
        p.frames[f].(dirty := dirty || p.frames[f].dirty, pins := p.frames[f].pins - 1));
      hide Mapped;
    }
  }

  /**
   Unpinning puts the frame on the LRU list however many pins are left, so the list stays
   exact if and only if that was the only pin; and the cache stays coherent if and only if
   a page whose bytes now differ from the disk's is marked dirty.
   */
  lemma UnpinExact(p: Pool, id: int, dirty: bool)
    requires Consistent(p) && id in p.table && p.frames[p.table[id]].pins > 0
    ensures var q := Unpin(p, id, dirty).0;
      && Consistent(q)
      && (LruExact(p) ==> (LruExact(q) <==> p.frames[p.table[id]].pins == 1))
      && (Coherent(p) && p.frames[p.table[id]].pins == 1 ==>
           (Coherent(q) <==>
             dirty || p.frames[p.table[id]].dirty || id !in p.disk || p.frames[p.table[id]].data == p.disk[id]))
  {
    hide IndexedBy, Unpin;
    UnpinKeeps(p, id, dirty);
    var q := Unpin(p, id, dirty).0;
    var f := p.table[id];
    assert f in q.pos;
    assert q.table[id] == f;
    assert forall k | k in p.table && k != id :: p.table[k] != f;
  }

  /**
   Two pins, one unpin: when every other frame is pinned, the next miss takes the frame from
   under the pin that is left, and that pin can no longer be given back.
   */
  lemma PinnedPageEvicted(p: Pool, id: int, dirty: bool, other: int, read: PageBytes)
    requires Inv(p) && id in p.table && p.frames[p.table[id]].pins >= 2
    requires p.free == [] && p.lru == [] && other !in p.table && other >= 0
    ensures var u := Unpin(p, id, dirty).0; var f := p.table[id];
      && Shaped(u) && id in u.table && u.table[id] == f && u.frames[f].pins >= 1
      && var (q, g) := Fetch(u, other, read);
      && g == Some(f) && Shaped(q) && q.frames[f].pageId == other && q.frames[f].data == read
      && id !in q.table && forall d :: Unpin(q, id, d) == (q, false)
  {
    UnpinKeeps(p, id, dirty);
    hide Mapped;
    assert forall n: LruNode :: n !in p.lru;
    assert p.table[id] !in p.pos;
    assert p.frames[p.table[id]].pageId == id;
    hide IndexedBy, Coherent, LruExact;
  }

  /** A new pool with a single frame. */
  function OneFramePool(): Pool {
    Pool([Frame(INVALID_PAGE_ID, 0, false, ZeroPage())], map[], [0], [], map[], 0, 0, map[])
  }

  /** That pool when its frame holds page 0. */
  function HoldingPage0(pins: nat): Pool {
    Pool([Frame(0, pins, false, ZeroPage())], map[0 := 0], [], [], map[], 0, 0, map[])
  }

  lemma OneFrameFetched()
    ensures Inv(OneFramePool()) && Fetch(OneFramePool(), 0, ZeroPage()) == (HoldingPage0(1), Some(0))
  {
    hide ZeroPage;
    var p := OneFramePool();
    assert p.free[1..] == [] && map[][0 as int := 0 as nat] == map[0 := 0];
    assert [Frame(INVALID_PAGE_ID, 0, false, ZeroPage())][0 := Frame(0, 1, false, ZeroPage())] ==
      [Frame(0, 1, false, ZeroPage())];
  }

  lemma FetchedAgain(pins: nat)
    requires pins > 0
    ensures Inv(HoldingPage0(pins)) && Fetch(HoldingPage0(pins), 0, ZeroPage()) == (HoldingPage0(pins + 1), Some(0))
  {
    hide ZeroPage;
    assert [Frame(0, pins, false, ZeroPage())][0 := Frame(0, pins + 1, false, ZeroPage())] ==
      [Frame(0, pins + 1, false, ZeroPage())];
  }

  /** Such a run in full: page 0 fetched twice and unpinned once, the fetch of page 1 takes its frame. */
  lemma TwoPinsRun()
    ensures Inv(OneFramePool()) && Fetch(OneFramePool(), 0, ZeroPage()) == (HoldingPage0(1), Some(0))
    ensures Inv(HoldingPage0(1)) && Fetch(HoldingPage0(1), 0, ZeroPage()) == (HoldingPage0(2), Some(0))
    ensures Inv(HoldingPage0(2))
    ensures var u := Unpin(HoldingPage0(2), 0, false).0;
      && Shaped(u) && 0 in u.table && u.table[0] == 0 && u.frames[0].pins == 1
      && var (q, f) := Fetch(u, 1, ZeroPage());
      && f == Some(0) && q.frames[0].pageId == 1 && 0 !in q.table
  {
    OneFrameFetched();
    FetchedAgain(1);
    FetchedAgain(2);
    var p := HoldingPage0(2);
    assert p.frames[0].pins == 2 && p.free == [] && p.lru == [] && p.table == map[0 := 0];
    UnpinKeeps(p, 0, false);
    PinnedPageEvicted(p, 0, false, 1, ZeroPage());
    hide *;
  }

  lemma UnpinStore(p: Pool, id: int, dirty: bool)
    requires Consistent(p)
    ensures var q := Unpin(p, id, dirty).0;
      && Shaped(q)
      && (forall k :: Stored(q, k) <==> Stored(p, k) || (k == id && dirty && Unpin(p, id, dirty).1))
      && (forall k | Stored(p, k) :: ContentOf(q, k) == ContentOf(p, k))
      && (Stored(q, id) && id in p.table ==> ContentOf(q, id) == p.frames[p.table[id]].data)
  {
    UnpinKeeps(p, id, dirty);
    hide IndexedBy, Unpin;
  }

  lemma FlushKeeps(p: Pool, id: int)
    requires Inv(p)
    ensures var (q, ok) := Flush(p, id);
      && Inv(q) && SameStore(p, q)
      && q.table == p.table && q.nextPageId == p.nextPageId
      && (ok <==> id in p.table)
      && (ok ==> !q.frames[q.table[id]].dirty)
      && (ok && !p.frames[p.table[id]].dirty ==> q == p)
      && q.disk == (if ok && p.frames[p.table[id]].dirty then p.disk[id := p.frames[p.table[id]].data] else p.disk)
  {
    hide IndexedBy;
  }

  lemma FlushSetFacts(p: Pool, ids: set<int>)
    requires Consistent(p)
    ensures var q := FlushSet(p, ids);
      && Consistent(q)
      && (forall f | 0 <= f < |p.frames| ::
            q.frames[f] == if p.frames[f].pageId in ids && p.frames[f].pageId != INVALID_PAGE_ID
              then p.frames[f].(dirty := false) else p.frames[f])
      && (forall k | k in p.disk && !(k in ids && k in p.table && p.frames[p.table[k]].dirty) ::
            k in q.disk && q.disk[k] == p.disk[k])
      && (forall k | k in ids && k in p.table && p.frames[p.table[k]].dirty ::
            k in q.disk && q.disk[k] == p.frames[p.table[k]].data)
      && (forall k | k in q.disk :: k in p.disk || (k in ids && k in p.table && p.frames[p.table[k]].dirty))
  {
    hide IndexedBy;
    var q := FlushSet(p, ids);
    assert Shaped(q);
    forall f | 0 <= f < |p.frames|
      ensures q.frames[f] == if p.frames[f].pageId in ids && p.frames[f].pageId != INVALID_PAGE_ID
        then p.frames[f].(dirty := false) else p.frames[f]
    {
    }
  }

  lemma FlushSetKeeps(p: Pool, ids: set<int>)
    requires Inv(p)
    ensures var q := FlushSet(p, ids);
      && Inv(q) && SameStore(p, q)
      && q.table == p.table && q.nextPageId == p.nextPageId
      && (p.table.Keys <= ids && Unpinned(p) ==> forall k | Stored(q, k) :: k in q.disk && q.disk[k] == ContentOf(q, k))
  {
    FlushSetFacts(p, ids);
    hide IndexedBy, FlushSet;
  }

  lemma DeleteStores(p: Pool, id: int)
    requires Inv(p)
    ensures Shaped(Delete(p, id).0) && SameStore(p, Delete(p, id).0)
  {
    hide IndexedBy;
    if id in p.table {
      var f := p.table[id];
      assert forall k | k in p.table && k != id :: p.table[k] != f;
    }
  }

  lemma DeleteKeeps(p: Pool, id: int)
    requires Inv(p)
    ensures var (q, ok) := Delete(p, id);
      && Inv(q) && SameStore(p, q) && q.nextPageId == p.nextPageId
      && (ok <==> id in p.table && p.frames[p.table[id]].pins == 0)
      && q.table == (if ok then p.table - {id} else p.table)
      && q.free == (if ok then p.free + [p.table[id]] else p.free)
      && q.disk == (if ok && p.frames[p.table[id]].dirty then p.disk[id := p.frames[p.table[id]].data] else p.disk)
  {
    hide IndexedBy, SameStore;
    DeleteStores(p, id);
    if id in p.table {
      var f := p.table[id];
      assert forall k | k in p.table && k != id :: p.table[k] != f;
    }
  }

  lemma WriteKeeps(p: Pool, id: int, data: PageBytes)
    requires Inv(p) && id in p.table && p.frames[p.table[id]].pins > 0
    ensures var q := Write(p, id, data);
      && Inv(q)
      && (forall k :: Stored(q, k) <==> Stored(p, k))
      && (forall k | Stored(p, k) :: ContentOf(q, k) == if k == id then data else ContentOf(p, k))
  {
    hide IndexedBy;
  }
}
