/**
 How the record manager uses the pool: fetch or allocate one page, work on its bytes, and
 unpin it. A session starts and ends with nothing pinned, never fails to get its frame, and
 changes the stored bytes of that one page only.
 */
module PageSessions {
  import opened PageLayout
  import opened BufferPool

  ghost predicate Idle(p: Pool) {
    && Inv(p) && Unpinned(p) && p.frames != []
    && (forall id | id in p.table :: 0 <= id < p.nextPageId)
    && (forall id | id in p.disk :: 0 <= id < p.nextPageId)
  }

  lemma HasFrame(p: Pool)
    requires Inv(p) && Unpinned(p) && p.frames != []
    ensures p.free != [] || p.lru != []
  {
    if p.free == [] {
      assert p.frames[0].pageId != INVALID_PAGE_ID;
      assert LruNode(p.pos[0], 0) in p.lru;
    }
  }

  /** With nothing pinned, a fetch and an allocation always get a frame. */
  lemma NeverNull(p: Pool, id: int, read: PageBytes)
    requires Inv(p) && Unpinned(p) && p.frames != []
    ensures Fetch(p, id, read).1.Some? && New(p).1.Some?
  {
    HasFrame(p);
  }

  /** Page `id` is the one pinned page, `data` in its frame. */
  ghost predicate InSession(p: Pool, id: int, data: PageBytes) {
    && Inv(p) && p.frames != []
    && id in p.table && p.frames[p.table[id]].pins == 1 && p.frames[p.table[id]].data == data
    && (forall g | 0 <= g < |p.frames| && g != p.table[id] :: p.frames[g].pins == 0)
    && (forall k | k in p.table :: 0 <= k < p.nextPageId)
    && (forall k | k in p.disk :: 0 <= k < p.nextPageId)
  }

  /** Were it unpinned clean now, the page would lose nothing. */
  ghost predicate Unchanged(p: Pool, id: int, data: PageBytes)
    requires Shaped(p) && id in p.table
  {
    p.frames[p.table[id]].dirty || id !in p.disk || data == p.disk[id]
  }

  lemma HitOpens(p: Pool, id: int, read: PageBytes)
    requires Idle(p) && id in p.table
    ensures var q := Fetch(p, id, read).0;
      && Inv(q) && SameStore(p, q) && q.nextPageId == p.nextPageId
      && InSession(q, id, q.frames[q.table[id]].data) && q.table[id] == p.table[id]
      && Unchanged(q, id, q.frames[q.table[id]].data)
      && (Stored(p, id) ==> q.frames[q.table[id]].data == ContentOf(p, id))
  {
    FetchHitFacts(p, id, read);
    FetchHit(p, id, read);
    hide Fetch, IndexedBy, LruExact, SameStore, Mapped;
  }

  lemma MissOpens(p: Pool, id: int, read: PageBytes)
    requires Idle(p) && id !in p.table && 0 <= id < p.nextPageId
    requires id in p.disk ==> read == p.disk[id]
    ensures var (q, f) := Fetch(p, id, read);
      f.Some? ==>
        && Inv(q) && SameStore(p, q) && q.nextPageId == p.nextPageId
        && InSession(q, id, read) && q.table[id] == f.value
        && Unchanged(q, id, read)
  {
    hide Replacement, IndexedBy, LruExact, SameStore, Coherent;
    ReplacementFacts(p, id, read);
    FetchMiss(p, id, read);
    DiskKept(p, id, read);
    hide Mapped;
  }

  lemma SessionStarts(p: Pool, id: int, read: PageBytes)
    requires Idle(p) && Stored(p, id) && 0 <= id < p.nextPageId
    requires id !in p.table && id in p.disk ==> read == p.disk[id]
    ensures var (q, f) := Fetch(p, id, read);
      && f.Some? && q.nextPageId == p.nextPageId
      && InSession(q, id, ContentOf(p, id)) && f.value == q.table[id]
      && SameStore(p, q)
      && Unchanged(q, id, ContentOf(p, id))
  {
    NeverNull(p, id, read);
    if id in p.table {
      FetchHitFacts(p, id, read);
      HitOpens(p, id, read);
      hide Fetch, InSession, Inv, SameStore, Unchanged, Touched;
    } else {
      MissOpens(p, id, read);
      hide Fetch, InSession, Inv, SameStore, Unchanged;
    }
  }

  lemma NewIds(p: Pool)
    requires Idle(p) && p.nextPageId >= 0
    ensures var (q, f) := New(p);
      && |q.frames| == |p.frames|
      && (f.Some? ==>
            && (forall k | k in q.table :: 0 <= k < q.nextPageId)
            && (forall k | k in q.disk :: 0 <= k < p.nextPageId)
            && (forall g | 0 <= g < |q.frames| && g != f.value :: q.frames[g].pins == 0))
  {
    ReplacementFacts(p, p.nextPageId, ZeroPage());
    hide Replacement, IndexedBy;
  }

  lemma NewSessionStarts(p: Pool)
    requires Idle(p) && p.nextPageId >= 0
    ensures var (q, f) := New(p); var id := p.nextPageId;
      && f.Some? && q.nextPageId == id + 1
      && InSession(q, id, ZeroPage()) && f.value == q.table[id]
      && SameStore(p, q)
      && id !in q.disk && !Stored(q, id)
  {
    HasFrame(p);
    NewKeeps(p);
    NewIds(p);
    hide New, LruExact, Coherent, Mapped, IndexedBy, SameStore;
  }

  lemma SessionWrites(p: Pool, id: int, before: PageBytes, data: PageBytes)
    requires InSession(p, id, before)
    ensures var q := Write(p, id, data);
      && InSession(q, id, data) && q.nextPageId == p.nextPageId
      && q.disk == p.disk && q.table == p.table
      && (forall k :: Stored(q, k) <==> Stored(p, k))
      && (forall k | Stored(p, k) :: ContentOf(q, k) == if k == id then data else ContentOf(p, k))
      && (Unchanged(q, id, data) <==> Unchanged(p, id, data))
  {
    WriteKeeps(p, id, data);
    hide LruExact, Coherent, IndexedBy;
  }

  lemma SessionEnds(p: Pool, id: int, data: PageBytes, dirty: bool)
    requires InSession(p, id, data) && (dirty || Unchanged(p, id, data))
    ensures var (q, ok) := Unpin(p, id, dirty);
      && ok && Idle(q) && q.nextPageId == p.nextPageId
      && (forall k :: Stored(q, k) <==> Stored(p, k) || (dirty && k == id))
      && (forall k | Stored(p, k) :: ContentOf(q, k) == ContentOf(p, k))
      && (dirty ==> ContentOf(q, id) == data)
  {
    UnpinKeeps(p, id, dirty);
    UnpinExact(p, id, dirty);
    UnpinStore(p, id, dirty);
    hide Unpin, LruExact, Coherent, Mapped, IndexedBy, Stored, ContentOf;
  }
}
