/** Which page a replacement evicts, over whole runs of clients with one pin per page. */
module LruRuns {
  import opened PageLayout
  import opened BufferPool
  import opened CacheRuns

  /** The page is in a frame, and nobody holds it. */
  ghost predicate Evictable(p: Pool, id: int)
    requires Shaped(p)
  {
    id in p.table && p.frames[p.table[id]].pins == 0
  }

  /** When each page was last unpinned: the times of the successful unpins of a run from time `now` on. */
  ghost function UnpinTimes(p: Pool, ops: seq<Op>, t: map<int, nat>, now: nat): map<int, nat>
    requires Disciplined(p) && LegalRun(p, ops)
    decreases |ops|
  {
    if ops == [] then t
    else
      StepKeeps(p, ops[0]);
      UnpinTimes(Step(p, ops[0]), ops[1..], Timed(p, ops[0], t, now), now + 1)
  }

  ghost function Timed(p: Pool, op: Op, t: map<int, nat>, now: nat): map<int, nat>
    requires Shaped(p)
  {
    if op.UnpinOp? && Pinned(p, op.id) then t[op.id := now] else t
  }

  /** The LRU positions of the evictable pages are in the order of their last unpins. */
  ghost predicate InUnpinOrder(p: Pool, t: map<int, nat>, now: nat)
    requires Shaped(p)
  {
    && (forall a | Evictable(p, a) :: p.table[a] in p.pos && a in t && t[a] < now)
    && (forall a, b | Evictable(p, a) && Evictable(p, b) && t[a] < t[b] :: p.pos[p.table[a]] < p.pos[p.table[b]])
    && (forall a, b | Evictable(p, a) && Evictable(p, b) && t[a] == t[b] :: a == b)
  }

  /** What an operation other than an unpin does to the evictable pages: some may go, the rest stay put. */
  ghost predicate NoneAdded(p: Pool, q: Pool)
    requires Shaped(p) && Shaped(q)
  {
    forall a | Evictable(q, a) ::
      && Evictable(p, a) && p.table[a] == q.table[a]
      && q.table[a] in p.pos && q.table[a] in q.pos && q.pos[q.table[a]] == p.pos[q.table[a]]
  }

  lemma FewerInOrder(p: Pool, q: Pool, t: map<int, nat>, now: nat)
    requires Shaped(p) && Shaped(q) && NoneAdded(p, q) && InUnpinOrder(p, t, now)
    ensures InUnpinOrder(q, t, now + 1)
  {
    hide Evictable;
  }

  lemma FetchAddsNone(p: Pool, id: int, read: PageBytes)
    requires Disciplined(p) && Legal(p, FetchOp(id, read))
    ensures var q := Fetch(p, id, read).0; Shaped(q) && NoneAdded(p, q)
  {
    FetchKeeps(p, id, read);
    if id in p.table {
      FetchHitFacts(p, id, read);
      hide Fetch, IndexedBy;
    } else {
      ReplacementFacts(p, id, read);
      hide Replacement, IndexedBy, Coherent, SameStore;
      var (q, f) := Fetch(p, id, read);
      if f.Some? { ReplacedAddsNone(p, q, f.value, id, read); }
    }
  }

  lemma ReplacedAddsNone(p: Pool, q: Pool, f: nat, id: int, data: PageBytes)
    requires Inv(p) && Inv(q) && Replaced(p, q, f, id, data)
    ensures NoneAdded(p, q)
  {
    hide IndexedBy, Coherent;
    assert forall a | a in q.table && a != id :: a in p.table && q.table[a] == p.table[a] && p.table[a] != f;
  }

  lemma NewAddsNone(p: Pool)
    requires Disciplined(p) && Legal(p, NewOp)
    ensures var q := New(p).0; Shaped(q) && NoneAdded(p, q)
  {
    NewKeeps(p);
    ReplacementFacts(p, p.nextPageId, ZeroPage());
    hide Replacement, IndexedBy, SameStore;
    var (q, f) := Replacement(p, p.nextPageId, ZeroPage());
    if f.Some? {
      ReplacedCoherent(p, q, f.value, p.nextPageId, ZeroPage());
      ReplacedAddsNone(p, q, f.value, p.nextPageId, ZeroPage());
    }
  }

  lemma UnpinPositions(p: Pool, id: int, dirty: bool)
    requires Disciplined(p) && Pinned(p, id)
    ensures var q := Unpin(p, id, dirty).0; var f := p.table[id];
      && Shaped(q) && q.table == p.table && f !in p.pos && q.pos == p.pos[f := p.nextHandle]
      && (forall a | Evictable(q, a) && a != id :: Evictable(p, a) && p.table[a] != f)
      && (forall g | g in p.pos :: p.pos[g] < p.nextHandle)
  {
    assert forall a | a in p.table && a != id :: p.table[a] != p.table[id];
    forall g | g in p.pos
      ensures p.pos[g] < p.nextHandle
    {
      assert LruNode(p.pos[g], g) in p.lru;
    }
    hide Coherent, Sorted;
  }

  /** A page unpinned now goes behind all others. */
  lemma UnpinGoesLast(p: Pool, id: int, dirty: bool, t: map<int, nat>, now: nat)
    requires Disciplined(p) && Pinned(p, id) && InUnpinOrder(p, t, now)
    ensures var q := Unpin(p, id, dirty).0; Shaped(q) && InUnpinOrder(q, t[id := now], now + 1)
  {
    hide Unpin, Inv, Evictable;
    UnpinPositions(p, id, dirty);
  }

  lemma StepAddsNone(p: Pool, op: Op)
    requires Disciplined(p) && Legal(p, op) && !(op.UnpinOp? && Pinned(p, op.id))
    ensures Shaped(Step(p, op)) && NoneAdded(p, Step(p, op))
  {
    hide IndexedBy, Coherent;
    match op
    case FetchOp(id, read) => FetchAddsNone(p, id, read); hide Fetch, NoneAdded;
    case NewOp => NewAddsNone(p); hide New, NoneAdded;
    case UnpinOp(_, _) =>
    case WriteOp(_, _) =>
    case FlushOp(_) =>
    case FlushAllOp => FlushSetFacts(p, p.table.Keys); hide FlushSet;
    case DeleteOp(_) =>
  }

  lemma StepInOrder(p: Pool, op: Op, t: map<int, nat>, now: nat)
    requires Disciplined(p) && Legal(p, op) && InUnpinOrder(p, t, now)
    ensures Shaped(Step(p, op)) && InUnpinOrder(Step(p, op), Timed(p, op, t, now), now + 1)
  {
    hide InUnpinOrder, NoneAdded, Unpin, Fetch, New, FlushSet, Delete, Flush, Write;
    if op.UnpinOp? && Pinned(p, op.id) {
      UnpinGoesLast(p, op.id, op.dirty, t, now);
    } else {
      StepAddsNone(p, op);
      FewerInOrder(p, Step(p, op), t, now);
    }
  }

  lemma {:induction false} RunInOrder(p: Pool, ops: seq<Op>, t: map<int, nat>, now: nat)
    requires Disciplined(p) && LegalRun(p, ops) && InUnpinOrder(p, t, now)
    ensures Disciplined(Run(p, ops)) && Shaped(Run(p, ops))
    ensures InUnpinOrder(Run(p, ops), UnpinTimes(p, ops, t, now), now + |ops|)
    decreases |ops|
  {
    hide Step, Legal, InUnpinOrder, Timed, OnePinEach, LruExact, Coherent;
    if ops != [] {
      StepKeeps(p, ops[0]);
      StepInOrder(p, ops[0], t, now);
      RunInOrder(Step(p, ops[0]), ops[1..], Timed(p, ops[0], t, now), now + 1);
    }
  }

  lemma VictimIsFirst(q: Pool, t: map<int, nat>, now: nat)
    requires Disciplined(q) && InUnpinOrder(q, t, now) && q.free == [] && q.lru != []
    ensures TakeFrame(q).1.Some?
    ensures var v := q.frames[TakeFrame(q).1.value].pageId;
      && Evictable(q, v) && q.table[v] == TakeFrame(q).1.value
      && forall u | Evictable(q, u) && u != v :: u in t && v in t && t[v] < t[u]
  {
    var f := q.lru[0].frame;
    assert q.lru[0] in q.lru;
    var v := q.frames[f].pageId;
    assert v != INVALID_PAGE_ID;
    forall u | Evictable(q, u) && u != v
      ensures u in t && v in t && t[v] < t[u]
    {
      assert LruNode(q.pos[q.table[u]], q.table[u]) in q.lru;
      assert q.pos[f] <= q.pos[q.table[u]];
    }
  }

  /**
   From an empty pool on, whatever was fetched, allocated, unpinned, flushed or deleted: when no
   frame is free, a fetch of a page that is not resident evicts the page that nobody holds and
   whose last unpin is the longest ago.
   */
  lemma EvictsLeastRecentlyUsed(p: Pool, ops: seq<Op>, id: int, read: PageBytes)
    requires Disciplined(p) && p.table == map[] && LegalRun(p, ops)
    requires Disciplined(Run(p, ops)) && id !in Run(p, ops).table && Run(p, ops).free == [] && Run(p, ops).lru != []
    ensures var q, t := Run(p, ops), UnpinTimes(p, ops, map[], 0);
      && Fetch(q, id, read).1.Some?
      && var v := q.frames[Fetch(q, id, read).1.value].pageId;
      && Evictable(q, v) && v !in Fetch(q, id, read).0.table
      && forall u | Evictable(q, u) && u != v :: u in t && v in t && t[v] < t[u]
  {
    RunInOrder(p, ops, map[], 0);
    VictimIsFirst(Run(p, ops), UnpinTimes(p, ops, map[], 0), |ops|);
    ReplacementFacts(Run(p, ops), id, read);
    hide Run, UnpinTimes, IndexedBy, LegalRun;
  }

  /** And so does an allocation. */
  lemma NewEvictsLeastRecentlyUsed(p: Pool, ops: seq<Op>)
    requires Disciplined(p) && p.table == map[] && LegalRun(p, ops)
    requires Disciplined(Run(p, ops)) && Run(p, ops).nextPageId !in Run(p, ops).table
    requires Run(p, ops).free == [] && Run(p, ops).lru != []
    ensures var q, t := Run(p, ops), UnpinTimes(p, ops, map[], 0);
      && New(q).1.Some?
      && var v := q.frames[New(q).1.value].pageId;
      && Evictable(q, v) && v !in New(q).0.table
      && forall u | Evictable(q, u) && u != v :: u in t && v in t && t[v] < t[u]
  {
    RunInOrder(p, ops, map[], 0);
    VictimIsFirst(Run(p, ops), UnpinTimes(p, ops, map[], 0), |ops|);
    var q := Run(p, ops);
    ReplacementFacts(q, q.nextPageId, ZeroPage());
    hide Run, UnpinTimes, IndexedBy, LegalRun;
  }
}
