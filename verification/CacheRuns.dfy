/** Whole runs of buffer-pool calls by clients that hold at most one pin per page. */
module CacheRuns {
  import opened PageLayout
  import opened BufferPool

  datatype Op =
    | FetchOp(id: int, read: PageBytes)
    | NewOp
    | WriteOp(id: int, data: PageBytes)
    | UnpinOp(id: int, dirty: bool)
    | FlushOp(id: int)
    | FlushAllOp
    | DeleteOp(id: int)

  ghost predicate Pinned(p: Pool, id: int)
    requires Shaped(p)
  {
    id in p.table && p.frames[p.table[id]].pins > 0
  }

  ghost predicate OnePinEach(p: Pool) {
    forall f | 0 <= f < |p.frames| :: p.frames[f].pins <= 1
  }

  ghost predicate Disciplined(p: Pool) {
    Inv(p) && OnePinEach(p)
  }

  /**
   What a client may do next: fetch a page it does not hold, write only to a page it holds,
   and unpin as dirty what it has changed. The disk delivers what was last written to it.
   */
  ghost predicate Legal(p: Pool, op: Op)
    requires Shaped(p)
  {
    match op
    case FetchOp(id, read) => id >= 0 && !Pinned(p, id) && (id !in p.table && id in p.disk ==> read == p.disk[id])
    case NewOp => p.nextPageId >= 0 && p.nextPageId !in p.table && p.nextPageId !in p.disk
    case WriteOp(id, _) => Pinned(p, id)
    case UnpinOp(id, dirty) =>
      Pinned(p, id) ==>
        dirty || p.frames[p.table[id]].dirty || id !in p.disk || p.frames[p.table[id]].data == p.disk[id]
    case FlushOp(_) => true
    case FlushAllOp => true
    case DeleteOp(_) => true
  }

  ghost function Step(p: Pool, op: Op): Pool
    requires Shaped(p) && Legal(p, op)
  {
    match op
    case FetchOp(id, read) => Fetch(p, id, read).0
    case NewOp => New(p).0
    case WriteOp(id, data) => Write(p, id, data)
    case UnpinOp(id, dirty) => Unpin(p, id, dirty).0
    case FlushOp(id) => Flush(p, id).0
    case FlushAllOp => FlushSet(p, p.table.Keys)
    case DeleteOp(id) => Delete(p, id).0
  }

  lemma FetchPins(p: Pool, id: int, read: PageBytes)
    requires Disciplined(p) && Legal(p, FetchOp(id, read))
    ensures var q := Fetch(p, id, read).0;
      && OnePinEach(q) && |q.frames| == |p.frames|
      && forall k | Pinned(p, k) ::
           k in q.table && q.table[k] == p.table[k] && q.frames[p.table[k]] == p.frames[p.table[k]]
  {
    if id in p.table {
      FetchHitFacts(p, id, read);
      hide Fetch, IndexedBy;
    } else {
      ReplacementFacts(p, id, read);
      hide Replacement, IndexedBy;
      var (q, f) := Fetch(p, id, read);
      if f.Some? { ReplacedKeepsPinned(p, q, f.value, id, read); }
    }
  }

  lemma NewPins(p: Pool)
    requires Disciplined(p) && Legal(p, NewOp)
    ensures var q := New(p).0;
      && OnePinEach(q) && |q.frames| == |p.frames|
      && forall k | Pinned(p, k) ::
           k in q.table && q.table[k] == p.table[k] && q.frames[p.table[k]] == p.frames[p.table[k]]
  {
    ReplacementFacts(p, p.nextPageId, ZeroPage());
    hide Replacement, IndexedBy;
    var (q, f) := Replacement(p, p.nextPageId, ZeroPage());
    if f.Some? { ReplacedKeepsPinned(p, q, f.value, p.nextPageId, ZeroPage()); }
  }

  /** A pinned page stays in its frame, with its bytes, until it is written or unpinned. */
  ghost predicate KeepsPinned(p: Pool, op: Op, q: Pool)
    requires Shaped(p) && Shaped(q)
  {
    forall k | Pinned(p, k) ::
      && k in q.table && q.table[k] == p.table[k]
      && (!(op.UnpinOp? && op.id == k) ==> Pinned(q, k))
      && q.frames[q.table[k]].data == if op.WriteOp? && op.id == k then op.data else p.frames[p.table[k]].data
  }

  /** The stored pages keep their bytes, but for the one written. */
  ghost predicate KeepsStored(p: Pool, op: Op, q: Pool)
    requires Shaped(p) && Shaped(q)
  {
    forall k | Stored(p, k) ::
      Stored(q, k) && ContentOf(q, k) == if op.WriteOp? && op.id == k then op.data else ContentOf(p, k)
  }

  lemma StepKeeps(p: Pool, op: Op)
    requires Disciplined(p) && Legal(p, op)
    ensures var q := Step(p, op);
      Disciplined(q) && KeepsPinned(p, op, q) && KeepsStored(p, op, q)
  {
    hide IndexedBy, Coherent, Mapped, LruExact;
    match op {
      case FetchOp(id, read) => FetchPins(p, id, read); FetchKeeps(p, id, read); hide Fetch;
      case NewOp => NewPins(p); NewKeeps(p); hide New;
      case WriteOp(id, data) => WriteStep(p, id, data);
      case UnpinOp(id, dirty) => UnpinStep(p, id, dirty);
      case FlushOp(id) => FlushKeeps(p, id);
      case FlushAllOp => FlushSetKeeps(p, p.table.Keys); FlushSetFacts(p, p.table.Keys); hide FlushSet;
      case DeleteOp(id) => DeleteStep(p, id);
    }
  }

  lemma WriteStep(p: Pool, id: int, data: PageBytes)
    requires Disciplined(p) && Legal(p, WriteOp(id, data))
    ensures var q := Write(p, id, data);
      Disciplined(q) && KeepsPinned(p, WriteOp(id, data), q) && KeepsStored(p, WriteOp(id, data), q)
  {
    WriteKeeps(p, id, data);
    hide IndexedBy, Coherent, LruExact;
  }

  lemma UnpinStep(p: Pool, id: int, dirty: bool)
    requires Disciplined(p) && Legal(p, UnpinOp(id, dirty))
    ensures var q := Unpin(p, id, dirty).0;
      Disciplined(q) && KeepsPinned(p, UnpinOp(id, dirty), q) && KeepsStored(p, UnpinOp(id, dirty), q)
  {
    UnpinKeeps(p, id, dirty);
    UnpinStore(p, id, dirty);
    if Pinned(p, id) { UnpinExact(p, id, dirty); }
    hide IndexedBy, Unpin;
    assert forall k | k in p.table && k != id :: id in p.table ==> p.table[k] != p.table[id];
    hide Coherent, LruExact;
  }

  lemma DeleteStep(p: Pool, id: int)
    requires Disciplined(p)
    ensures var q := Delete(p, id).0;
      Disciplined(q) && KeepsPinned(p, DeleteOp(id), q) && KeepsStored(p, DeleteOp(id), q)
  {
    DeleteKeeps(p, id);
    assert forall k | k in p.table && k != id :: id in p.table ==> p.table[k] != p.table[id];
    hide IndexedBy, Coherent, LruExact;
  }

  // ---- runs ----

  ghost predicate LegalRun(p: Pool, ops: seq<Op>)
    requires Disciplined(p)
    decreases |ops|
  {
    ops == [] ||
    (Legal(p, ops[0]) && (StepKeeps(p, ops[0]); LegalRun(Step(p, ops[0]), ops[1..])))
  }

  ghost function Run(p: Pool, ops: seq<Op>): Pool
    requires Disciplined(p) && LegalRun(p, ops)
    decreases |ops|
  {
    if ops == [] then p
    else
      StepKeeps(p, ops[0]);
      Run(Step(p, ops[0]), ops[1..])
  }

  /** The bytes most recently written to page `id`, or `initial` if it never was. */
  ghost function LastWritten(ops: seq<Op>, id: int, initial: PageBytes): PageBytes {
    if ops == [] then initial
    else LastWritten(ops[1..], id, if ops[0].WriteOp? && ops[0].id == id then ops[0].data else initial)
  }

  /**
   The pool is transparent: after any run, whatever was fetched, evicted, flushed, deleted
   or reloaded in it, a stored page holds the bytes last written to it.
   */
  lemma {:induction false} ReadYourWrites(p: Pool, ops: seq<Op>, id: int)
    requires Disciplined(p) && LegalRun(p, ops) && Stored(p, id)
    ensures var q := Run(p, ops);
      Disciplined(q) && Stored(q, id) && ContentOf(q, id) == LastWritten(ops, id, ContentOf(p, id))
    decreases |ops|
  {
    hide Step, Legal, Stored, ContentOf, OnePinEach;
    if ops != [] {
      StepKeeps(p, ops[0]);
      ReadYourWrites(Step(p, ops[0]), ops[1..], id);
    }
  }

  /** A fetch at the end of the run hands out a frame with those bytes. */
  lemma FetchAfterRun(p: Pool, ops: seq<Op>, id: int, read: PageBytes)
    requires Disciplined(p) && LegalRun(p, ops) && Stored(p, id)
    requires Disciplined(Run(p, ops)) && Legal(Run(p, ops), FetchOp(id, read))
    ensures var (q, f) := Fetch(Run(p, ops), id, read);
      && (f.None? ==> forall g | 0 <= g < |q.frames| :: q.frames[g].pins == 1)
      && (f.Some? ==> f.value < |q.frames| && q.frames[f.value].data == LastWritten(ops, id, ContentOf(p, id)))
  {
    ReadYourWrites(p, ops, id);
    FetchKeeps(Run(p, ops), id, read);
    var r := Run(p, ops);
    hide Run, LastWritten, Fetch, LegalRun;
    if r.free == [] && r.lru == [] { AllPinned(r); }
  }

  lemma AllPinned(p: Pool)
    requires Disciplined(p) && p.free == [] && p.lru == []
    ensures forall f | 0 <= f < |p.frames| :: p.frames[f].pins == 1
  {
  }

  // ---- frames while there are free ones ----

  /** The operation needs a frame. */
  ghost predicate BringsIn(p: Pool, op: Op) {
    op.NewOp? || (op.FetchOp? && op.id !in p.table)
  }

  ghost function Brought(p: Pool, op: Op): int
    requires BringsIn(p, op)
  {
    if op.FetchOp? then op.id else p.nextPageId
  }

  /** Every page but this one stays in its frame. */
  ghost predicate StaysPut(p: Pool, q: Pool, but: int) {
    forall k | k in p.table && k != but :: k in q.table && q.table[k] == p.table[k]
  }

  /** A page gives way only if no frame is free: until then each page brought in takes the next free frame. */
  lemma FreeFrameFirst(p: Pool, op: Op)
    requires Disciplined(p) && Legal(p, op) && BringsIn(p, op) && p.free != []
    ensures var q := Step(p, op);
      && q.table == p.table[Brought(p, op) := p.free[0]] && q.free == p.free[1..] && q.disk == p.disk
      && StaysPut(p, q, INVALID_PAGE_ID) && forall k | k in p.table :: p.table[k] != p.free[0]
  {
    if op.FetchOp? {
      FetchTakesFree(p, op.id, op.read);
      hide Fetch;
    } else {
      NewTakesFree(p);
      hide New;
    }
  }

  /** The other operations evict nothing either, and take no free frame. */
  lemma OthersStayPut(p: Pool, op: Op)
    requires Disciplined(p) && Legal(p, op) && !BringsIn(p, op)
    ensures var q := Step(p, op);
      && |q.free| >= |p.free| && StaysPut(p, q, if op.DeleteOp? then op.id else INVALID_PAGE_ID)
      && (!op.FlushOp? && !op.FlushAllOp? && !op.DeleteOp? ==> q.disk == p.disk)
  {
    hide IndexedBy, Coherent, LruExact, Mapped;
    match op
    case FetchOp(id, read) => FetchHitFacts(p, id, read); hide Fetch;
    case UnpinOp(id, dirty) =>
    case WriteOp(_, _) =>
    case FlushOp(_) =>
    case FlushAllOp =>
    case DeleteOp(_) =>
  }

  /** How many frames a run asks for. */
  ghost function Demand(p: Pool, ops: seq<Op>): nat
    requires Disciplined(p) && LegalRun(p, ops)
    decreases |ops|
  {
    if ops == [] then 0
    else
      StepKeeps(p, ops[0]);
      (if BringsIn(p, ops[0]) then 1 else 0) + Demand(Step(p, ops[0]), ops[1..])
  }

  /**
   A run that asks for no more frames than are free evicts nothing: a page in the pool is in the same frame after it,
   unless the run deletes it, and without a flush or a deletion nothing is written to the disk.
   */
  lemma {:induction false} NothingGivesWay(p: Pool, ops: seq<Op>, id: int)
    requires Disciplined(p) && LegalRun(p, ops) && Demand(p, ops) <= |p.free|
    requires id in p.table && DeleteOp(id) !in ops
    ensures id in Run(p, ops).table && Run(p, ops).table[id] == p.table[id]
    ensures (forall i | 0 <= i < |ops| :: !ops[i].FlushOp? && !ops[i].FlushAllOp? && !ops[i].DeleteOp?) ==>
      Run(p, ops).disk == p.disk
    decreases |ops|
  {
    hide Step, Legal, OnePinEach, Mapped, IndexedBy, LruExact, Coherent, BringsIn, Brought;
    if ops != [] {
      StepKeeps(p, ops[0]);
      NeedsFrame(p, ops[0], id);
      assert forall i | 0 <= i < |ops| - 1 :: ops[1..][i] == ops[i + 1];
      assert ops[0] in ops;
      NothingGivesWay(Step(p, ops[0]), ops[1..], id);
    }
  }

  lemma NeedsFrame(p: Pool, op: Op, id: int)
    requires Disciplined(p) && Legal(p, op) && (BringsIn(p, op) ==> p.free != [])
    requires id in p.table && op != DeleteOp(id)
    ensures var q := Step(p, op);
      && id in q.table && q.table[id] == p.table[id]
      && |q.free| >= (if BringsIn(p, op) then |p.free| - 1 else |p.free|)
      && (!op.FlushOp? && !op.FlushAllOp? && !op.DeleteOp? ==> q.disk == p.disk)
  {
    assert id != INVALID_PAGE_ID;
    hide Step, Legal, Inv, BringsIn, Brought;
    if BringsIn(p, op) { FreeFrameFirst(p, op); } else { OthersStayPut(p, op); }
  }
}
