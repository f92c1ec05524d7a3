// template class BatchAllocator (json_batchallocator.h).
module BatchAllocators {

  /** BatchInfo: a page of objects, of which those below used have been handed out once. */
  class Batch {
    var next: Batch?
    var used: nat
    const end: nat

    constructor (end: nat)
      ensures this.end == end && used == 0 && next == null
    {
      this.end := end;
      used := 0;
      next := null;
    }
  }

  /** A pointer to an object: a page and an offset, in objects, in its buffer. */
  datatype Ptr = NullPtr | To(batch: Batch, offset: nat)

  // ---------- blocks of a page ----------

  type Size = n: nat | n > 0 witness 1

  /** The offset of block k. */
  ghost function BlockStart(k: nat, size: Size): nat {
    if k == 0 then 0 else BlockStart(k - 1, size) + size
  }

  ghost predicate Divides(size: Size, n: nat) {
    exists k: nat :: BlockStart(k, size) == n
  }

  lemma {:induction false} BlocksInOrder(j: nat, k: nat, size: Size)
    requires j < k
    ensures BlockStart(j, size) + size <= BlockStart(k, size)
    decreases k
  {
    if j < k - 1 {
      BlocksInOrder(j, k - 1, size);
    }
  }

  /** Different multiples of the block size are at least one block apart. */
  lemma MultiplesApart(a: nat, b: nat, size: Size)
    requires Divides(size, a) && Divides(size, b) && a < b
    ensures a + size <= b
  {
    var j: nat :| BlockStart(j, size) == a;
    var k: nat :| BlockStart(k, size) == b;
    if j < k {
      BlocksInOrder(j, k, size);
    } else if k < j {
      BlocksInOrder(k, j, size);
    }
  }

  lemma NextMultiple(a: nat, size: Size)
    requires Divides(size, a)
    ensures Divides(size, a + size)
  {
    var j: nat :| BlockStart(j, size) == a;
    assert BlockStart(j + 1, size) == a + size;
  }

  /** Block k is carved from a page of that capacity: the fill mark has not met the end before. */
  ghost predicate Carved(size: Size, capacity: nat, k: nat) {
    forall j: nat :: j <= k ==> BlockStart(j, size) != capacity
  }

  /** The objects allocateBatch() makes room for: capacity blocks, although the end is set behind capacity
      objects. */
  ghost function Room(size: Size, capacity: nat): nat {
    BlockStart(capacity, size)
  }

  /** All blocks carved from a page lie inside its memory if and only if the block size divides the
      capacity, because the allocator tests the fill mark for equality with the end only. */
  lemma CarvedInsideIffDivides(size: Size, capacity: nat)
    ensures (forall k: nat :: Carved(size, capacity, k) ==> BlockStart(k, size) + size <= Room(size, capacity))
       <==> Divides(size, capacity)
  {
    if Divides(size, capacity) {
      var m: nat :| BlockStart(m, size) == capacity;
      BlocksGrow(capacity, size);
      forall k: nat | Carved(size, capacity, k) ensures BlockStart(k, size) + size <= Room(size, capacity) {
        assert k < m;
        BlocksInOrder(k, m, size);
      }
    } else {
      assert Carved(size, capacity, capacity);
    }
  }

  lemma {:induction false} BlocksGrow(k: nat, size: Size)
    ensures BlockStart(k, size) >= k
  {
    if k > 0 {
      BlocksGrow(k - 1, size);
    }
  }

  function PageAfter(pages: seq<Batch>, i: nat): Batch? {
    if i + 1 < |pages| then pages[i + 1] else null
  }

  function BlockAfter(blocks: seq<Ptr>, i: nat): Ptr {
    if i + 1 < |blocks| then blocks[i + 1] else NullPtr
  }

  /** The fill mark of every page. */
  ghost function Marks(pages: seq<Batch>): map<Batch, nat>
    reads pages
  {
    map b | b in pages :: b.used
  }

  /** The list of pages from its front on: every page but the first is full, and no page is
      overfull if the block size divides the page size. */
  ghost predicate PagesLinked(pages: seq<Batch>, size: Size, objectsPerPage: nat)
    reads pages
  {
    && objectsPerPage >= 16 && pages != []
    && (forall i, j :: 0 <= i < j < |pages| ==> pages[i] != pages[j])
    && (forall i :: 0 <= i < |pages| ==> pages[i].next == PageAfter(pages, i))
    && (forall i :: 1 <= i < |pages| ==> pages[i].used == pages[i].end)
    && (forall i :: 0 <= i < |pages| ==> Divides(size, pages[i].used))
    && (forall i :: 0 <= i < |pages| ==> pages[i].end == objectsPerPage || pages[i].end == pages[i].used == 0)
    && (Divides(size, objectsPerPage) ==> pages[0].used <= pages[0].end)
  }

  lemma MorePagesLinked(batch: Batch, pages: seq<Batch>, size: Size, objectsPerPage: nat)
    requires PagesLinked(pages, size, objectsPerPage) && pages[0].used == pages[0].end
    requires batch !in pages && batch.next == pages[0] && batch.used == 0 && batch.end == objectsPerPage
    ensures PagesLinked([batch] + pages, size, objectsPerPage)
  {
    assert BlockStart(0, size) == 0;
    var more := [batch] + pages;
    forall i | 1 <= i < |more|
      ensures more[i] == pages[i - 1] && more[i].next == PageAfter(more, i) && more[i].used == more[i].end
    {
      assert pages[i - 1].next == PageAfter(pages, i - 1);
    }
  }

  lemma MarksOfMore(batch: Batch, pages: seq<Batch>)
    requires batch !in pages
    ensures Marks([batch] + pages) == Marks(pages)[batch := batch.used] && batch !in Marks(pages)
  {
    assert forall b :: b in [batch] + pages <==> b == batch || b in pages;
  }

  /** A block of that size that has been handed out at least once. */
  ghost predicate IsBlock(p: Ptr, marks: map<Batch, nat>, size: Size) {
    p.To? && p.batch in marks && Divides(size, p.offset) && p.offset < marks[p.batch]
  }

  /** The free list runs through the released blocks once, in order. */
  ghost predicate ListsReleased(freeHead: Ptr, freed: seq<Ptr>, links: map<Ptr, Ptr>) {
    && freeHead == (if freed == [] then NullPtr else freed[0])
    && (forall i, j :: 0 <= i < j < |freed| ==> freed[i] != freed[j])
    && (forall i :: 0 <= i < |freed| ==> freed[i] in links && links[freed[i]] == BlockAfter(freed, i))
  }

  /** Every block handed out so far is live or released, and not both. */
  ghost predicate BlocksAccounted(marks: map<Batch, nat>, live: set<Ptr>, freed: seq<Ptr>, size: Size) {
    && (forall p :: p in live ==> IsBlock(p, marks, size))
    && (forall p :: p in freed ==> IsBlock(p, marks, size) && p !in live)
    && (forall b, k: nat :: b in marks && BlockStart(k, size) < marks[b] ==>
          To(b, BlockStart(k, size)) in live || To(b, BlockStart(k, size)) in freed)
  }

  lemma Popped(freeHead: Ptr, freed: seq<Ptr>, links: map<Ptr, Ptr>)
    requires ListsReleased(freeHead, freed, links) && freed != []
    ensures freeHead == freed[0] && freeHead in links && freeHead !in freed[1..]
    ensures ListsReleased(links[freeHead], freed[1..], links)
  {
    var rest := freed[1..];
    forall i | 0 <= i < |rest| ensures rest[i] in links && links[rest[i]] == BlockAfter(rest, i) {
      assert rest[i] == freed[i + 1] && BlockAfter(rest, i) == BlockAfter(freed, i + 1);
    }
  }

  lemma Pushed(freeHead: Ptr, freed: seq<Ptr>, links: map<Ptr, Ptr>, p: Ptr)
    requires ListsReleased(freeHead, freed, links) && p !in freed
    ensures ListsReleased(p, [p] + freed, links[p := freeHead])
  {
    var more, links' := [p] + freed, links[p := freeHead];
    forall i | 0 <= i < |more| ensures more[i] in links' && links'[more[i]] == BlockAfter(more, i) {
      if i > 0 {
        assert more[i] == freed[i - 1] && BlockAfter(more, i) == BlockAfter(freed, i - 1);
      }
    }
  }

  /** The block released last becomes live. */
  lemma Reused(marks: map<Batch, nat>, live: set<Ptr>, freed: seq<Ptr>, size: Size)
    requires BlocksAccounted(marks, live, freed, size) && freed != [] && freed[0] !in freed[1..]
    ensures freed[0].To? && freed[0] !in live
    ensures BlocksAccounted(marks, live + {freed[0]}, freed[1..], size)
  {
    assert freed[0] in freed;
    assert forall q :: q in freed <==> q == freed[0] || q in freed[1..];
    hide BlockStart, Divides;
  }

  /** A live block is released. */
  lemma Returned(marks: map<Batch, nat>, live: set<Ptr>, freed: seq<Ptr>, size: Size, p: Ptr)
    requires BlocksAccounted(marks, live, freed, size) && p in live
    ensures p !in freed
    ensures BlocksAccounted(marks, live - {p}, [p] + freed, size)
  {
    assert forall q :: q in [p] + freed <==> q == p || q in freed;
    hide BlockStart, Divides;
  }

  /** A page of which nothing is handed out yet changes nothing. */
  lemma PageAdded(marks: map<Batch, nat>, live: set<Ptr>, freed: seq<Ptr>, size: Size, batch: Batch)
    requires BlocksAccounted(marks, live, freed, size) && batch !in marks
    ensures BlocksAccounted(marks[batch := 0], live, freed, size)
  {
    hide BlockStart, Divides;
  }

  /** The block at the fill mark of a page is new. */
  lemma Carve(marks: map<Batch, nat>, live: set<Ptr>, freed: seq<Ptr>, size: Size, batch: Batch)
    requires BlocksAccounted(marks, live, freed, size) && batch in marks && Divides(size, marks[batch])
    ensures To(batch, marks[batch]) !in live
    ensures BlocksAccounted(marks[batch := marks[batch] + size], live + {To(batch, marks[batch])}, freed, size)
  {
    var mark := marks[batch];
    forall k: nat | BlockStart(k, size) < mark + size ensures BlockStart(k, size) <= mark {
      if mark < BlockStart(k, size) {
        MultiplesApart(mark, BlockStart(k, size), size);
      }
    }
    hide BlockStart, Divides;
  }

  class BatchAllocator {
    const objectPerAllocation: Size
    const objectsPerPage: nat
    var batches: Batch
    var currentBatch: Batch
    var freeHead: Ptr
    /** The list pointers stored in released objects. */
    var links: map<Ptr, Ptr>

    /** The pages in list order, the blocks the clients hold, and the released ones in list order. */
    ghost var pages: seq<Batch>
    ghost var live: set<Ptr>
    ghost var freed: seq<Ptr>

    ghost function Owned(): set<Batch>
      reads this`pages
    {
      set b | b in pages
    }

    ghost predicate ValidPages()
      reads this`pages, this`batches, this`currentBatch, pages
    {
      pages != [] && batches == currentBatch == pages[0] && PagesLinked(pages, objectPerAllocation, objectsPerPage)
    }

    ghost predicate Valid()
      reads this, pages
    {
      && ValidPages()
      && ListsReleased(freeHead, freed, links)
      && BlocksAccounted(Marks(pages), live, freed, objectPerAllocation)
    }

    constructor (objectPerAllocation: Size, objectsPerPage: nat)
      requires objectsPerPage >= 16
      ensures Valid() && fresh(pages) && live == {} && freed == []
      ensures this.objectPerAllocation == objectPerAllocation && this.objectsPerPage == objectsPerPage
      ensures currentBatch.used == currentBatch.end == 0
    {
      var dummy := new Batch(0);
      assert BlockStart(0, objectPerAllocation) == 0;
      this.objectPerAllocation := objectPerAllocation;
      this.objectsPerPage := objectsPerPage;
      batches, currentBatch, freeHead, links := dummy, dummy, NullPtr, map[];
      pages, live, freed := [dummy], {}, [];
    }

    /** Hands out the block released last, or else a block nobody has had before. */
    method Allocate() returns (p: Ptr)
      requires Valid()
      modifies this, Owned()
      ensures Valid() && fresh(Owned() - old(Owned()))
      ensures p.To? && p !in old(live) && live == old(live) + {p}
      ensures if old(freed) != [] then p == old(freed)[0] && freed == old(freed)[1..] else freed == []
      ensures old(freed) == [] ==>
                var full := old(currentBatch.used == currentBatch.end);
                && (if full then fresh(currentBatch) else currentBatch == old(currentBatch))
                && p == To(currentBatch, if full then 0 else old(currentBatch.used))
                && currentBatch.used == p.offset + objectPerAllocation
                && (full || old(currentBatch.end) == objectsPerPage ==> currentBatch.end == objectsPerPage)
    {
      assert freed != [] ==> freed[0] in freed;
      if freeHead.To? {
        p := PopFree();
        return;
      }
      assert freed == [];
      assert Divides(objectPerAllocation, objectsPerPage) ==> currentBatch.used <= currentBatch.end;
      if currentBatch.used == currentBatch.end {
        AdvanceBatch();
      }
      p := Bump();
    }

    /** The head of the free list. */
    method PopFree() returns (p: Ptr)
      requires Valid() && freed != []
      modifies this`freeHead, this`freed, this`live
      ensures Valid() && p == old(freed)[0] && p.To? && freed == old(freed)[1..] && live == old(live) + {p} && p !in old(live)
    {
      hide ValidPages, ListsReleased, BlocksAccounted, Marks;
      Popped(freeHead, freed, links);
      Reused(Marks(pages), live, freed, objectPerAllocation);
      p := freeHead;
      freeHead := links[p];
      freed := freed[1..];
      live := live + {p};
    }

    /** The pages behind the current one are full, so that a new page is put in
        front of the list. */
    method AdvanceBatch()
      requires Valid() && currentBatch.used == currentBatch.end
      modifies this`batches, this`currentBatch, this`pages
      ensures Valid() && pages[1..] == old(pages)
      ensures fresh(pages[0]) && currentBatch.used == 0 && currentBatch.end == objectsPerPage
    {
      hide PagesLinked, Marks, ListsReleased, BlocksAccounted;
      var batch := FirstWithRoom();
      if batch == null {
        batch := AllocateBatch();
      }
      currentBatch := batch;
      PageAdded(old(Marks(pages)), live, freed, objectPerAllocation, batch);
    }

    /** The pages behind the current one are all full. */
    method FirstWithRoom() returns (batch: Batch?)
      requires ValidPages() && currentBatch.used == currentBatch.end
      ensures batch == null
    {
      ghost var k := 1;
      assert pages[0].next == PageAfter(pages, 0);
      batch := currentBatch.next;
      while batch != null && batch.used == batch.end
        invariant 1 <= k <= |pages|
        invariant batch == if k < |pages| then pages[k] else null
        decreases |pages| - k
      {
        batch := batch.next;
        k := k + 1;
      }
    }

    /** Puts a new page in front of the list. */
    method AllocateBatch() returns (batch: Batch)
      requires ValidPages() && currentBatch.used == currentBatch.end
      modifies this`batches, this`pages
      ensures fresh(batch) && pages == [batch] + old(pages) && pages[1..] == old(pages) && batches == batch
      ensures batch.used == 0 && batch.end == objectsPerPage
      ensures PagesLinked(pages, objectPerAllocation, objectsPerPage) && Marks(pages) == old(Marks(pages))[batch := 0] && batch !in old(Marks(pages))
    {
      hide Marks, PagesLinked;
      batch := new Batch(objectsPerPage);
      batch.next := batches;
      MorePagesLinked(batch, pages, objectPerAllocation, objectsPerPage);
      MarksOfMore(batch, pages);
      batches := batch;
      pages := [batch] + pages;
    }

    /** The next block of the current page. */
    method Bump() returns (p: Ptr)
      requires Valid() && (Divides(objectPerAllocation, objectsPerPage) ==> currentBatch.used < currentBatch.end)
      requires currentBatch.end == objectsPerPage
      modifies this`live, currentBatch`used
      ensures Valid()
      ensures p == To(currentBatch, old(currentBatch.used)) && p !in old(live) && live == old(live) + {p}
      ensures currentBatch.used == p.offset + objectPerAllocation
    {
      hide PagesLinked, ListsReleased, BlocksAccounted;
      p := To(currentBatch, currentBatch.used);
      BumpMark();
      Carve(old(Marks(pages)), live, freed, objectPerAllocation, currentBatch);
      assert Marks(pages) == old(Marks(pages))[currentBatch := currentBatch.used];
      live := live + {p};
    }

    /** The fill mark moves on by one block. */
    method BumpMark()
      requires ValidPages() && currentBatch.end == objectsPerPage
      requires Divides(objectPerAllocation, objectsPerPage) ==> currentBatch.used < currentBatch.end
      modifies currentBatch`used
      ensures ValidPages() && currentBatch.used == old(currentBatch.used) + objectPerAllocation
      ensures Divides(objectPerAllocation, old(currentBatch.used)) && currentBatch in pages
    {
      NextMultiple(currentBatch.used, objectPerAllocation);
      if Divides(objectPerAllocation, objectsPerPage) {
        MultiplesApart(currentBatch.used, currentBatch.end, objectPerAllocation);
      }
      currentBatch.used := currentBatch.used + objectPerAllocation;
    }

    /** Puts a block a client holds at the head of the free list. */
    method Release(p: Ptr)
      requires Valid() && p in live
      modifies this`links, this`freeHead, this`live, this`freed
      ensures Valid() && live == old(live) - {p} && freed == [p] + old(freed)
    {
      hide ValidPages, ListsReleased, BlocksAccounted, Marks;
      Returned(Marks(pages), live, freed, objectPerAllocation, p);
      Pushed(freeHead, freed, links, p);
      links := links[p := freeHead];
      freeHead := p;
      live := live - {p};
      freed := [p] + freed;
    }

    /** Safety: live blocks do not overlap, no live block is on the free list, and if the block
        size divides the page size they all lie inside their pages. */
    lemma LiveBlocksAreSafe()
      requires Valid()
      ensures forall p, q :: p in live && q in live && p != q && p.batch == q.batch ==>
                p.offset + objectPerAllocation <= q.offset || q.offset + objectPerAllocation <= p.offset
      ensures forall p :: p in live ==> p !in freed
      ensures Divides(objectPerAllocation, objectsPerPage) ==>
                forall p :: p in live ==>
                  p.offset + objectPerAllocation <= p.batch.used <= p.batch.end <= Room(objectPerAllocation, objectsPerPage)
    {
      forall p, q | p in live && q in live && p != q && p.batch == q.batch
        ensures p.offset + objectPerAllocation <= q.offset || q.offset + objectPerAllocation <= p.offset
      {
        assert IsBlock(p, Marks(pages), objectPerAllocation) && IsBlock(q, Marks(pages), objectPerAllocation);
        if p.offset < q.offset {
          MultiplesApart(p.offset, q.offset, objectPerAllocation);
        } else {
          MultiplesApart(q.offset, p.offset, objectPerAllocation);
        }
      }
      if Divides(objectPerAllocation, objectsPerPage) {
        BlocksGrow(objectsPerPage, objectPerAllocation);
        forall p | p in live
          ensures p.offset + objectPerAllocation <= p.batch.used <= p.batch.end <= Room(objectPerAllocation, objectsPerPage)
        {
          assert IsBlock(p, Marks(pages), objectPerAllocation);
          MultiplesApart(p.offset, p.batch.used, objectPerAllocation);
        }
      }
    }
  }

  /** A client allocates, or releases one of the blocks it holds. */
  datatype Request = Alloc | Free(k: nat)

  /** The client holds each live block once. */
  ghost predicate HoldsEachOnce(held: seq<Ptr>, live: set<Ptr>) {
    && (forall i, j :: 0 <= i < j < |held| ==> held[i] != held[j])
    && (forall p :: p in held ==> p in live) && (forall p :: p in live ==> p in held)
  }

  lemma HoldsMore(held: seq<Ptr>, live: set<Ptr>, p: Ptr)
    requires HoldsEachOnce(held, live) && p !in live
    ensures HoldsEachOnce(held + [p], live + {p})
  {
    assert forall q :: q in held + [p] <==> q in held || q == p;
  }

  /** The client gives up the block at k. */
  lemma HoldsLess(held: seq<Ptr>, live: set<Ptr>, k: nat)
    requires HoldsEachOnce(held, live) && k < |held|
    ensures HoldsEachOnce(held[..k] + held[k + 1..], live - {held[k]})
  {
    var rest := held[..k] + held[k + 1..];
    assert forall i :: 0 <= i < |rest| ==> rest[i] == held[if i < k then i else i + 1];
    forall p ensures p in rest <==> p in live - {held[k]} {
      if p in live && p != held[k] {
        var i :| 0 <= i < |held| && held[i] == p;
        assert p == rest[if i < k then i else i - 1];
      }
    }
  }

  /** Every sequence of requests keeps the invariant, and the client never holds a block twice. */
  method Serve(a: BatchAllocator, requests: seq<Request>) returns (held: seq<Ptr>)
    requires a.Valid() && a.live == {}
    modifies a, a.Owned()
    ensures a.Valid() && HoldsEachOnce(held, a.live)
  {
    held := [];
    for n := 0 to |requests|
      invariant a.Valid() && HoldsEachOnce(held, a.live)
      invariant fresh(a.Owned() - old(a.Owned()))
    {
      held := ServeOne(a, requests[n], held);
    }
  }

  method ServeOne(a: BatchAllocator, request: Request, held: seq<Ptr>) returns (now: seq<Ptr>)
    requires a.Valid() && HoldsEachOnce(held, a.live)
    modifies a, a.Owned()
    ensures a.Valid() && HoldsEachOnce(now, a.live) && fresh(a.Owned() - old(a.Owned()))
  {
    hide BatchAllocator.Valid;
    match request {
      case Alloc =>
        var p := a.Allocate();
        HoldsMore(held, old(a.live), p);
        now := held + [p];
      case Free(k) =>
        now := held;
        if k < |held| {
          HoldsLess(held, a.live, k);
          a.Release(held[k]);
          now := held[..k] + held[k + 1..];
        }
    }
  }

  // ---------- sizes that do not divide ----------

  /** Block n of the current page is the one handed out last. */
  ghost predicate AtBlock(a: BatchAllocator, n: nat, p: Ptr)
    reads a, a.currentBatch
  {
    && a.freed == [] && p in a.live && a.currentBatch.end == a.objectsPerPage
    && p == To(a.currentBatch, BlockStart(n, a.objectPerAllocation))
    && a.currentBatch.used == BlockStart(n + 1, a.objectPerAllocation)
  }

  method CarveNext(a: BatchAllocator, ghost n: nat, ghost last: Ptr) returns (p: Ptr)
    requires a.Valid() && AtBlock(a, n, last) && !Divides(a.objectPerAllocation, a.objectsPerPage)
    modifies a, a.Owned()
    ensures a.Valid() && AtBlock(a, n + 1, p) && fresh(a.Owned() - old(a.Owned()))
  {
    assert a.currentBatch.used != a.currentBatch.end;
    hide BatchAllocator.Valid, Divides;
    p := a.Allocate();
  }

  /** If the block size does not divide the page size, allocating alone soon hands out a block outside the
      memory of its page; nothing was ever released, and every block is live. */
  method Overrun(objectPerAllocation: Size, objectsPerPage: nat) returns (a: BatchAllocator, p: Ptr)
    requires objectsPerPage >= 16 && !Divides(objectPerAllocation, objectsPerPage)
    ensures a.objectPerAllocation == objectPerAllocation && a.objectsPerPage == objectsPerPage
    ensures a.Valid() && p in a.live && p.To? && p.offset == Room(objectPerAllocation, objectsPerPage)
  {
    a := new BatchAllocator(objectPerAllocation, objectsPerPage);
    p := CarveAll(a);
  }

  /** Allocations until the page has been passed. */
  method CarveAll(a: BatchAllocator) returns (p: Ptr)
    requires a.Valid() && a.freed == [] && a.currentBatch.used == a.currentBatch.end
    requires !Divides(a.objectPerAllocation, a.objectsPerPage)
    modifies a, a.Owned()
    ensures a.Valid() && p in a.live && p.To? && p.offset == Room(a.objectPerAllocation, a.objectsPerPage)
  {
    hide BatchAllocator.Valid, Divides, AtBlock, BlockStart;
    p := First(a);
    for n := 0 to a.objectsPerPage
      invariant a.Valid() && AtBlock(a, n, p) && fresh(a.Owned() - old(a.Owned()))
    {
      p := CarveNext(a, n, p);
    }
    LastBlock(a, a.objectsPerPage, p);
  }

  method First(a: BatchAllocator) returns (p: Ptr)
    requires a.Valid() && a.freed == [] && a.currentBatch.used == a.currentBatch.end
    modifies a, a.Owned()
    ensures a.Valid() && AtBlock(a, 0, p) && fresh(a.Owned() - old(a.Owned()))
  {
    assert BlockStart(1, a.objectPerAllocation) == a.objectPerAllocation && BlockStart(0, a.objectPerAllocation) == 0;
    hide BatchAllocator.Valid, BlockStart;
    p := a.Allocate();
  }

  lemma LastBlock(a: BatchAllocator, n: nat, p: Ptr)
    requires AtBlock(a, n, p) && n == a.objectsPerPage
    ensures p in a.live && p.To? && p.offset == Room(a.objectPerAllocation, a.objectsPerPage)
  {
  }

  lemma {:induction false} EvenBlocks(k: nat)
    ensures BlockStart(k, 2) % 2 == 0
  {
    if k > 0 {
      EvenBlocks(k - 1);
    }
  }

  /** Two objects at a time from pages of the default size is such a case. */
  lemma DefaultPagesOverrun()
    ensures !Divides(2, 255)
  {
    forall k: nat ensures BlockStart(k, 2) != 255 {
      EvenBlocks(k);
    }
  }
}
