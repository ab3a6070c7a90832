/** The batch allocator of jsoncpp-0.5.0/json_batchallocator.h.

    Addresses count objects and 0 is the null pointer; a block is `per` consecutive objects.  The word at the start of
    a released block holds the link of the free list; the word at the start of a live block belongs to the user. */
module BatchAllocator {

  /** `BatchInfo`: `buffer` is the first object, the bump pointer runs from there to `end`. */
  datatype Batch = Batch(buffer: int, used: int, end: int)

  /** `p` is a block that the bump pointer of `b` has passed. */
  predicate Passed(per: nat, b: Batch, p: int)
    requires per > 0
  {
    b.buffer <= p < b.used && (p - b.buffer) % per == 0
  }

  /** `p` has been handed out from some batch. */
  ghost predicate HandedOut(per: nat, batches: seq<Batch>, p: int)
    requires per > 0
  {
    exists i :: 0 <= i < |batches| && Passed(per, batches[i], p)
  }

  /** A batch of `page` objects, the bump pointer at a block boundary; a batch of no objects is the dummy. */
  predicate IsBatch(per: nat, page: nat, b: Batch)
    requires per > 0
  {
    && b.buffer > 0 && b.buffer <= b.used <= b.end && (b.used - b.buffer) % per == 0
    && (b.end == b.buffer || b.end == b.buffer + page)
  }

  predicate Apart(a: Batch, b: Batch) {
    a.end <= b.buffer || b.end <= a.buffer
  }

  predicate BatchesOk(per: nat, page: nat, batches: seq<Batch>, current: nat)
    requires per > 0
  {
    && current < |batches|
    && (forall i :: 0 <= i < |batches| ==> IsBatch(per, page, batches[i]))
    && (forall i :: 0 <= i < |batches| && i != current ==> batches[i].used == batches[i].end)
    && (forall i, j :: 0 <= i < j < |batches| ==> Apart(batches[i], batches[j]))
  }

  /** The element after index `i`, or null. */
  function After(free: seq<int>, i: nat): int {
    if i + 1 < |free| then free[i + 1] else 0
  }

  /** Following the links from `head` gives exactly the sequence `free`, ending in null. */
  predicate Linked(head: int, memory: map<int, int>, free: seq<int>) {
    && head == (if free == [] then 0 else free[0])
    && forall i :: 0 <= i < |free| ==> free[i] in memory && memory[free[i]] == After(free, i)
  }

  predicate Distinct(s: seq<int>) {
    forall i, j :: 0 <= i < j < |s| ==> s[i] != s[j]
  }

  /** The blocks handed out so far are the live ones and the free ones, and no block is both. */
  ghost predicate BlocksOk(per: nat, batches: seq<Batch>, live: set<int>, free: seq<int>)
    requires per > 0
  {
    && (forall p :: HandedOut(per, batches, p) <==> p in live || p in free)
    && (forall p :: p in live ==> p !in free)
    && Distinct(free)
  }

  /** Two blocks do not share an object. */
  predicate Disjoint(per: nat, p: int, q: int) {
    p + per <= q || q + per <= p
  }

  lemma {:induction false} Times(x: int, y: int, per: nat)
    requires x <= y
    ensures x * per <= y * per
  {
  }

  lemma {:induction false} QuotientUnique(x: int, m: nat, q: int, r: int)
    requires m > 0 && x == q * m + r && 0 <= r < m
    ensures x % m == r
  {
    var q' := x / m;
    assert x == q' * m + x % m;
    if q' < q {
      Times(q' + 1, q, m);
      assert false;
    }
    if q < q' {
      Times(q + 1, q', m);
      assert false;
    }
  }

  /** One step further along the grid. */
  lemma {:induction false} NextOnGrid(x: int, per: nat)
    requires per > 0
    ensures (x + per) % per == x % per
  {
    var q, r := x / per, x % per;
    assert x == q * per + r;
    assert x + per == (q + 1) * per + r;
    QuotientUnique(x + per, per, q + 1, r);
  }

  lemma {:induction false} SameGrid(per: nat, base: int, p: int, q: int)
    requires per > 0 && (p - base) % per == 0 && (q - base) % per == 0 && p < q
    ensures p + per <= q
  {
    var x, y := (p - base) / per, (q - base) / per;
    assert p - base == x * per && q - base == y * per;
    if y <= x {
      Times(y, x, per);
      assert false;
    }
    Times(x + 1, y, per);
  }

  /** A block lies inside its batch when the step divides the page. */
  lemma {:induction false} BlockInside(per: nat, page: nat, b: Batch, p: int)
    requires per > 0 && page % per == 0 && IsBatch(per, page, b) && Passed(per, b, p)
    ensures b.buffer <= p && p + per <= b.used <= b.end
  {
    SameGrid(per, b.buffer, p, b.used);
  }

  lemma {:induction false} BlocksDisjoint(per: nat, page: nat, batches: seq<Batch>, current: nat, p: int, q: int)
    requires per > 0 && page % per == 0 && BatchesOk(per, page, batches, current)
    requires HandedOut(per, batches, p) && HandedOut(per, batches, q) && p != q
    ensures Disjoint(per, p, q)
  {
    var i :| 0 <= i < |batches| && Passed(per, batches[i], p);
    var j :| 0 <= j < |batches| && Passed(per, batches[j], q);
    BlockInside(per, page, batches[i], p);
    BlockInside(per, page, batches[j], q);
    if i == j {
      OneBatchDisjoint(per, batches[i], p, q);
    } else {
      hide IsBatch;
      assert if i < j then Apart(batches[i], batches[j]) else Apart(batches[j], batches[i]);
    }
  }

  lemma {:induction false} OneBatchDisjoint(per: nat, b: Batch, p: int, q: int)
    requires per > 0 && Passed(per, b, p) && Passed(per, b, q) && p != q
    ensures Disjoint(per, p, q)
  {
    if p < q {
      SameGrid(per, b.buffer, p, q);
    } else {
      SameGrid(per, b.buffer, q, p);
    }
  }

  // ---------------------------------------------------------------- the free list

  lemma {:induction false} StoreElsewhere(head: int, memory: map<int, int>, free: seq<int>, p: int, word: int)
    requires Linked(head, memory, free) && p !in free
    ensures Linked(head, memory[p := word], free)
  {
    assert forall i :: 0 <= i < |free| ==> free[i] in free;
  }

  lemma {:induction false} PushLinked(head: int, memory: map<int, int>, free: seq<int>, p: int)
    requires Linked(head, memory, free) && p !in free
    ensures Linked(p, memory[p := head], [p] + free)
  {
    assert forall i :: 0 <= i < |free| ==> free[i] in free;
    assert forall i :: 1 <= i <= |free| ==> ([p] + free)[i] == free[i - 1];
  }

  lemma {:induction false} PopLinked(head: int, memory: map<int, int>, free: seq<int>)
    requires Linked(head, memory, free) && free != []
    ensures head == free[0] && head in memory && Linked(memory[head], memory, free[1..])
  {
    var rest := free[1..];
    assert memory[free[0]] == After(free, 0);
    forall i | 0 <= i < |rest|
      ensures rest[i] in memory && memory[rest[i]] == After(rest, i)
    {
      assert rest[i] == free[i + 1] && After(rest, i) == After(free, i + 1);
    }
  }

  lemma {:induction false} Positive(per: nat, page: nat, batches: seq<Batch>, current: nat, p: int)
    requires per > 0 && BatchesOk(per, page, batches, current) && HandedOut(per, batches, p)
    ensures p > 0
  {
  }

  // ---------------------------------------------------------------- the bump pointer

  lemma {:induction false} BumpBatch(per: nat, page: nat, b: Batch)
    requires 0 < per <= page && page % per == 0 && IsBatch(per, page, b) && b.used != b.end
    ensures b.used + per <= b.end && IsBatch(per, page, b.(used := b.used + per))
  {
    SameGrid(per, b.buffer, b.used, b.end);
    NextOnGrid(b.used - b.buffer, per);
  }

  lemma {:induction false} BumpPassed(per: nat, b: Batch, q: int)
    requires per > 0 && b.buffer <= b.used && (b.used - b.buffer) % per == 0
    ensures Passed(per, b.(used := b.used + per), q) <==> Passed(per, b, q) || q == b.used
  {
    if (q - b.buffer) % per == 0 && b.used < q {
      SameGrid(per, b.buffer, b.used, q);
    }
  }

  /** Bumping hands out exactly one new block. */
  lemma {:induction false} BumpHandsOut(per: nat, page: nat, batches: seq<Batch>, i: nat, q: int)
    requires 0 < per <= page && page % per == 0 && BatchesOk(per, page, batches, i)
    ensures HandedOut(per, batches[i := batches[i].(used := batches[i].used + per)], q)
        <==> HandedOut(per, batches, q) || q == batches[i].used
  {
    var batches' := batches[i := batches[i].(used := batches[i].used + per)];
    BumpPassed(per, batches[i], q);
    if HandedOut(per, batches', q) {
      var j :| 0 <= j < |batches'| && Passed(per, batches'[j], q);
      assert j != i ==> Passed(per, batches[j], q);
    }
    if HandedOut(per, batches, q) {
      var j :| 0 <= j < |batches| && Passed(per, batches[j], q);
      assert Passed(per, batches'[j], q);
    }
    if q == batches[i].used {
      assert Passed(per, batches'[i], q);
    }
  }

  lemma {:induction false} BumpIsNew(per: nat, page: nat, batches: seq<Batch>, i: nat)
    requires 0 < per <= page && BatchesOk(per, page, batches, i) && batches[i].used != batches[i].end
    ensures !HandedOut(per, batches, batches[i].used)
  {
  }

  lemma {:induction false} BumpKeepsBatches(per: nat, page: nat, batches: seq<Batch>, i: nat)
    requires 0 < per <= page && page % per == 0 && BatchesOk(per, page, batches, i)
    requires batches[i].used != batches[i].end
    ensures BatchesOk(per, page, batches[i := batches[i].(used := batches[i].used + per)], i)
  {
    hide IsBatch;
    BumpBatch(per, page, batches[i]);
  }

  lemma {:induction false} BumpKeepsBlocks(per: nat, page: nat, batches: seq<Batch>, i: nat, live: set<int>)
    requires 0 < per <= page && page % per == 0 && BatchesOk(per, page, batches, i)
    requires BlocksOk(per, batches, live, [])
    ensures var p := batches[i].used;
            BlocksOk(per, batches[i := batches[i].(used := p + per)], live + {p}, [])
  {
    hide HandedOut, IsBatch;
    var p := batches[i].used;
    forall q
      ensures HandedOut(per, batches[i := batches[i].(used := p + per)], q) <==> q in live + {p}
    {
      BumpHandsOut(per, page, batches, i, q);
    }
  }

  /** A new page in front of batches that are all full. */
  lemma {:induction false} AddPage(per: nat, page: nat, batches: seq<Batch>, b: Batch)
    requires 0 < per <= page
    requires forall i :: 0 <= i < |batches| ==> IsBatch(per, page, batches[i]) && batches[i].used == batches[i].end
    requires forall i, j :: 0 <= i < j < |batches| ==> Apart(batches[i], batches[j])
    requires b.buffer > 0 && b.used == b.buffer && b.end == b.buffer + page
    requires forall i :: 0 <= i < |batches| ==> Apart(batches[i], b)
    ensures BatchesOk(per, page, [b] + batches, 0)
    ensures forall p :: HandedOut(per, [b] + batches, p) <==> HandedOut(per, batches, p)
  {
    var batches' := [b] + batches;
    assert forall i :: 0 <= i < |batches| ==> batches'[i + 1] == batches[i];
    forall p
      ensures HandedOut(per, batches', p) <==> HandedOut(per, batches, p)
    {
      if HandedOut(per, batches', p) {
        var j :| 0 <= j < |batches'| && Passed(per, batches'[j], p);
        assert Passed(per, batches[j - 1], p);
      }
      if HandedOut(per, batches, p) {
        var j :| 0 <= j < |batches| && Passed(per, batches[j], p);
        assert Passed(per, batches'[j + 1], p);
      }
    }
  }

  class Allocator {
    const per: nat                // objectPerAllocation
    const page: nat               // objectsPerPage_
    var batches: seq<Batch>       // the list from batches_ along next_
    var current: nat              // currentBatch_
    var freeHead: int             // freeHead_
    var memory: map<int, int>     // the first word of each block
    ghost var live: set<int>
    ghost var free: seq<int>

    ghost predicate Valid()
      reads this
    {
      && 0 < per <= page && page % per == 0
      && BatchesOk(per, page, batches, current)
      && BlocksOk(per, batches, live, free)
      && Linked(freeHead, memory, free)
    }

    /** A page that `malloc` may return: away from null and from every other page. */
    predicate FreshPage(base: int)
      reads this
    {
      base > 0 && forall i :: 0 <= i < |batches| ==> Apart(batches[i], Batch(base, base, base + page))
    }

    constructor (objectPerAllocation: nat, objectsPerPage: nat, dummy: int)
      requires objectPerAllocation > 0 && objectsPerPage >= 16 && dummy > 0
      ensures live == {} && free == [] && per == objectPerAllocation && page == objectsPerPage
      ensures Valid() <==> objectsPerPage % objectPerAllocation == 0
    {
      per, page := objectPerAllocation, objectsPerPage;
      batches := [Batch(dummy, dummy, dummy)];
      current, freeHead, memory := 0, 0, map[];
      live, free := {}, [];
    }

    /** Every block returned lies inside a page, was not in use and shares no object with any live block. */
    method Allocate(newPage: int) returns (p: int)
      requires Valid() && FreshPage(newPage)
      modifies this
      ensures Valid()
      ensures p !in old(live) && live == old(live) + {p}
      ensures if old(free) != [] then p == old(free)[0] && free == old(free)[1..] else free == []
      ensures forall q :: q in old(live) ==> Disjoint(per, p, q)
      ensures exists i :: 0 <= i < |batches| && batches[i].buffer <= p && p + per <= batches[i].end
    {
      if freeHead != 0 {
        p := Pop();
      } else {
        FreeIsEmpty();
        if batches[current].used == batches[current].end {
          FindBatch(newPage);
        }
        p := Bump();
      }
      forall q | q in old(live)
        ensures Disjoint(per, p, q)
      {
        BlocksDisjoint(per, page, batches, current, p, q);
      }
      var i :| 0 <= i < |batches| && Passed(per, batches[i], p);
      BlockInside(per, page, batches[i], p);
    }

    lemma {:induction false} FreeIsEmpty()
      requires Valid()
      ensures freeHead == 0 <==> free == []
    {
      if free != [] {
        assert free[0] in free;
        Positive(per, page, batches, current, free[0]);
      }
    }

    /** The node at the head of the free list. */
    method Pop() returns (p: int)
      requires Valid() && freeHead != 0
      modifies this`freeHead, this`live, this`free
      ensures Valid() && old(free) != [] && p == old(free)[0] && free == old(free)[1..]
      ensures p !in old(live) && live == old(live) + {p}
    {
      hide BatchesOk, HandedOut, Linked;
      FreeIsEmpty();
      PopLinked(freeHead, memory, free);
      p := freeHead;
      freeHead := memory[p];
      assert free == [p] + free[1..];
      live, free := live + {p}, free[1..];
      assert forall q :: q in old(free) <==> q == p || q in free;
      assert p !in free;
    }

    /** The walk along next_ finds every batch full, so it always ends with a new page at the head of the list. */
    method FindBatch(newPage: int)
      requires Valid() && FreshPage(newPage) && batches[current].used == batches[current].end
      modifies this`batches, this`current
      ensures Valid() && batches[current].used != batches[current].end
      ensures batches == [Batch(newPage, newPage, newPage + page)] + old(batches) && current == 0
    {
      hide HandedOut, IsBatch, Linked;
      current := current + 1;
      while current < |batches| && batches[current].used == batches[current].end
        invariant current <= |batches| && batches == old(batches)
      {
        current := current + 1;
      }
      if current == |batches| {
        AddPage(per, page, batches, Batch(newPage, newPage, newPage + page));
        batches := [Batch(newPage, newPage, newPage + page)] + batches;
        current := 0;
      }
    }

    /** One block from the bump pointer of the current batch. */
    method Bump() returns (p: int)
      requires Valid() && free == [] && batches[current].used != batches[current].end
      modifies this`batches, this`live
      ensures Valid() && p !in old(live) && live == old(live) + {p}
      ensures p == old(batches)[current].used
    {
      hide HandedOut, IsBatch, Linked;
      p := batches[current].used;
      BumpIsNew(per, page, batches, current);
      BumpKeepsBatches(per, page, batches, current);
      BumpKeepsBlocks(per, page, batches, current, live);
      batches := batches[current := batches[current].(used := p + per)];
      live := live + {p};
    }

    method Release(block: int)
      requires Valid() && block in live
      modifies this`freeHead, this`memory, this`live, this`free
      ensures Valid()
      ensures live == old(live) - {block} && free == [block] + old(free)
      ensures memory == old(memory)[block := old(freeHead)]
    {
      hide BatchesOk, HandedOut, Linked;
      PushLinked(freeHead, memory, free, block);
      memory := memory[block := freeHead];
      freeHead := block;
      live, free := live - {block}, [block] + free;
      assert forall q :: q in free <==> q == block || q in old(free);
    }

    /** Whatever the user stores in a live block leaves the allocator intact. */
    method UserWrite(block: int, word: int)
      requires Valid() && block in live
      modifies this`memory
      ensures Valid() && memory == old(memory)[block := word]
    {
      StoreElsewhere(freeHead, memory, free, block, word);
      memory := memory[block := word];
    }
  }

  // ---------------------------------------------------------------- when the step does not divide the page

  /** The blocks that `n` calls get from one page whose bump pointer is at `used`: the code stops only at equality. */
  function Serve(per: nat, used: int, end: int, n: nat): seq<int>
    decreases n
  {
    if n == 0 || used == end then [] else [used] + Serve(per, used + per, end, n - 1)
  }

  lemma {:induction false} ServeDividing(per: nat, used: int, end: int, n: nat, i: nat)
    requires per > 0 && used <= end && (end - used) % per == 0 && i < |Serve(per, used, end, n)|
    ensures Serve(per, used, end, n)[i] + per <= end
    decreases n
  {
    SameGrid(per, used, used, end);
    if i > 0 {
      NextOnGrid(end - used - per, per);
      ServeDividing(per, used + per, end, n - 1, i - 1);
    }
  }

  lemma {:induction false} ServeOverrun(per: nat, used: int, end: int, n: nat)
    requires per > 0 && (end - used) % per != 0
    ensures |Serve(per, used, end, n)| == n
    ensures n > 0 ==> Serve(per, used, end, n)[n - 1] == used + (n - 1) * per
    decreases n
  {
    if n > 0 {
      NextOnGrid(end - used - per, per);
      ServeOverrun(per, used + per, end, n - 1);
      if n > 1 {
        assert used + per + (n - 2) * per == used + (n - 1) * per;
      }
    }
  }

  /** The first `n` blocks of a page lie in the memory `malloc` was asked for, which is `page` blocks. */
  predicate ServedInside(per: nat, page: nat, buffer: int, n: nat) {
    var blocks := Serve(per, buffer, buffer + page, n);
    forall i :: 0 <= i < |blocks| ==> blocks[i] + per <= buffer + per * page
  }

  /** The bump pointer is meant to stop after `page` objects.  It stays inside the page, however many calls there are,
      if and only if the step divides the page. */
  lemma {:induction false} InsideExactlyWhenDividing(per: nat, page: nat, buffer: int)
    requires 0 < per && 0 < page
    ensures (forall n: nat :: ServedInside(per, page, buffer, n)) <==> page % per == 0
  {
    if page % per == 0 {
      Times(1, per, page);
      forall n: nat
        ensures ServedInside(per, page, buffer, n)
      {
        var blocks := Serve(per, buffer, buffer + page, n);
        forall i | 0 <= i < |blocks|
          ensures blocks[i] + per <= buffer + per * page
        {
          ServeDividing(per, buffer, buffer + page, n, i);
        }
      }
    } else {
      ServeOverrun(per, buffer, buffer + page, page + 1);
      assert Serve(per, buffer, buffer + page, page + 1)[page] == buffer + page * per;
      assert !ServedInside(per, page, buffer, page + 1);
    }
  }

  /** Pairs from pages of the default size: the 256th block of a page lies behind the memory for 255 of them. */
  lemma {:induction false} PairsOverrun(buffer: int)
    ensures var blocks := Serve(2, buffer, buffer + 255, 256);
            |blocks| == 256 && blocks[255] == buffer + 2 * 255 && !ServedInside(2, 255, buffer, 256)
  {
    hide Serve;
    ServeOverrun(2, buffer, buffer + 255, 256);
    assert Serve(2, buffer, buffer + 255, 256)[255] + 2 > buffer + 2 * 255;
  }
}
