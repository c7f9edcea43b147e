/** The same buffers with a header in front of the items, in one block. */
module HeaderOwnership {
  import opened Options
  import opened Ownership

  class Block<H, T> {
    var header: H
    const items: array<T>

    constructor (header: H, items: array<T>)
      ensures this.header == header && this.items == items
    {
      this.header, this.items := header, items;
    }
  }

  class MaybeStackHeaderAndArray<H(0), T(0)> {
    var ptr: Block<H, T>
    var capacity: int
    var needToRelease: bool
    const stackBlock: Block<H, T>
    const heap: Heap<Block<H, T>>

    ghost predicate Valid()
      reads this, heap
    {
      && heap.Valid() && 0 <= capacity <= ptr.items.Length
      && heap.Live() == (if needToRelease then {ptr} else {})
      && stackBlock !in heap.issued
    }

    constructor (header: H, stackCapacity: int)
      requires stackCapacity > 0
      ensures Valid() && ptr == stackBlock && capacity == stackCapacity && !needToRelease
      ensures fresh(stackBlock) && fresh(heap) && heap.issued == {}
    {
      var items := new T[stackCapacity];
      var block := new Block(header, items);
      stackBlock := block;
      heap := new Heap();
      ptr, capacity, needToRelease := block, stackCapacity, false;
    }

    method ReleaseMemory()
      requires Valid()
      modifies heap
      ensures heap.Valid() && heap.Live() == {}
      ensures heap.issued == old(heap.issued) && heap.handed == old(heap.handed)
      ensures heap.freed == old(heap.freed) + if needToRelease then {ptr} else {}
    {
      if needToRelease { heap.Free(ptr); }
    }

    method AliasInstead(otherMemory: Block?<H, T>, otherCapacity: int)
      requires Valid()
      requires otherMemory != null && otherCapacity > 0 ==> otherCapacity <= otherMemory.items.Length
      modifies this, heap
      ensures Valid() && heap.issued == old(heap.issued) && heap.handed == old(heap.handed)
      ensures otherMemory != null && otherCapacity > 0 ==> ptr == otherMemory && capacity == otherCapacity && !needToRelease
      ensures otherMemory == null || otherCapacity <= 0 ==> unchanged(this) && unchanged(heap)
      // The memory in use is a freed block only if the caller passed one, or its own block.
      ensures otherMemory != null && otherCapacity > 0 ==>
        (ptr in heap.freed <==> otherMemory in old(heap.freed) || (old(needToRelease) && otherMemory == old(ptr)))
    {
      if otherMemory != null && otherCapacity > 0 {
        ReleaseMemory();
        ptr, capacity, needToRelease := otherMemory, otherCapacity, false;
      }
    }

    // Allocates a block and copies the header and the first items of the one in use into it.
    method CloneBlock(n: int, kept: int, ok: bool) returns (p: Block?<H, T>)
      requires heap.Valid() && 0 <= kept <= n && kept <= ptr.items.Length
      modifies heap
      ensures heap.Valid() && heap.handed == old(heap.handed) && heap.freed == old(heap.freed)
      ensures !ok ==> p == null && unchanged(heap)
      ensures ok ==> p != null && fresh(p) && fresh(p.items) && p.items.Length == n
      ensures ok ==> heap.Live() == old(heap.Live()) + {p} && heap.issued == old(heap.issued) + {p}
      ensures ok ==> p.header == ptr.header && (forall k :: 0 <= k < kept ==> p.items[k] == ptr.items[k])
    {
      if !ok { return null; }
      var items := new T[n];
      Copy(ptr.items, items, kept);
      p := new Block(ptr.header, items);
      heap.Allocate(p);
    }

    method Resize(newCapacity: int, length: int, ok: bool) returns (p: Block?<H, T>)
      requires Valid()
      modifies this, heap
      ensures Valid() && heap.handed == old(heap.handed) && fresh(heap.issued - old(heap.issued))
      ensures p != null <==> newCapacity >= 0 && ok
      ensures p == null ==> unchanged(this) && unchanged(heap)
      ensures p != null ==> fresh(p) && ptr == p && needToRelease && capacity == newCapacity == p.items.Length
      ensures p != null ==> p !in heap.freed && heap.issued == old(heap.issued) + {p} && heap.freed == old(heap.freed) + if old(needToRelease) then {old(ptr)} else {}
      ensures p != null ==> p.header == old(ptr.header)
      ensures p != null ==>
        forall k :: 0 <= k < length && k < old(capacity) && k < newCapacity ==> p.items[k] == old(ptr.items[k])
    {
      if newCapacity >= 0 {
        var kept := length;
        if kept < 0 {
          kept := 0;
        } else if kept > 0 {
          if kept > capacity { kept := capacity; }
          if kept > newCapacity { kept := newCapacity; }
        }
        p := CloneBlock(newCapacity, kept, ok);
        if p != null {
          if needToRelease { heap.Free(ptr); }
          ptr, capacity, needToRelease := p, newCapacity, true;
        }
      } else {
        p := null;
      }
    }

    // An owned block is given up with the length asked for as its capacity, negative or not.
    method OrphanOrClone(length: int, inCapacity: int, ok: bool) returns (p: Block?<H, T>, resultCapacity: int)
      requires Valid()
      modifies this, heap
      ensures Valid() && heap.freed == old(heap.freed) && fresh(heap.issued - old(heap.issued))
      ensures p != null <==> old(needToRelease) || ok
      ensures p == null ==> unchanged(this) && unchanged(heap) && resultCapacity == inCapacity
      ensures p != null ==> ptr == stackBlock && !needToRelease && heap.handed == old(heap.handed) + {p}
      ensures p != null && old(needToRelease) ==> p == old(ptr) && heap.issued == old(heap.issued)
      ensures p != null && !old(needToRelease) ==>
        fresh(p) && p.header == old(ptr.header) && heap.issued == old(heap.issued) + {p}
      ensures p != null && !old(needToRelease) ==>
        && (p.items.Length <= length || p.items.Length == 0) && p.items.Length <= old(capacity)
        && (p.items.Length == length || p.items.Length == old(capacity) || length < 0)
        && forall k :: 0 <= k < p.items.Length ==> p.items[k] == old(ptr.items[k])
      ensures p != null ==> (resultCapacity == (if old(needToRelease) then old(capacity) else p.items.Length)
        <==> !old(needToRelease) || length == old(capacity))
    {
      resultCapacity := inCapacity;
      var kept := length;
      if needToRelease {
        p := ptr;
      } else {
        if kept < 0 {
          kept := 0;
        } else if kept > capacity {
          kept := capacity;
        }
        p := CloneBlock(kept, kept, ok);
        if p == null { return; }
      }
      resultCapacity := kept;
      heap.HandOver(p);
      ptr, capacity, needToRelease := stackBlock, stackBlock.items.Length, false;
    }

    method Destroy()
      requires Valid()
      modifies heap
      ensures heap.Valid() && heap.issued == heap.freed + heap.handed && heap.freed !! heap.handed
      ensures heap.issued == old(heap.issued) && heap.handed == old(heap.handed)
    {
      ReleaseMemory();
      heap.NothingLive();
    }
  }

  // One call of a run.
  method OneCall<H(0), T(0)>(a: MaybeStackHeaderAndArray<H, T>, call: Call<Block<H, T>>, resized: seq<Block<H, T>>, orphaned: seq<Block<H, T>>)
    returns (resizedAfter: seq<Block<H, T>>, orphanedAfter: seq<Block<H, T>>)
    requires a.Valid() && Accounts(a.heap, resized, orphaned)
    requires call.Alias? && call.source.Outside? ==> call.source.block !in a.heap.issued
    modifies a, a.heap
    ensures a.Valid() && Accounts(a.heap, resizedAfter, orphanedAfter) && fresh(a.heap.issued - old(a.heap.issued))
    ensures call.Alias? && call.capacity > 0 ==>
      match call.source
      case Nothing => a.ptr == old(a.ptr)
      case Outside(block) => block.items.Length > 0 ==> a.ptr == block && !a.needToRelease
      case Inline => a.stackBlock.items.Length > 0 ==> a.ptr == a.stackBlock && !a.needToRelease
      case Resized(k) => k < |resized| && resized[k].items.Length > 0 ==> a.ptr == resized[k] && !a.needToRelease
      case Orphaned(k) => k < |orphaned| && orphaned[k].items.Length > 0 ==> a.ptr == orphaned[k] && !a.needToRelease
    ensures call.Resize? && call.newCapacity >= 0 && call.ok ==> resizedAfter == resized + [a.ptr] && a.needToRelease
    ensures call.Orphan? ==> |orphanedAfter| == |orphaned| + if (old(a.needToRelease) || call.ok) then 1 else 0
    ensures old(a.heap.handed) <= a.heap.handed
    ensures a.needToRelease || (!old(a.needToRelease) && a.ptr == old(a.ptr)) || a.ptr !in a.heap.issued - a.heap.handed || (call.Alias? && call.source.Resized?)
  {
    resizedAfter, orphanedAfter := resized, orphaned;
    match call {
      case Alias(source, capacity) =>
        var other := Choose(source, a.stackBlock, resized, orphaned);
        if other.None? {
          a.AliasInstead(null, capacity);
        } else {
          a.AliasInstead(other.value, if capacity > other.value.items.Length then other.value.items.Length else capacity);
        }
      case Resize(newCapacity, length, ok) =>
        var p := a.Resize(newCapacity, length, ok);
        if p != null { resizedAfter := resizedAfter + [p]; }
      case Orphan(length, ok) =>
        var p, resultCapacity := a.OrphanOrClone(length, 0, ok);
        if p != null { orphanedAfter := orphanedAfter + [p]; }
    }
  }

  // Main result: the same after any run of calls ended by destruction.
  method EveryRun<H(0), T(0)>(header: H, stackCapacity: int, calls: seq<Call<Block<H, T>>>)
    returns (a: MaybeStackHeaderAndArray<H, T>, resized: seq<Block<H, T>>, orphaned: seq<Block<H, T>>, ghost borrowed: set<Block<H, T>>, ghost stale: bool)
    requires stackCapacity > 0
    ensures a.heap.Valid() && a.heap.issued == a.heap.freed + a.heap.handed && a.heap.freed !! a.heap.handed
    ensures a.heap.handed == Elements(orphaned) && a.heap.freed == Elements(resized) - Elements(orphaned)
    ensures a.stackBlock in borrowed && a.stackBlock !in a.heap.issued && fresh(a.heap.issued)
    ensures AliasesResized(calls) || (borrowed !! a.heap.freed && !stale)
  {
    a := new MaybeStackHeaderAndArray<H, T>(header, stackCapacity);
    resized, orphaned, borrowed, stale := [], [], {a.ptr}, false;
    var i := 0;
    while i < |calls|
      invariant 0 <= i <= |calls|
      invariant a.Valid() && fresh(a) && fresh(a.heap) && fresh(a.heap.issued)
      invariant Accounts(a.heap, resized, orphaned)
      invariant a.stackBlock in borrowed && (a.needToRelease || a.ptr in borrowed)
      invariant AliasesResized(calls[..i]) || (!stale && borrowed !! a.heap.issued - a.heap.handed)
    {
      stale := stale || a.ptr in a.heap.freed;
      if AliasesResized(calls[..i]) { AliasesEarlier(calls, i, i + 1); }
      assert calls[..i + 1][i] == calls[i];
      resized, orphaned := OneCall(a, calls[i], resized, orphaned);
      if !a.needToRelease { borrowed := borrowed + {a.ptr}; }
      i := i + 1;
    }
    assert calls[..i] == calls;
    a.Destroy();
  }
}
