/** Buffers that live inside an object, alias another buffer or own a heap block. */
module Ownership {
  import opened Options

  // What became of every block issued to an object. A block can be freed or handed over
  // only while it is live, so neither happens twice, nor to a block that was not issued.
  class Heap<A> {
    ghost var issued: set<A>
    ghost var freed: set<A>
    ghost var handed: set<A>

    ghost predicate Valid()
      reads this
    {
      freed + handed <= issued && freed !! handed
    }

    ghost function Live(): set<A>
      reads this
    {
      issued - freed - handed
    }

    lemma NothingLive()
      requires Valid() && Live() == {}
      ensures issued == freed + handed
    {
      forall b | b in issued ensures b in freed + handed { assert b !in Live(); }
    }

    constructor ()
      ensures Valid() && issued == freed == handed == {}
    {
      issued, freed, handed := {}, {}, {};
    }

    method Allocate(block: A)
      requires Valid() && block !in issued
      modifies this
      ensures Valid() && Live() == old(Live()) + {block} && issued == old(issued) + {block}
      ensures freed == old(freed) && handed == old(handed)
    {
      issued := issued + {block};
    }

    method Free(block: A)
      requires Valid() && block in Live()
      modifies this
      ensures Valid() && Live() == old(Live()) - {block} && freed == old(freed) + {block}
      ensures issued == old(issued) && handed == old(handed)
    {
      freed := freed + {block};
    }

    method HandOver(block: A)
      requires Valid() && block in Live()
      modifies this
      ensures Valid() && Live() == old(Live()) - {block} && handed == old(handed) + {block}
      ensures issued == old(issued) && freed == old(freed)
    {
      handed := handed + {block};
    }
  }

  class MaybeStackArray<T(0)> {
    var ptr: array<T>
    var capacity: int
    var needToRelease: bool
    const stackArray: array<T>
    const heap: Heap<array<T>>

    // The object owns a live block exactly when it must release one, and it is the one in use.
    ghost predicate Valid()
      reads this, heap
    {
      && heap.Valid() && 0 < capacity <= ptr.Length && stackArray.Length > 0
      && heap.Live() == (if needToRelease then {ptr} else {})
      && stackArray !in heap.issued
    }

    constructor (stackCapacity: int)
      requires stackCapacity > 0
      ensures Valid() && ptr == stackArray && capacity == stackCapacity && !needToRelease
      ensures fresh(stackArray) && fresh(heap) && heap.issued == {}
    {
      stackArray := new T[stackCapacity];
      heap := new Heap();
      new;
      ptr, capacity, needToRelease := stackArray, stackCapacity, false;
    }

    method ReleaseArray()
      requires Valid()
      modifies heap
      ensures heap.Valid() && heap.Live() == {}
      ensures heap.issued == old(heap.issued) && heap.handed == old(heap.handed)
      ensures heap.freed == old(heap.freed) + if needToRelease then {ptr} else {}
    {
      if needToRelease { heap.Free(ptr); }
    }

    method AliasInstead(otherArray: array?<T>, otherCapacity: int)
      requires Valid()
      requires otherArray != null && otherCapacity > 0 ==> otherCapacity <= otherArray.Length
      modifies this, heap
      ensures Valid() && heap.issued == old(heap.issued) && heap.handed == old(heap.handed)
      ensures otherArray != null && otherCapacity > 0 ==> ptr == otherArray && capacity == otherCapacity && !needToRelease
      ensures otherArray == null || otherCapacity <= 0 ==> unchanged(this) && unchanged(heap)
      // The buffer in use is a freed one only if the caller passed one, or its own block.
      ensures otherArray != null && otherCapacity > 0 ==>
        (ptr in heap.freed <==> otherArray in old(heap.freed) || (old(needToRelease) && otherArray == old(ptr)))
    {
      if otherArray != null && otherCapacity > 0 {
        ReleaseArray();
        ptr, capacity, needToRelease := otherArray, otherCapacity, false;
      }
    }

    // Allocation may fail.
    method Malloc(n: int, ok: bool) returns (p: array?<T>)
      requires heap.Valid() && n > 0
      modifies heap
      ensures heap.Valid()
      ensures !ok ==> p == null && unchanged(heap)
      ensures ok ==> p != null && fresh(p) && p.Length == n && heap.Live() == old(heap.Live()) + {p}
      ensures ok ==> heap.issued == old(heap.issued) + {p} && heap.handed == old(heap.handed) && heap.freed == old(heap.freed)
    {
      if !ok { return null; }
      p := new T[n];
      heap.Allocate(p);
    }

    method Resize(newCapacity: int, length: int, ok: bool) returns (p: array?<T>)
      requires Valid()
      modifies this, heap
      ensures Valid() && heap.handed == old(heap.handed) && fresh(heap.issued - old(heap.issued))
      ensures p != null <==> newCapacity > 0 && ok
      ensures p == null ==> unchanged(this) && unchanged(heap)
      ensures p != null ==> fresh(p) && ptr == p && needToRelease && capacity == newCapacity == p.Length
      ensures p != null ==> p !in heap.freed && heap.issued == old(heap.issued) + {p} && heap.freed == old(heap.freed) + if old(needToRelease) then {old(ptr)} else {}
      ensures p != null ==> forall k :: 0 <= k < length && k < old(capacity) && k < newCapacity ==> p[k] == old(ptr[k])
    {
      if newCapacity > 0 {
        p := Malloc(newCapacity, ok);
        if p != null {
          if length > 0 {
            var kept := length;
            if kept > capacity { kept := capacity; }
            if kept > newCapacity { kept := newCapacity; }
            Copy(ptr, p, kept);
          }
          if needToRelease { heap.Free(ptr); }
          ptr, capacity, needToRelease := p, newCapacity, true;
        }
      } else {
        p := null;
      }
    }

    // Gives the block up if it is owned and a copy otherwise. The capacity reported is the
    // length asked for even when the block given up has another.
    method OrphanOrClone(length: int, inCapacity: int, ok: bool) returns (p: array?<T>, resultCapacity: int)
      requires Valid()
      modifies this, heap
      ensures Valid() && heap.freed == old(heap.freed) && fresh(heap.issued - old(heap.issued))
      ensures p != null <==> old(needToRelease) || (length > 0 && ok)
      ensures p == null ==> unchanged(this) && unchanged(heap) && resultCapacity == inCapacity
      ensures p != null ==> ptr == stackArray && !needToRelease && heap.handed == old(heap.handed) + {p}
      ensures p != null && old(needToRelease) ==> p == old(ptr) && heap.issued == old(heap.issued)
      ensures p != null && !old(needToRelease) ==> heap.issued == old(heap.issued) + {p}
      ensures p != null && !old(needToRelease) ==>
        && fresh(p) && p.Length <= length && p.Length <= old(capacity) && (p.Length == length || p.Length == old(capacity))
        && forall k :: 0 <= k < p.Length ==> p[k] == old(ptr[k])
      ensures p != null ==> (resultCapacity == (if old(needToRelease) then old(capacity) else p.Length)
        <==> !old(needToRelease) || length == old(capacity))
    {
      resultCapacity := inCapacity;
      var kept := length;
      if needToRelease {
        p := ptr;
      } else if length <= 0 {
        return null, resultCapacity;
      } else {
        if kept > capacity { kept := capacity; }
        p := Malloc(kept, ok);
        if p == null { return; }
        Copy(ptr, p, kept);
      }
      resultCapacity := kept;
      heap.HandOver(p);
      ptr, capacity, needToRelease := stackArray, stackArray.Length, false;
    }

    // After destruction every block issued was freed or handed over, once.
    method Destroy()
      requires Valid()
      modifies heap
      ensures heap.Valid() && heap.issued == heap.freed + heap.handed && heap.freed !! heap.handed
      ensures heap.issued == old(heap.issued) && heap.handed == old(heap.handed)
    {
      ReleaseArray();
      heap.NothingLive();
    }
  }

  // memcpy of the first items.
  method Copy<T>(from: array<T>, to: array<T>, n: int)
    requires 0 <= n <= from.Length && n <= to.Length && from != to
    modifies to
    ensures forall k :: 0 <= k < n ==> to[k] == old(from[k])
  {
    var i := 0;
    while i < n
      invariant 0 <= i <= n
      invariant forall k :: 0 <= k < i ==> to[k] == from[k]
    {
      to[i] := from[i];
      i := i + 1;
    }
  }

  // ---- Whole runs

  // What a caller can alias: nothing, memory of its own, the buffer inside the object, or the
  // k-th block that a resize or an orphan returned to it.
  datatype Source<A> = Nothing | Outside(block: A) | Inline | Resized(k: nat) | Orphaned(k: nat)

  function Choose<A>(source: Source<A>, inside: A, resized: seq<A>, orphaned: seq<A>): Option<A> {
    match source
    case Nothing => None
    case Outside(block) => Some(block)
    case Inline => Some(inside)
    case Resized(k) => if k < |resized| then Some(resized[k]) else None
    case Orphaned(k) => if k < |orphaned| then Some(orphaned[k]) else None
  }

  // The calls a user can make, with the outcome of the allocation each may try.
  datatype Call<A> = Alias(source: Source<A>, capacity: int) | Resize(newCapacity: int, length: int, ok: bool) | Orphan(length: int, ok: bool)

  // Some call aliases a block that a resize returned, which the object may still own.
  predicate AliasesResized<A>(calls: seq<Call<A>>) {
    exists i :: 0 <= i < |calls| && calls[i].Alias? && calls[i].source.Resized?
  }

  lemma AliasesEarlier<A>(calls: seq<Call<A>>, i: nat, j: nat)
    requires i <= j <= |calls| && AliasesResized(calls[..i])
    ensures AliasesResized(calls[..j])
  {
    var k :| 0 <= k < i && calls[..i][k].Alias? && calls[..i][k].source.Resized?;
    assert calls[..j][k] == calls[k];
  }

  // The heap's books agree with the blocks returned so far: an orphan's are handed over, and
  // those and a resize's are all there are.
  ghost predicate Accounts<A>(heap: Heap<A>, resized: seq<A>, orphaned: seq<A>)
    reads heap
  {
    && heap.handed == Elements(orphaned)
    && heap.issued == Elements(resized) + Elements(orphaned)
  }

  ghost function Elements<A>(blocks: seq<A>): set<A> {
    set b | b in blocks
  }

  // One call of a run. A buffer that comes into use without being owned is not a block that
  // is or will be freed, unless the caller aliases one that a resize returned.
  method OneCall<T(0)>(a: MaybeStackArray<T>, call: Call<array<T>>, resized: seq<array<T>>, orphaned: seq<array<T>>)
    returns (resizedAfter: seq<array<T>>, orphanedAfter: seq<array<T>>)
    requires a.Valid() && Accounts(a.heap, resized, orphaned)
    requires call.Alias? && call.source.Outside? ==> call.source.block !in a.heap.issued
    modifies a, a.heap
    ensures a.Valid() && Accounts(a.heap, resizedAfter, orphanedAfter) && fresh(a.heap.issued - old(a.heap.issued))
    ensures call.Alias? && call.capacity > 0 ==>
      match call.source
      case Nothing => a.ptr == old(a.ptr)
      case Outside(block) => block.Length > 0 ==> a.ptr == block && !a.needToRelease
      case Inline => a.stackArray.Length > 0 ==> a.ptr == a.stackArray && !a.needToRelease
      case Resized(k) => k < |resized| && resized[k].Length > 0 ==> a.ptr == resized[k] && !a.needToRelease
      case Orphaned(k) => k < |orphaned| && orphaned[k].Length > 0 ==> a.ptr == orphaned[k] && !a.needToRelease
    ensures call.Resize? && call.newCapacity > 0 && call.ok ==> resizedAfter == resized + [a.ptr] && a.needToRelease
    ensures call.Orphan? ==> |orphanedAfter| == |orphaned| + if (old(a.needToRelease) || (call.length > 0 && call.ok)) then 1 else 0
    ensures old(a.heap.handed) <= a.heap.handed
    ensures a.needToRelease || (!old(a.needToRelease) && a.ptr == old(a.ptr)) || a.ptr !in a.heap.issued - a.heap.handed || (call.Alias? && call.source.Resized?)
  {
    resizedAfter, orphanedAfter := resized, orphaned;
    match call {
      case Alias(source, capacity) =>
        var other := Choose(source, a.stackArray, resized, orphaned);
        if other.None? {
          a.AliasInstead(null, capacity);
        } else {
          a.AliasInstead(other.value, if capacity > other.value.Length then other.value.Length else capacity);
        }
      case Resize(newCapacity, length, ok) =>
        var p := a.Resize(newCapacity, length, ok);
        if p != null { resizedAfter := resizedAfter + [p]; }
      case Orphan(length, ok) =>
        var p, resultCapacity := a.OrphanOrClone(length, 0, ok);
        if p != null { orphanedAfter := orphanedAfter + [p]; }
    }
  }

  // Main result: after any run of calls ended by destruction, in which the caller may alias the
  // object's own buffers, past and present, every block was freed or handed to the caller,
  // never both and never twice. Freed are exactly the blocks returned by a resize and by no
  // orphan; so the inline buffer is not, nor is any other that the object used without owning
  // it, unless a resize had returned it. Only then can a call find a freed block in use.
  method EveryRun<T(0)>(stackCapacity: int, calls: seq<Call<array<T>>>)
    returns (a: MaybeStackArray<T>, resized: seq<array<T>>, orphaned: seq<array<T>>, ghost borrowed: set<array<T>>, ghost stale: bool)
    requires stackCapacity > 0
    ensures a.heap.Valid() && a.heap.issued == a.heap.freed + a.heap.handed && a.heap.freed !! a.heap.handed
    ensures a.heap.handed == Elements(orphaned) && a.heap.freed == Elements(resized) - Elements(orphaned)
    ensures a.stackArray in borrowed && a.stackArray !in a.heap.issued && fresh(a.heap.issued)
    ensures AliasesResized(calls) || (borrowed !! a.heap.freed && !stale)
  {
    a := new MaybeStackArray<T>(stackCapacity);
    resized, orphaned, borrowed, stale := [], [], {a.ptr}, false;
    var i := 0;
    while i < |calls|
      invariant 0 <= i <= |calls|
      invariant a.Valid() && fresh(a) && fresh(a.heap) && fresh(a.heap.issued)
      invariant Accounts(a.heap, resized, orphaned)
      invariant a.stackArray in borrowed && (a.needToRelease || a.ptr in borrowed)
      invariant AliasesResized(calls[..i]) || (!stale && borrowed !! a.heap.issued - a.heap.handed)
    {
      stale := stale || a.ptr in a.heap.freed;
      if AliasesResized(calls[..i]) { AliasesEarlier(calls, i, i + 1); }
      assert calls[..i + 1][i] == calls[i];
      resized, orphaned := OneCall(a, calls[i], resized, orphaned);
      if !a.needToRelease { borrowed := borrowed + {a.ptr}; }
      i := i + 1;
    }
    assert calls[..i] == calls;
    a.Destroy();
  }

  // It can: resizing and then aliasing the block returned leaves a freed block in use.
  method FreedBlockInUse<T(0)>(stackCapacity: int, newCapacity: int) returns (a: MaybeStackArray<T>)
    requires stackCapacity > 0 && newCapacity > 0
    ensures a.Valid() && !a.needToRelease && a.ptr in a.heap.freed
  {
    a := new MaybeStackArray<T>(stackCapacity);
    var p := a.Resize(newCapacity, 0, true);
    a.AliasInstead(p, newCapacity);
  }
}
