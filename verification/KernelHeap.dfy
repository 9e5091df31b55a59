// The kernel allocator seen by the driver: kmalloc, kmemdup, kfree_const and
// the two copies into an allocated block. Addresses are never reused, so
// "allocated", "live" and "freed" can be told apart for a whole run.
module KernelHeap {

  type Ptr = nat
  const NULL: Ptr := 0

  class Heap {
    var blocks: map<Ptr, string>  // contents of the live blocks
    var next: Ptr                 // the next address to hand out
    ghost var freed: seq<Ptr>     // every address passed to kfree_const, in order

    // Every address ever handed out is either live or was freed exactly once,
    // and next counts them.
    ghost predicate Valid()
      reads this
    {
      && next > NULL
      && (forall p :: p in blocks ==> NULL < p < next)
      && (forall p :: p in freed ==> NULL < p < next)
      && (forall p :: NULL < p < next ==> (p in blocks <==> p !in freed))
      && (forall i, j :: 0 <= i < j < |freed| ==> freed[i] != freed[j])
      && |blocks| + |freed| == next - 1
    }

    // What Valid says when exactly the blocks in left are still allocated.
    lemma Accounts(left: set<Ptr>)
      requires Valid() && blocks.Keys == left
      ensures |freed| == next - 1 - |left|
      ensures forall p :: NULL < p < next && p !in left ==> p in freed
      ensures forall p :: p in freed ==> NULL < p < next && p !in left
      ensures forall i, j :: 0 <= i < j < |freed| ==> freed[i] != freed[j]
    {
      assert |blocks| == |blocks.Keys|;
    }

    constructor ()
      ensures Valid() && blocks == map[] && freed == [] && next == 1
    {
      blocks, next, freed := map[], 1, [];
    }

    // The contents of a new block are not specified.
    method Kmalloc(size: nat, fails: bool) returns (p: Ptr)
      requires Valid()
      modifies this
      ensures Valid() && freed == old(freed)
      ensures fails ==> p == NULL && blocks == old(blocks)
      ensures !fails ==> p != NULL && p !in old(blocks) && p !in freed
      ensures next == old(next) + if fails then 0 else 1
      ensures !fails ==> p in blocks && |blocks[p]| == size && blocks == old(blocks)[p := blocks[p]]
    {
      p := Kmemdup(seq(size, i => '\0'), fails);
    }

    method Kmemdup(content: string, fails: bool) returns (p: Ptr)
      requires Valid()
      modifies this
      ensures Valid() && freed == old(freed)
      ensures fails ==> p == NULL && blocks == old(blocks)
      ensures !fails ==> p != NULL && p !in old(blocks) && p !in freed
      ensures next == old(next) + if fails then 0 else 1
      ensures !fails ==> blocks == old(blocks)[p := content]
    {
      if fails {
        return NULL;
      }
      p := next;
      blocks := blocks[p := content];
      next := next + 1;
    }

    // memcpy and copy_from_user: the block must be live and the copy must fit.
    method CopyInto(p: Ptr, offset: nat, content: string)
      requires Valid()
      requires p in blocks && offset + |content| <= |blocks[p]|
      modifies this`blocks
      ensures Valid()
      ensures blocks == old(blocks)[p := old(blocks[p])[..offset] + content + old(blocks[p])[offset + |content|..]]
    {
      blocks := blocks[p := blocks[p][..offset] + content + blocks[p][offset + |content|..]];
    }

    // Only a live block may be freed, so no block is freed twice.
    method Kfree(p: Ptr)
      requires Valid()
      requires p in blocks
      modifies this`blocks, this`freed
      ensures Valid()
      ensures blocks == old(blocks) - {p}
      ensures freed == old(freed) + [p]
    {
      assert (blocks - {p}).Keys == blocks.Keys - {p};
      blocks := blocks - {p};
      freed := freed + [p];
    }
  }
}
