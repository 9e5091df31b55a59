// aesd-circular-buffer.c: ten slots, two uint8 offsets and a full flag.
module CircularBuffer {
  import opened Lines
  import opened KernelHeap

  datatype Entry = Entry(buffptr: Ptr, size: nat)

  const EMPTY := Entry(NULL, 0)

  type uint8 = x: int | 0 <= x < 256

  // Number of bytes in the first k entries.
  function Sum(es: seq<Entry>, k: nat): (n: nat)
    requires k <= |es|
  {
    if k == 0 then 0 else Sum(es, k - 1) + es[k - 1].size
  }

  lemma {:induction false} SumMonotonic(es: seq<Entry>, j: nat, k: nat)
    requires j <= k <= |es|
    ensures Sum(es, j) <= Sum(es, k)
  {
    if j < k {
      SumMonotonic(es, j, k - 1);
    }
  }

  lemma {:induction false} SumPrefix(a: seq<Entry>, b: seq<Entry>, k: nat)
    requires k <= |a|
    ensures Sum(a + b, k) == Sum(a, k)
  {
    if k > 0 {
      SumPrefix(a, b, k - 1);
    }
  }

  lemma {:induction false} SumAppend(a: seq<Entry>, b: seq<Entry>, k: nat)
    requires k <= |b|
    ensures Sum(a + b, |a| + k) == Sum(a, |a|) + Sum(b, k)
  {
    if k == 0 {
      SumPrefix(a, b, |a|);
    } else {
      SumAppend(a, b, k - 1);
    }
  }

  lemma SumRotate(a: seq<Entry>, b: seq<Entry>)
    ensures Sum(a + b, |a| + |b|) == Sum(b + a, |a| + |b|)
  {
    SumAppend(a, b, |b|);
    SumAppend(b, a, |a|);
  }

  // The k-th slot in reading order: the stored entries, then nothing.
  function Item(live: seq<Entry>, k: nat): Entry {
    if k < |live| then live[k] else EMPTY
  }

  // es holds the items of live from number from on.
  ghost predicate Reads(es: seq<Entry>, live: seq<Entry>, from: nat) {
    forall i :: 0 <= i < |es| ==> es[i] == Item(live, from + i)
  }

  lemma {:induction false} SumPadded(es: seq<Entry>, live: seq<Entry>, k: nat)
    requires k <= |es| && Reads(es, live, 0)
    ensures Sum(es, k) == Sum(live, if k < |live| then k else |live|)
  {
    if k > 0 {
      SumPadded(es, live, k - 1);
    }
  }

  lemma ReadsAppend(b: seq<Entry>, a: seq<Entry>, live: seq<Entry>)
    requires Reads(b, live, 0) && Reads(a, live, |b|)
    ensures Reads(b + a, live, 0)
  {
  }

  // Slots that read as live from the end of a on have the total size of live.
  lemma RotatedSum(a: seq<Entry>, b: seq<Entry>, live: seq<Entry>)
    requires |live| <= |a| + |b|
    requires Reads(b, live, 0) && Reads(a, live, |b|)
    ensures Sum(a + b, |a| + |b|) == Sum(live, |live|)
  {
    hide Sum, Reads;
    SumRotate(a, b);
    ReadsAppend(b, a, live);
    SumPadded(b + a, live, |b + a|);
  }

  // The offset arithmetic of the ring; its arguments stay below 2 * CAPACITY.
  function Wrap(i: nat): (w: nat)
    requires i < 2 * CAPACITY
    ensures w == if i < CAPACITY then i else i - CAPACITY
  {
    i % CAPACITY
  }

  class Ring {
    const entry: array<Entry>
    var inOffs: uint8
    var outOffs: uint8
    var full: bool
    ghost var live: seq<Entry>  // the stored entries, oldest first

    ghost predicate Valid()
      reads this, entry
    {
      && entry.Length == CAPACITY
      && inOffs < CAPACITY && outOffs < CAPACITY
      && (full ==> inOffs == outOffs)
      && (!full ==> outOffs == 0)
      && |live| == (if full then CAPACITY else inOffs)
      && (forall i :: 0 <= i < CAPACITY ==> entry[i] == Item(live, Age(i)))
    }

    // Where slot i stands in reading order.
    ghost function Age(i: nat): nat
      requires i < CAPACITY && outOffs < CAPACITY
      reads this
    {
      if i < outOffs then i + CAPACITY - outOffs else i - outOffs
    }

    // Where the k-th entry in reading order is stored.
    function Slot(k: nat): (i: nat)
      requires outOffs < CAPACITY && k <= CAPACITY
      reads this
      ensures i < CAPACITY
    {
      Wrap(outOffs + k)
    }

    lemma SlotHolds(k: nat)
      requires Valid() && k < CAPACITY
      ensures entry.Length == CAPACITY && outOffs < CAPACITY
      ensures entry[Slot(k)] == Item(live, k)
    {
    }

    ghost function Total(): nat
      reads this
    {
      Sum(live, |live|)
    }

    // The order in which the ten sizes are added does not matter.
    lemma PhysicalSum()
      requires Valid()
      ensures Sum(entry[..], CAPACITY) == Total()
    {
      var a, b := entry[..outOffs], entry[outOffs..];
      assert entry[..] == a + b;
      RotatedSum(a, b, live);
    }

    // aesd_circular_buffer_init: everything zero.
    constructor ()
      ensures Valid() && fresh(entry) && live == []
    {
      entry := new Entry[CAPACITY](_ => EMPTY);
      inOffs, outOffs, full, live := 0, 0, false, [];
    }

    // Overwrites the oldest entry when full and hands its payload back.
    method AddEntry(e: Entry) returns (garbage: Ptr)
      requires Valid()
      modifies this, entry
      ensures Valid()
      ensures live == LastN(old(live) + [e])
      ensures garbage == if |old(live)| == CAPACITY then old(live)[0].buffptr else NULL
      ensures |live| <= 10
      ensures |old(live)| < 10 ==> live == old(live) + [e] && garbage == NULL
      ensures |old(live)| == 10 ==> live == old(live)[1..] + [e] && garbage == old(live)[0].buffptr
    {
      hide Sum;
      garbage := if full then entry[inOffs].buffptr else NULL;
      entry[inOffs] := e;
      inOffs := Wrap(inOffs + 1);
      live := if full then live[1..] + [e] else live + [e];
      if full {
        outOffs := Wrap(outOffs + 1);
      } else if inOffs == outOffs {
        full := true;
      }
    }

    // Slot and byte offset of position fpos, in the k-th entry.
    ghost predicate Found(fpos: nat, slot: nat, rtn: nat, k: nat)
      requires outOffs < CAPACITY && |live| <= CAPACITY
      reads this
    {
      && k < |live| && slot == Slot(k)
      && rtn < live[k].size && Sum(live, k) + rtn == fpos
    }

    // aesd_circular_buffer_find_entry_offset_for_fpos. The result is a slot
    // index, or CAPACITY for NULL; k is the number of completed rounds of the
    // loop, which is the logical index of the entry found.
    method FindEntryOffset(fpos: nat) returns (slot: nat, rtn: nat, ghost k: nat)
      requires Valid()
      ensures k <= |live|
      ensures slot == CAPACITY <==> fpos >= Total()
      ensures slot != CAPACITY ==> Found(fpos, slot, rtn, k)
    {
      var charOffset: nat := fpos;
      var count: uint8 := CAPACITY;
      var offset: uint8 := outOffs;
      k, rtn, slot := 0, 0, CAPACITY;
      while true
        invariant k <= |live| && offset == Slot(k)
        invariant full ==> count == CAPACITY - k
        invariant Sum(live, k) + charOffset == fpos
        decreases |live| - k
      {
        // full && count-- > 0: the uint8 wraps to 255 on the last test
        var more := full && count > 0;
        count := if full then (count + 255) % 256 else count;
        if !more && offset == inOffs {
          return;
        }
        if charOffset < entry[offset].size {
          SumMonotonic(live, k + 1, |live|);
          return offset, charOffset, k;
        }
        charOffset := charOffset - entry[offset].size;
        offset := Wrap(offset + 1);
        k := k + 1;
      }
    }
  }
}
