// main.c: the device, and the file operations on an open file of it.
module AesdDevice {
  import opened Lines
  import opened KernelHeap
  import opened CircularBuffer
  import opened DeviceMemory
  import opened DeviceSpec

  // sizeof(struct aesd_buffer_entry)
  const HEADER_SIZE: nat := 16

  class Device {
    const ring: Ring
    const heap: Heap
    var partial: Entry
    var locked: bool
    ghost var evicted: seq<string>  // payloads of the entries overwritten so far
    ghost var headers: set<Ptr>     // the entry structs allocated so far, never freed

    // The state between two steps of a call that holds the blocks in temp.
    ghost predicate Consistent(temp: set<Ptr>)
      reads this`evicted, this`headers, this`partial, ring, ring.entry, heap
    {
      && ring.Valid() && heap.Valid()
      && temp !! headers
      && Represents(evicted, ring.live, partial, temp + headers, heap.blocks)
    }

    ghost predicate Valid()
      reads this, ring, ring.entry, heap
    {
      Consistent({}) && !locked
    }

    ghost function Abstract(): History
      reads this`evicted, this`partial, ring, heap
    {
      HistoryOf(evicted, ring.live, partial, heap.blocks)
    }

    // aesd_init_module: memset, mutex_init, aesd_circular_buffer_init.
    constructor ()
      ensures Valid() && fresh(ring) && fresh(ring.entry) && fresh(heap)
      ensures Abstract() == FRESH && headers == {} && heap.next == 1 && heap.freed == []
    {
      hide Represents, HistoryOf;
      ring := new Ring();
      heap := new Heap();
      partial, locked, evicted, headers := EMPTY, false, [], {};
      FreshMemory();
    }

    // What has been allocated and freed since an earlier state.
    twostate predicate Allocated(all: nat, ofThemHeaders: nat)
      reads this, heap
    {
      && heap.next == old(heap.next) + all
      && |headers| == |old(headers)| + ofThemHeaders
      && old(heap.freed) <= heap.freed
    }

    // One round of the loop in aesd_write: allocate a header, duplicate the
    // line, add it to the ring, free what the ring hands back. The ring copies
    // the header; the block itself is not freed on either path.
    method AddLine(line: string, dupFails: bool, ghost temp: set<Ptr>) returns (ok: bool)
      requires locked && Consistent(temp) && partial == EMPTY && IsLine(line)
      modifies this`evicted, this`headers, ring, ring.entry, heap
      ensures Consistent(temp)
      ensures ok == !dupFails
      ensures ok ==> Abstract() == History(old(Abstract()).accepted + [line], "")
      ensures !ok ==> Abstract() == old(Abstract())
      ensures forall t :: t in temp && t in old(heap.blocks) ==>
                (t in heap.blocks && heap.blocks[t] == old(heap.blocks)[t])
      ensures Allocated(if ok then 2 else 1, 1)
    {
      hide Consistent, Abstract;
      AddHeader(temp);
      ok := AddPayload(line, dupFails, temp);
    }

    method AddPayload(line: string, dupFails: bool, ghost temp: set<Ptr>) returns (ok: bool)
      requires locked && Consistent(temp) && partial == EMPTY && IsLine(line)
      modifies this`evicted, ring, ring.entry, heap
      ensures Consistent(temp)
      ensures ok == !dupFails
      ensures ok ==> Abstract() == History(old(Abstract()).accepted + [line], "")
      ensures !ok ==> Abstract() == old(Abstract())
      ensures forall t :: t in temp && t in old(heap.blocks) ==>
                (t in heap.blocks && heap.blocks[t] == old(heap.blocks)[t])
      ensures Allocated(if ok then 1 else 0, 0)
    {
      hide Represents, HistoryOf, Heap.Valid, Ring.Valid, LastN, BlocksAfter, EvictedBy;
      ghost var live, blocks, held := ring.live, heap.blocks, temp + headers;
      var p := heap.Kmemdup(line, dupFails);
      if p == NULL {
        return false;
      }
      StoreLine(evicted, live, held, blocks, p, line);
      Replace(p, line, blocks);
      return true;
    }

    // The new entry goes into the ring, and the payload it displaces is freed.
    method Replace(p: Ptr, line: string, ghost blocks: Blocks)
      requires ring.Valid() && heap.Valid() && heap.blocks == blocks[p := line]
      requires |ring.live| == CAPACITY ==> ring.live[0].buffptr != NULL && ring.live[0].buffptr in blocks
      modifies this`evicted, ring, ring.entry, heap`blocks, heap`freed
      ensures ring.Valid() && heap.Valid() && old(heap.freed) <= heap.freed
      ensures ring.live == LastN(old(ring.live) + [Entry(p, |line|)])
      ensures heap.blocks == BlocksAfter(old(ring.live), blocks, p, line)
      ensures evicted == old(evicted) + EvictedBy(old(ring.live), blocks)
    {
      hide Heap.Valid, Ring.Valid, LastN;
      evicted := evicted + EvictedBy(ring.live, blocks);
      var garbage := ring.AddEntry(Entry(p, |line|));
      if garbage != NULL {
        heap.Kfree(garbage);
      }
    }

    // kmalloc of the entry struct, assumed to succeed: the source does not look.
    method AddHeader(ghost temp: set<Ptr>)
      requires Consistent(temp)
      modifies this`headers, heap
      ensures Consistent(temp) && Abstract() == old(Abstract())
      ensures forall t :: t in old(heap.blocks) ==> t in heap.blocks && heap.blocks[t] == old(heap.blocks)[t]
      ensures Allocated(1, 1)
    {
      hide Represents, HistoryOf;
      ghost var blocks := heap.blocks;
      var entry := heap.Kmalloc(HEADER_SIZE, false);
      TakeTemp(evicted, ring.live, partial, temp + headers, blocks, entry, heap.blocks[entry]);
      assert temp + headers + {entry} == temp + (headers + {entry});
      headers := headers + {entry};
    }

    // The partial entry describes the tail.
    lemma PartialIsTail(temp: set<Ptr>)
      requires Consistent(temp)
      ensures partial.size == |Abstract().partial|
      ensures partial.buffptr == NULL <==> Abstract().partial == ""
      ensures partial.buffptr != NULL ==>
                partial.buffptr in heap.blocks && heap.blocks[partial.buffptr] == Abstract().partial
      ensures Abstract().WellShaped()
    {
      TailEntry(evicted, ring.live, partial, temp + headers, heap.blocks);
    }

    // The ring's entries against the window: total size, lookup, slots.

    lemma EntriesAreWindow()
      requires Consistent({})
      ensures ring.Valid()
      ensures ring.Total() == |Flat(Abstract().Window())|
    {
      WindowIsStored(evicted, ring.live, partial, {} + headers, heap.blocks);
      SumIsLength(ring.live, heap.blocks);
    }

    lemma FoundInWindow(pos: nat, slot: nat, rtn: nat, k: nat)
      requires Consistent({}) && ring.Valid() && ring.Found(pos, slot, rtn, k)
      ensures slot < ring.entry.Length
      ensures var w, e := Abstract().Window(), ring.entry[slot];
              && k < |w| && Locate(w, pos) == Some(Place(k, rtn))
              && e.buffptr in heap.blocks && heap.blocks[e.buffptr] == w[k]
              && e.size == |w[k]|
    {
      ring.SlotHolds(k);
      WindowIsStored(evicted, ring.live, partial, {} + headers, heap.blocks);
      FoundIsLocated(ring.live, heap.blocks, pos, k, rtn);
    }

    lemma SlotIsLine(k: nat)
      requires Consistent({}) && k < CAPACITY
      ensures ring.outOffs < CAPACITY && ring.entry.Length == CAPACITY
      ensures ring.entry[Wrap(ring.outOffs + k)].size == LineSize(Abstract().Window(), k)
      ensures LineStart(Abstract().Window(), 0) == 0
    {
      hide Represents, HistoryOf, Ring.Valid, Heap.Valid, Flat, IsLine;
      ring.SlotHolds(k);
      WindowIsStored(evicted, ring.live, partial, {} + headers, heap.blocks);
      StartsAtZero(Abstract().Window());
    }

    // kmalloc of the working buffer.
    method AllocBuffer(size: nat, fails: bool) returns (buffer: Ptr)
      requires Consistent({})
      modifies heap
      ensures Abstract() == old(Abstract())
      ensures buffer == NULL <==> fails
      ensures fails ==> Consistent({})
      ensures !fails ==> Consistent({buffer}) && buffer in heap.blocks && |heap.blocks[buffer]| == size
      ensures Allocated(if fails then 0 else 1, 0)
    {
      hide Represents, HistoryOf;
      ghost var before := heap.blocks;
      buffer := heap.Kmalloc(size, fails);
      if !fails {
        TakeTemp(evicted, ring.live, partial, {} + headers, before, buffer, heap.blocks[buffer]);
        assert {} + headers + {buffer} == {buffer} + headers;
      }
    }

    // memcpy and copy_from_user: the tail and the new bytes side by side.
    method Gather(buffer: Ptr, buf: string, copyFails: bool) returns (ok: bool)
      requires Consistent({buffer}) && buffer in heap.blocks
      requires |heap.blocks[buffer]| == partial.size + |buf|
      modifies heap`blocks
      ensures Consistent({buffer}) && Abstract() == old(Abstract())
      ensures ok == !copyFails
      ensures ok ==> buffer in heap.blocks && heap.blocks[buffer] == Abstract().partial + buf
    {
      hide Consistent, Abstract;
      PartialIsTail({buffer});
      if partial.buffptr != NULL {
        FillBuffer(buffer, 0, heap.blocks[partial.buffptr]);
      }
      if copyFails {
        return false;
      }
      FillBuffer(buffer, partial.size, buf);
      return true;
    }

    // A copy into the working buffer touches nothing else.
    method FillBuffer(buffer: Ptr, offset: nat, content: string)
      requires Consistent({buffer}) && buffer in heap.blocks
      requires offset + |content| <= |heap.blocks[buffer]|
      modifies heap`blocks
      ensures Consistent({buffer}) && Abstract() == old(Abstract())
      ensures var b := old(heap.blocks)[buffer];
              heap.blocks == old(heap.blocks)[buffer := b[..offset] + content + b[offset + |content|..]]
    {
      hide Represents, HistoryOf, Heap.Valid, Ring.Valid;
      ghost var before := heap.blocks;
      heap.CopyInto(buffer, offset, content);
      FillTemp(evicted, ring.live, partial, {buffer} + headers, before, buffer, heap.blocks[buffer]);
    }

    // The old tail is given up before the mutex is taken.
    method FreePartial(ghost buffer: Ptr)
      requires Consistent({buffer}) && buffer in heap.blocks
      modifies this`partial, heap`blocks, heap`freed
      ensures Consistent({buffer}) && partial == EMPTY && old(heap.freed) <= heap.freed
      ensures Abstract() == old(Abstract()).(partial := "")
      ensures buffer in heap.blocks && heap.blocks[buffer] == old(heap.blocks)[buffer]
    {
      hide Represents, HistoryOf;
      TailEntry(evicted, ring.live, partial, {buffer} + headers, heap.blocks);
      if partial.buffptr != NULL {
        DropTail(evicted, ring.live, partial, {buffer} + headers, heap.blocks);
        heap.Kfree(partial.buffptr);
        partial := EMPTY;
      }
    }

    // The working buffer goes on every path that allocated it.
    method FreeBuffer(buffer: Ptr)
      requires Consistent({buffer})
      modifies heap`blocks, heap`freed
      ensures Consistent({}) && Abstract() == old(Abstract()) && old(heap.freed) <= heap.freed
    {
      hide Represents, HistoryOf;
      GiveBackTemp(evicted, ring.live, partial, {buffer} + headers, heap.blocks, buffer);
      assert {buffer} + headers - {buffer} == {} + headers;
      heap.Kfree(buffer);
    }

    // The slots in physical order hold what the entries hold.
    lemma SlotsHold()
      requires Consistent({})
      ensures ring.entry.Length == CAPACITY && heap.Valid()
      ensures PhysicalOwned(ring.entry[..], 0, partial, headers, heap.blocks)
    {
      hide Heap.Valid, HistoryOf;
      SlotPtrsAreHolders();
      DistinctSlots();
      assert {} + headers == headers;
    }

    lemma SlotPtrsAreHolders()
      requires ring.Valid()
      requires forall k :: 0 <= k < |ring.live| ==> ring.live[k].buffptr != NULL
      ensures SlotPtrs(ring.entry[..], 0) == Holders(ring.live)
    {
      var slots, live := ring.entry[..], ring.live;
      forall p | p in Holders(live)
        ensures p in SlotPtrs(slots, 0)
      {
        var k :| 0 <= k < |live| && live[k].buffptr == p;
        ring.SlotHolds(k);
        assert slots[ring.Slot(k)] == live[k];
      }
      forall j | 0 <= j < CAPACITY && slots[j].buffptr != NULL
        ensures slots[j].buffptr in Holders(live)
      {
        assert slots[j] == Item(live, ring.Age(j));
      }
    }

    lemma DistinctSlots()
      requires ring.Valid()
      requires forall j, k :: 0 <= j < k < |ring.live| ==> ring.live[j].buffptr != ring.live[k].buffptr
      ensures forall j, k :: 0 <= j < k < CAPACITY && ring.entry[j].buffptr != NULL ==>
                ring.entry[j].buffptr != ring.entry[k].buffptr
    {
      forall j, k | 0 <= j < k < CAPACITY && ring.entry[j].buffptr != NULL
        ensures ring.entry[j].buffptr != ring.entry[k].buffptr
      {
        assert ring.entry[j] == Item(ring.live, ring.Age(j));
        assert ring.entry[k] == Item(ring.live, ring.Age(k));
      }
    }

    // aesd_cleanup_module: AESD_CIRCULAR_BUFFER_FOREACH frees the payloads,
    // then the tail goes. Every block that is not a header is freed by now, and
    // by heap.Valid() no address was freed twice.
    method Cleanup()
      requires Valid()
      modifies this`partial, ring.entry, heap`blocks, heap`freed
      ensures heap.Valid() && heap.blocks.Keys == headers
      ensures old(heap.freed) <= heap.freed
      ensures GoneIsFreed(old(heap.blocks), heap.blocks, heap.freed)
      ensures partial == EMPTY
      ensures forall i :: 0 <= i < CAPACITY ==> ring.entry[i].buffptr == NULL
    {
      hide Consistent, PhysicalOwned, Heap.Valid, GoneIsFreed;
      SlotsHold();
      NothingGone(heap.blocks, heap.freed);
      for i := 0 to CAPACITY
        invariant heap.Valid() && old(heap.freed) <= heap.freed
        invariant PhysicalOwned(ring.entry[..], i, partial, headers, heap.blocks)
        invariant forall j :: 0 <= j < i ==> ring.entry[j].buffptr == NULL
        invariant GoneIsFreed(old(heap.blocks), heap.blocks, heap.freed)
      {
        CleanSlot(i, old(heap.blocks));
      }
      OnlyHeadersLeft(ring.entry[..], partial, headers, heap.blocks);
      if partial.buffptr != NULL {
        StillGoneIsFreed(old(heap.blocks), heap.blocks, heap.freed, partial.buffptr);
        heap.Kfree(partial.buffptr);
        partial := EMPTY;
      }
    }

    // The body of the loop over the slots.
    method CleanSlot(i: nat, ghost before: Blocks)
      requires i < CAPACITY == ring.entry.Length && heap.Valid()
      requires PhysicalOwned(ring.entry[..], i, partial, headers, heap.blocks)
      requires GoneIsFreed(before, heap.blocks, heap.freed)
      modifies ring.entry, heap`blocks, heap`freed
      ensures heap.Valid() && old(heap.freed) <= heap.freed
      ensures PhysicalOwned(ring.entry[..], i + 1, partial, headers, heap.blocks)
      ensures GoneIsFreed(before, heap.blocks, heap.freed)
      ensures ring.entry[i].buffptr == NULL
      ensures forall j :: 0 <= j < CAPACITY && j != i ==> ring.entry[j] == old(ring.entry[j])
    {
      hide PhysicalOwned, Heap.Valid, GoneIsFreed;
      ghost var slots := ring.entry[..];
      var p := ring.entry[i].buffptr;
      if p != NULL {
        FreeSlot(slots, i, partial, headers, heap.blocks);
        StillGoneIsFreed(before, heap.blocks, heap.freed, p);
        heap.Kfree(p);
        ring.entry[i] := Entry(NULL, ring.entry[i].size);
        assert ring.entry[..] == slots[i := Entry(NULL, slots[i].size)];
      } else {
        SkipSlot(slots, i, partial, headers, heap.blocks);
      }
    }

    // The part of aesd_write between taking and releasing the mutex: cut the
    // working buffer into lines, store each, keep the tail in partial.
    method StoreLines(buffer: Ptr, failingDup: Option<nat>) returns (ret: int)
      requires locked && Consistent({buffer}) && partial == EMPTY && buffer in heap.blocks
      modifies this`evicted, this`headers, this`partial, ring, ring.entry, heap
      ensures Consistent({buffer}) && buffer in heap.blocks
      ensures var h, c := old(Abstract()), Split(old(heap.blocks)[buffer]);
              if failingDup.Some? && failingDup.value < DupCalls(c) then
                && Abstract() == History(h.accepted + c.lines[..FirstK(c, failingDup.value)], "")
                && ret == if failingDup.value < |c.lines| then -EINVAL else -ENOMEM
              else
                Abstract() == History(h.accepted + c.lines, c.rest) && ret == 0
      ensures var c := Split(old(heap.blocks)[buffer]);
              Allocated(StoreHeaders(c, failingDup) + StoreDups(c, failingDup), StoreHeaders(c, failingDup))
    {
      hide Consistent, Abstract, Split, IndexOf;
      ghost var h := Abstract();
      ghost var s := heap.blocks[buffer];
      ghost var c := Split(s);
      var pos: nat, k: nat := 0, 0;
      var size: nat := |heap.blocks[buffer]|;
      assert s[0..] == s;
      assert h.accepted + c.lines[..0] == h.accepted;
      NoTail({buffer});
      var newline := IndexOf(heap.blocks[buffer], '\n');
      while size > 0 && newline < size
        invariant Consistent({buffer}) && partial == EMPTY
        invariant buffer in heap.blocks && heap.blocks[buffer] == s
        invariant pos + size == |s| && newline == IndexOf(s[pos..], '\n')
        invariant k <= |c.lines| && Split(s[pos..]) == Cut(c.lines[k..], c.rest)
        invariant Abstract() == History(h.accepted + c.lines[..k], "")
        invariant failingDup.Some? ==> k <= failingDup.value
        invariant Allocated(2 * k, k)
        decreases size
      {
        var line := heap.blocks[buffer][pos..pos + newline + 1];
        NextLine(s, pos, c, k);
        var ok := AddLine(line, failingDup == Some(k), {buffer});
        if !ok {
          return -EINVAL;
        }
        Assoc(h.accepted, c.lines[..k], [line]);
        assert c.lines[..k] + [line] == c.lines[..k + 1];
        pos, size, k := pos + newline + 1, size - (newline + 1), k + 1;
        newline := IndexOf(heap.blocks[buffer][pos..], '\n');
      }
      LastPiece(s, pos, c, k);
      ret := 0;
      if size > 0 {
        var rest := heap.blocks[buffer][pos..pos + size];
        assert rest == c.rest;
        var ok := SetPartial(rest, failingDup == Some(k), {buffer});
        if !ok {
          ret := -ENOMEM;
        }
      }
    }

    // The tail of a write is kept in a block of its own.
    method SetPartial(rest: string, dupFails: bool, ghost temp: set<Ptr>) returns (ok: bool)
      requires locked && Consistent(temp) && partial == EMPTY && rest != "" && NoNewline(rest)
      modifies this`partial, heap
      ensures Consistent(temp)
      ensures ok == !dupFails
      ensures Abstract() == old(Abstract()).(partial := if ok then rest else "")
      ensures forall t :: t in old(heap.blocks) ==> t in heap.blocks
      ensures Allocated(if ok then 1 else 0, 0)
    {
      hide Represents, HistoryOf, Heap.Valid, Ring.Valid;
      ghost var blocks := heap.blocks;
      NoTail(temp);
      var p := heap.Kmemdup(rest, dupFails);
      if p == NULL {
        return false;
      }
      SetTail(evicted, ring.live, temp + headers, blocks, p, rest);
      partial := Entry(p, |rest|);
      return true;
    }

    lemma NoTail(temp: set<Ptr>)
      requires Consistent(temp) && partial == EMPTY
      ensures Abstract().partial == ""
    {
    }
  }

  // size_t applied to a loff_t. Positions stay far below 2^63; a stored error
  // code is negative and lands far above every offset.
  function SizeT(x: int): (n: nat)
    ensures 0 <= x ==> n == x
    ensures -0x8000_0000_0000_0000 <= x < 0 ==> n >= 0x8000_0000_0000_0000
  {
    if x < 0 then x % 0x1_0000_0000_0000_0000 else x
  }

  // A negative value of a 64-bit loff_t.
  predicate IsErrorCode(x: int) {
    -0x8000_0000_0000_0000 <= x < 0
  }

  // fixed_size_llseek(f_pos, offset, whence, size)
  type LseekHelper = (int, int, int, int) -> int

  class OpenFile {
    const dev: Device
    var fPos: int

    constructor (dev: Device)
      ensures this.dev == dev && fPos == 0
    {
      this.dev := dev;
      fPos := 0;
    }

    // aesd_write, with faults saying which kernel call fails.
    method Write(buf: string, faults: Faults) returns (ret: int)
      requires dev.Valid()
      modifies this, dev, dev.ring, dev.ring.entry, dev.heap
      ensures dev.Valid()
      ensures dev.Abstract() == DeviceSpec.Write(old(dev.Abstract()), buf, faults).history
      ensures ret == DeviceSpec.Write(old(dev.Abstract()), buf, faults).ret
      ensures fPos == old(fPos) + if ret < 0 then 0 else |buf|
      ensures dev.Allocated(Allocs(old(dev.Abstract()), buf, faults), HeaderAllocs(old(dev.Abstract()), buf, faults))
    {
      hide Device.Consistent, Device.Abstract, Split, Absorb, Succeeds, StoreHeaders, StoreDups;
      ret := -ENOMEM;
      ghost var h := dev.Abstract();
      dev.PartialIsTail({});
      var buffer := dev.AllocBuffer(dev.partial.size + |buf|, faults.kmalloc);
      if buffer != NULL {
        var copied := dev.Gather(buffer, buf, faults.copyFromUser);
        if copied {
          dev.FreePartial(buffer);
          if faults.lock {
            ret := -ERESTARTSYS;
          } else {
            ret := WriteLocked(buffer, buf, faults, h);
          }
        }
        dev.FreeBuffer(buffer);
      }
    }

    // The part of aesd_write that holds the mutex; h is the history from before
    // the tail was moved into the working buffer.
    method WriteLocked(buffer: Ptr, buf: string, faults: Faults, ghost h: History) returns (ret: int)
      requires dev.Consistent({buffer}) && !dev.locked && dev.partial == EMPTY
      requires !faults.kmalloc && !faults.copyFromUser && !faults.lock
      requires buffer in dev.heap.blocks && dev.heap.blocks[buffer] == h.partial + buf
      requires dev.Abstract() == h.(partial := "")
      modifies this, dev, dev.ring, dev.ring.entry, dev.heap
      ensures dev.Consistent({buffer}) && !dev.locked
      ensures dev.Abstract() == DeviceSpec.Write(h, buf, faults).history
      ensures ret == DeviceSpec.Write(h, buf, faults).ret
      ensures fPos == old(fPos) + if ret < 0 then 0 else |buf|
      ensures dev.Allocated(Allocs(h, buf, faults) - 1, HeaderAllocs(h, buf, faults))
    {
      hide Device.Consistent, Device.Abstract, Split, StoreHeaders, StoreDups;
      dev.locked := true;
      ret := dev.StoreLines(buffer, faults.failingDup);
      if ret == 0 {
        fPos := fPos + |buf|;
        ret := |buf|;
      }
      dev.locked := false;
    }

    // aesd_read: data is what reaches the user's buffer.
    method Read(count: nat, copyFails: bool, lockFails: bool) returns (data: string, ret: int)
      requires dev.Valid()
      modifies this, dev`locked
      ensures dev.Valid() && dev.Abstract() == old(dev.Abstract())
      ensures var next := DeviceSpec.Read(dev.Abstract().Window(), SizeT(old(fPos)), count);
              if lockFails then data == "" && ret == -ERESTARTSYS
              else if copyFails && next != "" then data == "" && ret == -14
              else data == next && ret == |next|
      ensures !lockFails && IsErrorCode(old(fPos)) && |dev.Abstract().Bytes()| < 0x8000_0000_0000_0000
              ==> data == "" && ret == 0
      ensures fPos == old(fPos) + |data|
    {
      hide Device.Consistent, Device.Abstract, Flat, Locate, LastN, Ring.Valid;
      data := "";
      if lockFails {
        return "", -ERESTARTSYS;
      }
      dev.locked := true;
      dev.EntriesAreWindow();
      var slot, rtn, k := dev.ring.FindEntryOffset(SizeT(fPos));
      if |dev.Abstract().Bytes()| <= SizeT(fPos) {
        ReadAtEnd(dev.Abstract().Window(), SizeT(fPos), count);
      }
      if slot == CAPACITY {
        ret := 0;
      } else {
        dev.FoundInWindow(SizeT(fPos), slot, rtn, k);
        var entry := dev.ring.entry[slot];
        var n := if entry.size - rtn < count then entry.size - rtn else count;
        if n == 0 {
          ret := 0;
        } else if copyFails {
          ret := -EFAULT;
        } else {
          data := dev.heap.blocks[entry.buffptr][rtn..rtn + n];
          fPos := fPos + n;
          ret := n;
        }
      }
      dev.locked := false;
    }

    // aesd_llseek: the position is stored even when it is an error code.
    method Llseek(offset: int, whence: int, helper: LseekHelper, lockFails: bool) returns (ret: int)
      requires dev.Valid()
      modifies this, dev`locked
      ensures dev.Valid() && dev.Abstract() == old(dev.Abstract())
      ensures lockFails ==> ret == -ERESTARTSYS && fPos == old(fPos)
      ensures !lockFails ==> ret == helper(old(fPos), offset, whence, |dev.Abstract().Bytes()|) && fPos == ret
    {
      hide Device.Consistent, Device.Abstract, Flat, LastN;
      if lockFails {
        return -ERESTARTSYS;
      }
      dev.locked := true;
      dev.EntriesAreWindow();
      var total := 0;
      for i := 0 to CAPACITY
        invariant dev.ring.Valid() && total == Sum(dev.ring.entry[..], i)
      {
        total := total + dev.ring.entry[i].size;
      }
      dev.ring.PhysicalSum();
      ret := helper(fPos, offset, whence, total);
      fPos := ret;
      dev.locked := false;
    }

    // aesd_adjust_file_offset.
    method AdjustFileOffset(writeCmd: uint32, writeCmdOffset: uint32, lockFails: bool) returns (ret: int)
      requires dev.Valid()
      modifies this, dev`locked
      ensures dev.Valid() && dev.Abstract() == old(dev.Abstract())
      ensures var target := Seek(dev.Abstract().Window(), writeCmd, writeCmdOffset);
              if lockFails && writeCmd < CAPACITY then ret == -ERESTARTSYS && fPos == old(fPos)
              else match target
                case None => ret == -EINVAL && fPos == old(fPos)
                case Some(pos) => ret == 0 && fPos == pos
    {
      hide Device.Consistent, Device.Abstract, Flat, LastN, LineSize, LineStart, Ring.Valid;
      if writeCmd >= CAPACITY {
        return -EINVAL;
      }
      if lockFails {
        return -ERESTARTSYS;
      }
      dev.locked := true;
      ghost var w := dev.Abstract().Window();
      var pos := 0;
      dev.SlotIsLine(0);
      for i := 0 to writeCmd
        invariant pos == LineStart(w, i) && fPos == old(fPos)
      {
        dev.SlotIsLine(i);
        NextLineStart(w, i);
        pos := pos + dev.ring.entry[Wrap(dev.ring.outOffs + i)].size;
      }
      dev.SlotIsLine(writeCmd);
      if writeCmdOffset > dev.ring.entry[Wrap(dev.ring.outOffs + writeCmd)].size {
        dev.locked := false;
        return -EINVAL;
      }
      dev.locked := false;
      fPos := pos + writeCmdOffset;
      ret := 0;
    }
  }

  // A run of writes on one open file is the run of its history, and allocates
  // what that run allocates.
  method WriteAll(file: OpenFile, ops: seq<WriteOp>)
    requires file.dev.Valid()
    modifies file, file.dev, file.dev.ring, file.dev.ring.entry, file.dev.heap
    ensures file.dev.Valid()
    ensures file.dev.Abstract() == RunWrites(old(file.dev.Abstract()), ops)
    ensures file.fPos == old(file.fPos) + Advance(old(file.dev.Abstract()), ops)
    ensures file.dev.Allocated(RunAllocs(old(file.dev.Abstract()), ops), RunHeaderAllocs(old(file.dev.Abstract()), ops))
    decreases |ops|
  {
    hide Device.Valid, Device.Abstract, Split, Allocs, HeaderAllocs;
    if ops != [] {
      var ret := file.Write(ops[0].buf, ops[0].faults);
      WriteAll(file, ops[1..]);
    }
  }

  // The module's life: whatever is written and whichever calls fail, at unload
  // every payload and working buffer of the run has been freed, each exactly
  // once, and what is left allocated is one header per line accepted and one
  // per write that returned -EINVAL.
  method Lifetime(ops: seq<WriteOp>) returns (heap: Heap, ghost headers: set<Ptr>)
    ensures heap.next - 1 == RunAllocs(FRESH, ops)
    ensures heap.blocks.Keys == headers && |headers| == RunHeaderAllocs(FRESH, ops)
    ensures |headers| == |RunWrites(FRESH, ops).accepted| + InvalidReturns(FRESH, ops)
    ensures |heap.freed| == RunAllocs(FRESH, ops) - RunHeaderAllocs(FRESH, ops)
    ensures forall p :: NULL < p < heap.next && p !in headers ==> p in heap.freed
    ensures forall p :: p in heap.freed ==> NULL < p < heap.next && p !in headers
    ensures forall i, j :: 0 <= i < j < |heap.freed| ==> heap.freed[i] != heap.freed[j]
  {
    hide RunAllocs, RunHeaderAllocs, RunWrites, Split, Heap.Valid, Device.Consistent, Device.Abstract;
    var dev := new Device();
    var file := new OpenFile(dev);
    WriteAll(file, ops);
    dev.Cleanup();
    heap, headers := dev.heap, dev.headers;
    heap.Accounts(headers);
    HeadersPerLine(FRESH, ops);
  }

  ghost function FirstK(c: Cut, k: nat): nat {
    if k < |c.lines| then k else |c.lines|
  }

  // One step of the scan: the next piece is the k-th line of the cut.
  lemma NextLine(s: string, pos: nat, c: Cut, k: nat)
    requires pos <= |s| && k <= |c.lines|
    requires Split(s[pos..]) == Cut(c.lines[k..], c.rest)
    requires IndexOf(s[pos..], '\n') < |s| - pos
    ensures var n := IndexOf(s[pos..], '\n') + 1;
            && k < |c.lines| && s[pos..pos + n] == c.lines[k] && IsLine(c.lines[k])
            && Split(s[pos + n..]) == Cut(c.lines[k + 1..], c.rest)
  {
    hide Split, IndexOf, IsLine;
    var n := IndexOf(s[pos..], '\n') + 1;
    SliceOfDrop(s, pos, n);
    SplitHead(s[pos..]);
    SliceOfDrop(c.lines, k, 1);
    assert c.lines[k..][0] == c.lines[k];
  }

  // The end of the scan: all lines are stored and the tail is left.
  lemma LastPiece(s: string, pos: nat, c: Cut, k: nat)
    requires pos <= |s| && k <= |c.lines|
    requires Split(s[pos..]) == Cut(c.lines[k..], c.rest)
    requires IndexOf(s[pos..], '\n') == |s| - pos
    ensures k == |c.lines| && c.lines[..k] == c.lines && c.rest == s[pos..] == s[pos..|s|]
    ensures NoNewline(c.rest)
  {
  }
}
