// Who holds which allocated block. Pure facts about the ring's entries, the
// partial entry and the contents of the heap.
module DeviceMemory {
  import opened Lines
  import opened KernelHeap
  import opened CircularBuffer
  import opened DeviceSpec

  type Blocks = map<Ptr, string>

  ghost predicate Holds(e: Entry, blocks: Blocks) {
    e.buffptr != NULL && e.buffptr in blocks && |blocks[e.buffptr]| == e.size
  }

  ghost function Holders(live: seq<Entry>): set<Ptr> {
    set i | 0 <= i < |live| :: live[i].buffptr
  }

  ghost function PartialHolder(partial: Entry): set<Ptr> {
    if partial.buffptr == NULL then {} else {partial.buffptr}
  }

  // Every allocated block is held by exactly one slot, or by partial, or is a
  // temporary of the running call; every entry describes its block.
  ghost predicate Owned(live: seq<Entry>, partial: Entry, temp: set<Ptr>, blocks: Blocks) {
    && (forall i :: 0 <= i < |live| ==> Holds(live[i], blocks))
    && (forall i, j :: 0 <= i < j < |live| ==> live[i].buffptr != live[j].buffptr)
    && (partial == EMPTY || (Holds(partial, blocks) && partial.size > 0))
    && Holders(live) !! PartialHolder(partial) !! temp
    && blocks.Keys == Holders(live) + PartialHolder(partial) + temp
  }

  ghost function Payload(e: Entry, blocks: Blocks): string {
    if e.buffptr in blocks then blocks[e.buffptr] else ""
  }

  // The payloads of a run of entries.
  ghost function Payloads(live: seq<Entry>, blocks: Blocks): (r: seq<string>)
    ensures |r| == |live|
  {
    seq(|live|, i requires 0 <= i < |live| => Payload(live[i], blocks))
  }

  // Blocks that come and go without belonging to an entry change no payload.
  lemma SamePayloads(live: seq<Entry>, a: Blocks, b: Blocks)
    requires forall i :: 0 <= i < |live| ==> Holds(live[i], a)
    requires forall p :: p in Holders(live) ==> p in a && p in b && b[p] == a[p]
    ensures forall i :: 0 <= i < |live| ==> Holds(live[i], b)
    ensures Payloads(live, b) == Payloads(live, a)
  {
    forall i | 0 <= i < |live| ensures live[i].buffptr in Holders(live) {
    }
  }

  // Appending a freshly allocated line.
  lemma AppendOwned(live: seq<Entry>, temp: set<Ptr>, blocks: Blocks, p: Ptr, line: string)
    requires Owned(live, EMPTY, temp, blocks)
    requires p != NULL && p !in blocks
    ensures var live', blocks' := live + [Entry(p, |line|)], blocks[p := line];
            && Owned(live', EMPTY, temp, blocks')
            && Payloads(live', blocks') == Payloads(live, blocks) + [line]
  {
    var live', blocks' := live + [Entry(p, |line|)], blocks[p := line];
    assert Holders(live') == Holders(live) + {p} by {
      assert live'[|live|].buffptr == p;
      assert forall i :: 0 <= i < |live| ==> live'[i].buffptr == live[i].buffptr;
    }
    SamePayloads(live, blocks, blocks');
    assert forall i :: 0 <= i < |live| ==> live[i].buffptr in Holders(live);
  }

  lemma HoldersCons(live: seq<Entry>)
    requires |live| > 0
    ensures Holders(live) == Holders(live[1..]) + {live[0].buffptr}
  {
    var rest := live[1..];
    assert forall i :: 0 <= i < |rest| ==> rest[i] == live[i + 1];
    forall p | p in Holders(live)
      ensures p in Holders(rest) + {live[0].buffptr}
    {
      var i :| 0 <= i < |live| && live[i].buffptr == p;
      if i > 0 {
        assert rest[i - 1].buffptr == p;
      }
    }
  }

  // Dropping the oldest entry and freeing its payload.
  lemma EvictOwned(live: seq<Entry>, temp: set<Ptr>, blocks: Blocks)
    requires Owned(live, EMPTY, temp, blocks) && |live| > 0
    ensures var blocks' := blocks - {live[0].buffptr};
            && Owned(live[1..], EMPTY, temp, blocks')
            && Payloads(live[1..], blocks') == Payloads(live, blocks)[1..]
  {
    var rest, blocks' := live[1..], blocks - {live[0].buffptr};
    HoldersCons(live);
    assert forall i :: 0 <= i < |rest| ==> rest[i] == live[i + 1];
    assert live[0].buffptr !in Holders(rest) by {
      hide Holds;
    }
    assert blocks'.Keys == Holders(rest) + temp by {
      hide Holds;
      assert live[0].buffptr in Holders(live);
    }
  }

  // What the device's state means: overwritten lines, stored lines, tail.
  ghost function HistoryOf(evicted: seq<string>, live: seq<Entry>, partial: Entry, blocks: Blocks): History {
    History(evicted + Payloads(live, blocks), if partial == EMPTY then "" else Payload(partial, blocks))
  }

  // The representation invariant, the blocks in temp being held by the
  // running call.
  ghost predicate Represents(evicted: seq<string>, live: seq<Entry>, partial: Entry, temp: set<Ptr>, blocks: Blocks) {
    && Owned(live, partial, temp, blocks)
    && |live| <= CAPACITY
    && (evicted != [] ==> |live| == CAPACITY)
    && HistoryOf(evicted, live, partial, blocks).WellShaped()
  }

  lemma FreshMemory()
    ensures Represents([], [], EMPTY, {} + {}, map[])
    ensures HistoryOf([], [], EMPTY, map[]) == FRESH
  {
    assert [] + Payloads([], map[]) == [];
  }

  // What storing one line does to the heap: the block of the overwritten
  // entry, if there is one, is gone.
  function BlocksAfter(live: seq<Entry>, blocks: Blocks, p: Ptr, line: string): Blocks {
    if |live| == CAPACITY then blocks[p := line] - {live[0].buffptr} else blocks[p := line]
  }

  function EvictedBy(live: seq<Entry>, blocks: Blocks): seq<string> {
    if |live| == CAPACITY && live[0].buffptr in blocks then [blocks[live[0].buffptr]] else []
  }

  lemma StoreOwned(live: seq<Entry>, temp: set<Ptr>, blocks: Blocks, p: Ptr, line: string)
    requires Owned(live, EMPTY, temp, blocks) && |live| <= CAPACITY
    requires p != NULL && p !in blocks
    ensures var live', blocks' := LastN(live + [Entry(p, |line|)]), BlocksAfter(live, blocks, p, line);
            && Owned(live', EMPTY, temp, blocks')
            && EvictedBy(live, blocks) + Payloads(live', blocks') == Payloads(live, blocks) + [line]
            && forall t :: t in temp ==> t in blocks' && blocks'[t] == blocks[t]
  {
    var e := Entry(p, |line|);
    AppendOwned(live, temp, blocks, p, line);
    if |live| == CAPACITY {
      var all := Payloads(live + [e], blocks[p := line]);
      EvictOwned(live + [e], temp, blocks[p := line]);
      assert live[0].buffptr in Holders(live);
      assert [all[0]] + all[1..] == all;
    }
  }

  // Storing one line: the invariant is kept and the history grows by the line.
  lemma StoreLine(evicted: seq<string>, live: seq<Entry>, temp: set<Ptr>, blocks: Blocks, p: Ptr, line: string)
    requires Represents(evicted, live, EMPTY, temp, blocks) && IsLine(line)
    requires p != NULL && p !in blocks
    ensures var evicted', live', blocks' := evicted + EvictedBy(live, blocks),
                                            LastN(live + [Entry(p, |line|)]),
                                            BlocksAfter(live, blocks, p, line);
            && Represents(evicted', live', EMPTY, temp, blocks')
            && HistoryOf(evicted', live', EMPTY, blocks')
               == History(HistoryOf(evicted, live, EMPTY, blocks).accepted + [line], "")
            && (|live| == CAPACITY ==> live[0].buffptr != NULL && live[0].buffptr in blocks)
            && forall t :: t in temp ==> t in blocks' && blocks'[t] == blocks[t]
  {
    StoreOwned(live, temp, blocks, p, line);
    var live', blocks' := LastN(live + [Entry(p, |line|)]), BlocksAfter(live, blocks, p, line);
    Assoc(evicted, EvictedBy(live, blocks), Payloads(live', blocks'));
    Assoc(evicted, Payloads(live, blocks), [line]);
  }

  // The remaining steps of a write, each with what it does to the invariant
  // and to the history: take a temporary block, fill it, give it back, free
  // the old tail, set the new tail.

  lemma TakeTemp(evicted: seq<string>, live: seq<Entry>, partial: Entry, temp: set<Ptr>, blocks: Blocks, t: Ptr, s: string)
    requires Represents(evicted, live, partial, temp, blocks)
    requires t != NULL && t !in blocks
    ensures t !in temp && Represents(evicted, live, partial, temp + {t}, blocks[t := s])
    ensures HistoryOf(evicted, live, partial, blocks[t := s]) == HistoryOf(evicted, live, partial, blocks)
  {
    SamePayloads(live, blocks, blocks[t := s]);
  }

  lemma FillTemp(evicted: seq<string>, live: seq<Entry>, partial: Entry, temp: set<Ptr>, blocks: Blocks, t: Ptr, s: string)
    requires Represents(evicted, live, partial, temp, blocks) && t in temp
    ensures Represents(evicted, live, partial, temp, blocks[t := s])
    ensures HistoryOf(evicted, live, partial, blocks[t := s]) == HistoryOf(evicted, live, partial, blocks)
  {
    SamePayloads(live, blocks, blocks[t := s]);
  }

  lemma GiveBackTemp(evicted: seq<string>, live: seq<Entry>, partial: Entry, temp: set<Ptr>, blocks: Blocks, t: Ptr)
    requires Represents(evicted, live, partial, temp, blocks) && t in temp
    ensures t in blocks
    ensures Represents(evicted, live, partial, temp - {t}, blocks - {t})
    ensures HistoryOf(evicted, live, partial, blocks - {t}) == HistoryOf(evicted, live, partial, blocks)
  {
    SamePayloads(live, blocks, blocks - {t});
  }

  lemma DropTail(evicted: seq<string>, live: seq<Entry>, partial: Entry, temp: set<Ptr>, blocks: Blocks)
    requires Represents(evicted, live, partial, temp, blocks) && partial != EMPTY
    ensures partial.buffptr != NULL && partial.buffptr in blocks && partial.buffptr !in temp
    ensures Represents(evicted, live, EMPTY, temp, blocks - {partial.buffptr})
    ensures HistoryOf(evicted, live, EMPTY, blocks - {partial.buffptr})
            == HistoryOf(evicted, live, partial, blocks).(partial := "")
  {
    SamePayloads(live, blocks, blocks - {partial.buffptr});
  }

  lemma SetTail(evicted: seq<string>, live: seq<Entry>, temp: set<Ptr>, blocks: Blocks, p: Ptr, rest: string)
    requires Represents(evicted, live, EMPTY, temp, blocks)
    requires p != NULL && p !in blocks && rest != "" && NoNewline(rest)
    ensures Represents(evicted, live, Entry(p, |rest|), temp, blocks[p := rest])
    ensures HistoryOf(evicted, live, Entry(p, |rest|), blocks[p := rest])
            == HistoryOf(evicted, live, EMPTY, blocks).(partial := rest)
  {
    SamePayloads(live, blocks, blocks[p := rest]);
  }

  // What the partial entry says about the tail.
  lemma TailEntry(evicted: seq<string>, live: seq<Entry>, partial: Entry, temp: set<Ptr>, blocks: Blocks)
    requires Represents(evicted, live, partial, temp, blocks)
    ensures partial.buffptr == NULL <==> partial.size == 0
    ensures partial.buffptr == NULL <==> partial == EMPTY
    ensures partial != EMPTY ==> partial.buffptr in blocks && partial.buffptr !in temp
    ensures HistoryOf(evicted, live, partial, blocks).partial
            == if partial == EMPTY then "" else blocks[partial.buffptr]
    ensures partial.size == |HistoryOf(evicted, live, partial, blocks).partial|
    ensures HistoryOf(evicted, live, partial, blocks).WellShaped()
  {
  }

  // What the entries say about the window: sizes are line lengths, and sums of
  // sizes are positions in the flat file.
  lemma WindowIsStored(evicted: seq<string>, live: seq<Entry>, partial: Entry, temp: set<Ptr>, blocks: Blocks)
    requires Represents(evicted, live, partial, temp, blocks)
    ensures HistoryOf(evicted, live, partial, blocks).Window() == Payloads(live, blocks)
    ensures AllLines(Payloads(live, blocks))
    ensures forall i :: 0 <= i < |live| ==> Holds(live[i], blocks)
  {
    var w, acc := Payloads(live, blocks), HistoryOf(evicted, live, partial, blocks).accepted;
    assert acc == evicted + w;
    forall i | 0 <= i < |w| ensures IsLine(w[i]) {
      assert w[i] == acc[|evicted| + i];
    }
  }

  lemma {:induction false} SumIsStart(live: seq<Entry>, blocks: Blocks, k: nat)
    requires forall i :: 0 <= i < |live| ==> Holds(live[i], blocks)
    requires k <= |live|
    ensures Sum(live, k) == LineStart(Payloads(live, blocks), k)
  {
    if k == 0 {
      assert Payloads(live, blocks)[..0] == [];
    } else {
      SumIsStart(live, blocks, k - 1);
      NextLineStart(Payloads(live, blocks), k - 1);
    }
  }

  lemma SumIsLength(live: seq<Entry>, blocks: Blocks)
    requires forall i :: 0 <= i < |live| ==> Holds(live[i], blocks)
    ensures Sum(live, |live|) == |Flat(Payloads(live, blocks))|
  {
    SumIsStart(live, blocks, |live|);
    var w := Payloads(live, blocks);
    assert w[..|live|] == w;
  }

  // What the ring's lookup finds is what Locate finds.
  lemma FoundIsLocated(live: seq<Entry>, blocks: Blocks, pos: nat, k: nat, b: nat)
    requires forall i :: 0 <= i < |live| ==> Holds(live[i], blocks)
    requires k < |live| && b < live[k].size && Sum(live, k) + b == pos
    ensures Locate(Payloads(live, blocks), pos) == Some(Place(k, b))
    ensures Payloads(live, blocks)[k] == blocks[live[k].buffptr]
  {
    SumIsStart(live, blocks, k);
    LocateExact(Payloads(live, blocks), pos, k, b);
  }

  // The same ownership slot by slot, as cleanup meets it: the blocks are those
  // of the slots from number from on, of partial, and the headers.

  ghost function SlotPtrs(slots: seq<Entry>, from: nat): set<Ptr> {
    set j | from <= j < |slots| && slots[j].buffptr != NULL :: slots[j].buffptr
  }

  ghost predicate PhysicalOwned(slots: seq<Entry>, from: nat, partial: Entry, headers: set<Ptr>, blocks: Blocks) {
    && (forall j, k :: from <= j < k < |slots| && slots[j].buffptr != NULL ==> slots[j].buffptr != slots[k].buffptr)
    && (partial.buffptr == NULL ==> partial == EMPTY)
    && SlotPtrs(slots, from) !! PartialHolder(partial) !! headers
    && blocks.Keys == SlotPtrs(slots, from) + PartialHolder(partial) + headers
  }

  lemma FreeSlot(slots: seq<Entry>, i: nat, partial: Entry, headers: set<Ptr>, blocks: Blocks)
    requires i < |slots| && slots[i].buffptr != NULL
    requires PhysicalOwned(slots, i, partial, headers, blocks)
    ensures slots[i].buffptr in blocks
    ensures PhysicalOwned(slots[i := Entry(NULL, slots[i].size)], i + 1, partial, headers, blocks - {slots[i].buffptr})
  {
    var slots' := slots[i := Entry(NULL, slots[i].size)];
    assert slots[i].buffptr in SlotPtrs(slots, i);
    assert forall j :: i < j < |slots| ==> slots'[j] == slots[j];
    assert SlotPtrs(slots', i + 1) == SlotPtrs(slots, i) - {slots[i].buffptr};
  }

  lemma SkipSlot(slots: seq<Entry>, i: nat, partial: Entry, headers: set<Ptr>, blocks: Blocks)
    requires i < |slots| && slots[i].buffptr == NULL
    requires PhysicalOwned(slots, i, partial, headers, blocks)
    ensures PhysicalOwned(slots, i + 1, partial, headers, blocks)
  {
    assert SlotPtrs(slots, i + 1) == SlotPtrs(slots, i);
  }

  lemma OnlyHeadersLeft(slots: seq<Entry>, partial: Entry, headers: set<Ptr>, blocks: Blocks)
    requires PhysicalOwned(slots, |slots|, partial, headers, blocks)
    ensures partial.buffptr == NULL ==> partial == EMPTY && blocks.Keys == headers
    ensures partial.buffptr != NULL ==>
              partial.buffptr in blocks && (blocks - {partial.buffptr}).Keys == headers
  {
    assert SlotPtrs(slots, |slots|) == {};
  }

  // Every block of before that is not live any more has been freed.
  ghost predicate GoneIsFreed(before: Blocks, now: Blocks, freed: seq<Ptr>) {
    forall p :: p in before ==> p in now || p in freed
  }

  lemma NothingGone(blocks: Blocks, freed: seq<Ptr>)
    ensures GoneIsFreed(blocks, blocks, freed)
  {
  }

  lemma StillGoneIsFreed(before: Blocks, now: Blocks, freed: seq<Ptr>, p: Ptr)
    requires GoneIsFreed(before, now, freed)
    ensures GoneIsFreed(before, now - {p}, freed + [p])
  {
  }
}
