// The aesdchar device as a simple object: all lines ever accepted, of which
// the newest CAPACITY are readable, and the unterminated tail of the stream.
module DeviceSpec {
  import opened Lines

  datatype Option<+T> = None | Some(value: T)

  type uint32 = x: int | 0 <= x < 0x1_0000_0000

  const ENOMEM := 12
  const EFAULT := 14
  const EINVAL := 22
  const ERESTARTSYS := 512

  datatype History = History(accepted: seq<string>, partial: string) {
    function Window(): seq<string> {
      LastN(accepted)
    }

    function Evicted(): seq<string> {
      accepted[..|accepted| - |Window()|]
    }

    // The device read as one flat file.
    function Bytes(): string {
      Flat(Window())
    }

    ghost predicate WellShaped() {
      AllLines(accepted) && NoNewline(partial)
    }
  }

  const FRESH := History([], "")

  // ---------------------------------------------------------------- writing

  // What goes wrong during one write: kmalloc, copy_from_user, the mutex, or
  // the failingDup-th call of kmemdup (one call per line, one for the tail).
  datatype Faults = Faults(kmalloc: bool, copyFromUser: bool, lock: bool, failingDup: Option<nat>)

  const NO_FAULTS := Faults(false, false, false, None)

  datatype Written = Written(history: History, ret: int)

  // The history after s has been accepted whole.
  function Absorb(h: History, s: string): History {
    var c := Split(h.partial + s);
    History(h.accepted + c.lines, c.rest)
  }

  // Number of kmemdup calls a write makes when none of them fails.
  function DupCalls(c: Cut): nat {
    |c.lines| + if c.rest == "" then 0 else 1
  }

  predicate Succeeds(h: History, buf: string, f: Faults) {
    && !f.kmalloc && !f.copyFromUser && !f.lock
    && (f.failingDup.Some? ==> f.failingDup.value >= DupCalls(Split(h.partial + buf)))
  }

  function Write(h: History, buf: string, f: Faults): Written {
    if f.kmalloc || f.copyFromUser then Written(h, -ENOMEM)
    else if f.lock then Written(h.(partial := ""), -ERESTARTSYS)
    else if Succeeds(h, buf, f) then Written(Absorb(h, buf), |buf|)
    else
      var c := Split(h.partial + buf);
      var k := f.failingDup.value;
      Written(History(h.accepted + c.lines[..k], ""), if k < |c.lines| then -EINVAL else -ENOMEM)
  }

  // The bytes a failing write drops: always a suffix of the pending stream.
  function Lost(h: History, buf: string, f: Faults): string {
    var c := Split(h.partial + buf);
    if f.kmalloc || f.copyFromUser then buf
    else if f.lock then h.partial + buf
    else if Succeeds(h, buf, f) then ""
    else Flat(c.lines[f.failingDup.value..]) + c.rest
  }

  // Which lines a write stores, which tail it leaves and what it returns, for
  // each way it can fail. With lines and a tail to store, the failing call of
  // kmemdup may be that for a line, that for the tail, or none of them.
  lemma {:induction false} WriteReturns(h: History, buf: string, f: Faults, lines: seq<string>, rest: string)
    requires AllLines(lines) && NoNewline(rest) && h.partial + buf == Flat(lines) + rest
    ensures Write(h, buf, f) ==
            if f.kmalloc || f.copyFromUser then Written(h, -12)
            else if f.lock then Written(History(h.accepted, ""), -512)
            else match f.failingDup
              case None => Written(History(h.accepted + lines, rest), |buf|)
              case Some(k) =>
                if k < |lines| then Written(History(h.accepted + lines[..k], ""), -22)
                else if k == |lines| && rest != "" then Written(History(h.accepted + lines, ""), -12)
                else Written(History(h.accepted + lines, rest), |buf|)
    ensures Succeeds(h, buf, f) <==> Write(h, buf, f).ret >= 0
  {
    hide Split;
    SplitUnique(lines, rest);
    assert lines[..|lines|] == lines;
  }

  // Every return path keeps lines whole and the tail free of newlines.
  lemma {:induction false} WriteKeepsShape(h: History, buf: string, f: Faults)
    requires h.WellShaped()
    ensures Write(h, buf, f).history.WellShaped()
  {
    SplitSound(h.partial + buf);
  }

  // Storing the first k lines of a cut moves them from the stream to the end
  // of the history.
  lemma StoreFirst(accepted: seq<string>, c: Cut, k: nat)
    requires k <= |c.lines|
    ensures Flat(accepted + c.lines[..k]) + (Flat(c.lines[k..]) + c.rest)
            == Flat(accepted) + (Flat(c.lines) + c.rest)
  {
    FlatAppend(accepted, c.lines[..k]);
    FlatCut(c.lines, k);
    Assoc(Flat(c.lines[..k]), Flat(c.lines[k..]), c.rest);
    Assoc(Flat(accepted), Flat(c.lines[..k]), Flat(c.lines[k..]) + c.rest);
  }

  lemma StoreAll(accepted: seq<string>, c: Cut)
    ensures Flat(accepted + c.lines) + c.rest == Flat(accepted) + (Flat(c.lines) + c.rest)
  {
    FlatAppend(accepted, c.lines);
    Assoc(Flat(accepted), Flat(c.lines), c.rest);
  }

  // On every return path the bytes kept and the bytes lost are exactly the
  // bytes there were and the bytes given, in order.
  lemma {:induction false} WriteConserves(h: History, buf: string, f: Faults)
    ensures var g := Write(h, buf, f).history;
            Flat(g.accepted) + (g.partial + Lost(h, buf, f)) == Flat(h.accepted) + (h.partial + buf)
    ensures Succeeds(h, buf, f) ==> Lost(h, buf, f) == ""
  {
    var s := h.partial + buf;
    var g := Write(h, buf, f).history;
    var lost := Lost(h, buf, f);
    if f.kmalloc || f.copyFromUser {
    } else if f.lock {
      assert g.partial + lost == s;
    } else {
      SplitSound(s);
      if Succeeds(h, buf, f) {
        StoreAll(h.accepted, Split(s));
        assert g.partial + lost == g.partial;
      } else {
        StoreFirst(h.accepted, Split(s), f.failingDup.value);
        assert g.partial + lost == lost;
      }
    }
  }

  // A failed write is not atomic in general. It leaves the device as it was
  // exactly when it stops before `partial` is freed, or when there was no
  // tail to lose and no line had been stored.
  lemma {:induction false} FailedWriteAtomicIff(h: History, buf: string, f: Faults)
    requires !Succeeds(h, buf, f)
    ensures Write(h, buf, f).ret < 0
    ensures Write(h, buf, f).history == h <==>
            || f.kmalloc
            || f.copyFromUser
            || (h.partial == "" && (f.lock || f.failingDup == Some(0)))
  {
    if !f.kmalloc && !f.copyFromUser && !f.lock {
      var k := f.failingDup.value;
      assert |Write(h, buf, f).history.accepted| == |h.accepted| + k;
    }
  }

  lemma FailedWriteLosesTail()
    ensures var h := History([], "a");
            Write(h, "b\n", NO_FAULTS.(lock := true)) == Written(FRESH, -ERESTARTSYS)
  {
  }

  // What a caller can check: writes of buf are atomic, whatever fails, exactly
  // when the device holds no tail and the write stores at most one piece.
  lemma {:induction false} AtomicWhateverFails(h: History, buf: string)
    ensures (forall f :: !Succeeds(h, buf, f) ==> Write(h, buf, f).history == h)
            <==> h.partial == "" && DupCalls(Split(h.partial + buf)) <= 1
  {
    var locked, second := NO_FAULTS.(lock := true), NO_FAULTS.(failingDup := Some(1));
    if h.partial != "" {
      assert !Succeeds(h, buf, locked) && Write(h, buf, locked).history != h;
    } else if DupCalls(Split(h.partial + buf)) > 1 {
      assert !Succeeds(h, buf, second);
      assert |Write(h, buf, second).history.accepted| == |h.accepted| + 1;
    } else {
      forall f | !Succeeds(h, buf, f)
        ensures Write(h, buf, f).history == h
      {
        FailedWriteAtomicIff(h, buf, f);
      }
    }
  }

  // What a successful write does to the window needs the window only.
  lemma {:induction false} WindowAfterWrite(h: History, buf: string, f: Faults)
    requires Succeeds(h, buf, f)
    ensures Write(h, buf, f).history.Window() == LastN(h.Window() + Split(h.partial + buf).lines)
  {
    LastNAbsorb(h.accepted, Split(h.partial + buf).lines);
  }

  // ------------------------------------------------------------- allocation

  // Header blocks allocated while a cut is stored: one per line begun.
  function StoreHeaders(c: Cut, failingDup: Option<nat>): nat {
    if failingDup.Some? && failingDup.value < |c.lines| then failingDup.value + 1 else |c.lines|
  }

  // Calls of kmemdup that succeed while a cut is stored.
  function StoreDups(c: Cut, failingDup: Option<nat>): nat {
    if failingDup.Some? && failingDup.value < DupCalls(c) then failingDup.value else DupCalls(c)
  }

  function HeaderAllocs(h: History, buf: string, f: Faults): nat {
    if f.kmalloc || f.copyFromUser || f.lock then 0
    else StoreHeaders(Split(h.partial + buf), f.failingDup)
  }

  // All blocks a write allocates: the working buffer, headers and payloads.
  function Allocs(h: History, buf: string, f: Faults): nat {
    if f.kmalloc then 0
    else if f.copyFromUser || f.lock then 1
    else 1 + HeaderAllocs(h, buf, f) + StoreDups(Split(h.partial + buf), f.failingDup)
  }

  // Every write that gets its working buffer frees it again; a line costs a
  // header and a payload, and the header is allocated first.
  lemma {:induction false} WriteAllocates(h: History, buf: string, f: Faults, lines: seq<string>, rest: string)
    requires AllLines(lines) && NoNewline(rest) && h.partial + buf == Flat(lines) + rest
    ensures Allocs(h, buf, f) ==
            if f.kmalloc then 0
            else if f.copyFromUser || f.lock then 1
            else if f.failingDup.Some? && f.failingDup.value < |lines| then 2 + 2 * f.failingDup.value
            else if rest != "" && f.failingDup != Some(|lines|) then 2 + 2 * |lines|
            else 1 + 2 * |lines|
  {
    hide Split;
    SplitUnique(lines, rest);
  }

  datatype WriteOp = WriteOp(buf: string, faults: Faults)

  function RunWrites(h: History, ops: seq<WriteOp>): History
    decreases |ops|
  {
    if ops == [] then h
    else RunWrites(Write(h, ops[0].buf, ops[0].faults).history, ops[1..])
  }

  predicate AllSucceed(h: History, ops: seq<WriteOp>)
    decreases |ops|
  {
    ops == [] ||
    (Succeeds(h, ops[0].buf, ops[0].faults) &&
     AllSucceed(Write(h, ops[0].buf, ops[0].faults).history, ops[1..]))
  }

  function Stream(ops: seq<WriteOp>): string {
    if ops == [] then "" else ops[0].buf + Stream(ops[1..])
  }

  function RunHeaderAllocs(h: History, ops: seq<WriteOp>): nat
    decreases |ops|
  {
    if ops == [] then 0
    else HeaderAllocs(h, ops[0].buf, ops[0].faults)
         + RunHeaderAllocs(Write(h, ops[0].buf, ops[0].faults).history, ops[1..])
  }

  // Writes of a run that return -EINVAL: those in which the copy of a line fails.
  function InvalidReturns(h: History, ops: seq<WriteOp>): nat
    decreases |ops|
  {
    if ops == [] then 0
    else
      var w := Write(h, ops[0].buf, ops[0].faults);
      (if w.ret == -EINVAL then 1 else 0) + InvalidReturns(w.history, ops[1..])
  }

  // The headers a run allocates: one for every line it adds, and one more for
  // every write that returns -EINVAL, which a run of successes has none of.
  lemma {:induction false} HeadersPerLine(h: History, ops: seq<WriteOp>)
    ensures |RunWrites(h, ops).accepted| >= |h.accepted|
    ensures RunHeaderAllocs(h, ops) == |RunWrites(h, ops).accepted| - |h.accepted| + InvalidReturns(h, ops)
    ensures AllSucceed(h, ops) ==> InvalidReturns(h, ops) == 0
    decreases |ops|
  {
    hide Split;
    if ops != [] {
      HeadersPerLine(Write(h, ops[0].buf, ops[0].faults).history, ops[1..]);
    }
  }

  function RunAllocs(h: History, ops: seq<WriteOp>): nat
    decreases |ops|
  {
    if ops == [] then 0
    else Allocs(h, ops[0].buf, ops[0].faults)
         + RunAllocs(Write(h, ops[0].buf, ops[0].faults).history, ops[1..])
  }

  // Writes of a run after which there is a tail.
  function TailsLeft(h: History, ops: seq<WriteOp>): nat
    decreases |ops|
  {
    if ops == [] then 0
    else
      var g := Write(h, ops[0].buf, ops[0].faults).history;
      (if g.partial != "" then 1 else 0) + TailsLeft(g, ops[1..])
  }

  // A run of successful writes allocates a working buffer for every write, a
  // header and a payload for every line, and a block for every tail left.
  lemma {:induction false} BlocksOfSuccesses(h: History, ops: seq<WriteOp>)
    requires AllSucceed(h, ops)
    ensures |RunWrites(h, ops).accepted| >= |h.accepted|
    ensures RunAllocs(h, ops)
            == |ops| + 2 * (|RunWrites(h, ops).accepted| - |h.accepted|) + TailsLeft(h, ops)
    decreases |ops|
  {
    hide Split;
    if ops != [] {
      BlocksOfSuccesses(Write(h, ops[0].buf, ops[0].faults).history, ops[1..]);
    }
  }

  // How far successful writes move the file position.
  function Advance(h: History, ops: seq<WriteOp>): int
    decreases |ops|
  {
    if ops == [] then 0
    else
      var w := Write(h, ops[0].buf, ops[0].faults);
      (if w.ret < 0 then 0 else w.ret) + Advance(w.history, ops[1..])
  }

  // Runs are done in order: a longer run continues where a shorter one ends.
  lemma {:induction false} RunsCompose(h: History, a: seq<WriteOp>, b: seq<WriteOp>)
    ensures RunWrites(h, a + b) == RunWrites(RunWrites(h, a), b)
    ensures Stream(a + b) == Stream(a) + Stream(b)
    ensures b != [] ==> RunWrites(h, b[..1]) == Write(h, b[0].buf, b[0].faults).history && Stream(b[..1]) == b[0].buf
    decreases |a|
  {
    hide Write;
    if a == [] {
      assert a + b == b;
    } else {
      assert (a + b)[1..] == a[1..] + b;
      RunsCompose(Write(h, a[0].buf, a[0].faults).history, a[1..], b);
    }
  }

  lemma AbsorbTwice(h: History, a: string, b: string)
    ensures Absorb(Absorb(h, a), b) == Absorb(h, a + b)
  {
    Assoc(h.partial, a, b);
    SplitAppend(h.partial + a, b);
    Assoc(h.accepted, Split(h.partial + a).lines, Split(Split(h.partial + a).rest + b).lines);
  }

  // Any run of successful writes is one write of everything they wrote: where
  // the stream is cut, by the caller or by short writes, makes no difference.
  lemma {:induction false} RunIsOneWrite(h: History, ops: seq<WriteOp>)
    requires AllSucceed(h, ops) && NoNewline(h.partial)
    ensures Write(h, Stream(ops), NO_FAULTS) == Written(RunWrites(h, ops), Advance(h, ops))
    decreases |ops|
  {
    if ops == [] {
      assert h.partial + "" == h.partial;
      SplitUnique([], h.partial);
      assert Flat([]) + h.partial == h.partial;
      assert h.accepted + [] == h.accepted;
    } else {
      var g := Write(h, ops[0].buf, ops[0].faults).history;
      SplitSound(h.partial + ops[0].buf);
      RunIsOneWrite(g, ops[1..]);
      AbsorbTwice(h, ops[0].buf, Stream(ops[1..]));
    }
  }

  // The device keeps ten lines.
  lemma WindowIsNewestTen(h: History)
    ensures h.Window() == if |h.accepted| <= 10 then h.accepted else h.accepted[|h.accepted| - 10..]
  {
  }

  // History refinement: after any run of successful writes the device holds
  // the newest lines of the concatenation of all bytes written, and its tail.
  lemma {:induction false} HistoryRefinement(ops: seq<WriteOp>)
    requires AllSucceed(FRESH, ops)
    ensures var lines := Split(Stream(ops)).lines;
            RunWrites(FRESH, ops).Window() == if |lines| <= 10 then lines else lines[|lines| - 10..]
    ensures RunWrites(FRESH, ops).partial == Split(Stream(ops)).rest
    ensures Flat(RunWrites(FRESH, ops).Evicted()) + RunWrites(FRESH, ops).Bytes()
            + RunWrites(FRESH, ops).partial == Stream(ops)
  {
    hide Flat, Split, AllSucceed, RunWrites;
    RunIsOneWrite(FRESH, ops);
    var s := Stream(ops);
    var h := RunWrites(FRESH, ops);
    assert "" + s == s;
    SplitSound(s);
    assert h.accepted == Split(s).lines;
    WindowIsNewestTen(h);
    FlatCut(h.accepted, |h.accepted| - |h.Window()|);
  }

  // Chunking invariance: the cuts between writes do not matter.
  lemma {:induction false} ChunkingInvariance(h: History, ops: seq<WriteOp>, ops': seq<WriteOp>)
    requires NoNewline(h.partial)
    requires AllSucceed(h, ops) && AllSucceed(h, ops') && Stream(ops) == Stream(ops')
    ensures RunWrites(h, ops) == RunWrites(h, ops')
    ensures Advance(h, ops) == Advance(h, ops') == |Stream(ops)|
  {
    RunIsOneWrite(h, ops);
    RunIsOneWrite(h, ops');
  }

  // Bytes dropped by the failing writes of a run.
  function LostBytes(h: History, ops: seq<WriteOp>): nat
    decreases |ops|
  {
    if ops == [] then 0
    else |Lost(h, ops[0].buf, ops[0].faults)|
         + LostBytes(Write(h, ops[0].buf, ops[0].faults).history, ops[1..])
  }

  // Conservation over any run, failing writes included; evicted lines leave
  // in the order in which they were accepted.
  lemma {:induction false} RunConserves(h: History, ops: seq<WriteOp>)
    ensures var g := RunWrites(h, ops);
            && h.accepted <= g.accepted
            && h.Evicted() <= g.Evicted()
            && |Flat(g.Evicted())| + |g.Bytes()| + |g.partial| + LostBytes(h, ops)
               == |Flat(h.accepted)| + |h.partial| + |Stream(ops)|
    decreases |ops|
  {
    var g := RunWrites(h, ops);
    if ops == [] {
      FlatCut(g.accepted, |g.accepted| - |g.Window()|);
    } else {
      WriteConserves(h, ops[0].buf, ops[0].faults);
      RunConserves(Write(h, ops[0].buf, ops[0].faults).history, ops[1..]);
    }
  }

  // ---------------------------------------------------------------- reading

  datatype Place = Place(line: nat, byte: nat)

  // Which byte of which line is byte pos of the flat file.
  function Locate(w: seq<string>, pos: nat): (r: Option<Place>)
    ensures r.None? <==> pos >= |Flat(w)|
    ensures r.Some? ==> r.value.line < |w| && r.value.byte < |w[r.value.line]|
  {
    if w == [] then None
    else if pos < |w[0]| then Some(Place(0, pos))
    else
      match Locate(w[1..], pos - |w[0]|)
      case None => None
      case Some(p) => Some(Place(p.line + 1, p.byte))
  }

  // Everything from position pos on.
  function DropFrom(s: string, pos: nat): string {
    if pos < |s| then s[pos..] else ""
  }

  lemma {:induction false} FlatFrom(w: seq<string>, k: nat, b: nat)
    requires k < |w| && b <= |w[k]|
    ensures |Flat(w[..k])| + b <= |Flat(w)|
    ensures Flat(w)[|Flat(w[..k])| + b..] == w[k][b..] + Flat(w[k + 1..])
  {
    FlatCut(w, k);
    var t := Flat(w[k..]);
    assert w[k..][1..] == w[k + 1..];
    assert t == w[k] + Flat(w[k + 1..]);
    assert Flat(w) == Flat(w[..k]) + t;
    assert Flat(w)[|Flat(w[..k])| + b..] == t[b..];
  }

  // The place Locate finds is the only one at that position.
  lemma {:induction false} LocateExact(w: seq<string>, pos: nat, k: nat, b: nat)
    requires k < |w| && b < |w[k]|
    ensures Locate(w, pos) == Some(Place(k, b)) <==> |Flat(w[..k])| + b == pos
    decreases |w|
  {
    if k == 0 {
      assert w[..0] == [];
      if Locate(w, pos) == Some(Place(0, b)) && pos >= |w[0]| {
        assert false;
      }
    } else {
      assert w[..k][1..] == w[1..][..k - 1];
      if pos >= |w[0]| {
        LocateExact(w[1..], pos - |w[0]|, k - 1, b);
      }
    }
  }

  // Lookup correctness: the byte found is the byte at that position.
  lemma {:induction false} LocateByte(w: seq<string>, pos: nat)
    requires pos < |Flat(w)|
    ensures var p := Locate(w, pos).value;
            && Flat(w)[pos] == w[p.line][p.byte]
            && pos == |Flat(w[..p.line])| + p.byte
  {
    var p := Locate(w, pos).value;
    LocateExact(w, pos, p.line, p.byte);
    FlatFrom(w, p.line, p.byte);
    assert Flat(w)[pos] == Flat(w)[pos..][0];
  }

  function ReadSize(w: seq<string>, p: Place, count: nat): (n: nat)
    requires p.line < |w| && p.byte < |w[p.line]|
    ensures n <= count && p.byte + n <= |w[p.line]|
    ensures n == 0 <==> count == 0
  {
    if |w[p.line]| - p.byte < count then |w[p.line]| - p.byte else count
  }

  // One read: at most count bytes, and never past the end of a line.
  function Read(w: seq<string>, pos: nat, count: nat): string {
    match Locate(w, pos)
    case None => ""
    case Some(p) =>
      w[p.line][p.byte..p.byte + ReadSize(w, p, count)]
  }

  lemma {:induction false} SliceInLine(w: seq<string>, k: nat, b: nat, n: nat)
    requires k < |w| && b + n <= |w[k]|
    ensures |Flat(w[..k])| + b + n <= |Flat(w)|
    ensures Flat(w)[|Flat(w[..k])| + b..|Flat(w[..k])| + b + n] == w[k][b..b + n]
  {
    FlatFrom(w, k, b);
    FlatFrom(w, k, b + n);
    var s, p := Flat(w), |Flat(w[..k])| + b;
    assert s[p..p + n] == s[p..][..n];
    assert w[k][b..b + n] == w[k][b..][..n];
  }

  // A read inside the file returns the next bytes of it, at least one if one
  // was asked for.
  lemma {:induction false} ReadInside(w: seq<string>, pos: nat, count: nat)
    requires pos < |Flat(w)|
    ensures var n := |Read(w, pos, count)|;
            && n <= count && (n == 0 <==> count == 0)
            && pos + n <= |Flat(w)|
            && Flat(w)[pos..pos + n] == Read(w, pos, count)
  {
    hide Flat, Locate;
    LocateByte(w, pos);
    var p := Locate(w, pos).value;
    var n := ReadSize(w, p, count);
    assert Read(w, pos, count) == w[p.line][p.byte..p.byte + n];
    SliceInLine(w, p.line, p.byte, n);
  }

  // A read stops early only at the end of a line, and there it does stop.
  lemma {:induction false} ReadStopsAtLineEnd(w: seq<string>, pos: nat, count: nat)
    requires AllLines(w) && pos < |Flat(w)| && count > 0
    ensures var r := Read(w, pos, count);
            && |r| > 0
            && (|r| == count || r[|r| - 1] == '\n')
            && forall i :: 0 <= i < |r| - 1 ==> r[i] != '\n'
  {
    hide Flat, Locate;
    var p := Locate(w, pos).value;
    var line, n := w[p.line], ReadSize(w, p, count);
    assert IsLine(line);
    assert Read(w, pos, count) == line[p.byte..p.byte + n];
  }

  // A read at or after the end returns nothing.
  lemma ReadAtEnd(w: seq<string>, pos: nat, count: nat)
    requires pos >= |Flat(w)|
    ensures Read(w, pos, count) == ""
  {
  }

  // Reading until a read returns nothing; the i-th read asks for counts(i).
  function Drain(w: seq<string>, pos: nat, counts: nat -> nat, i: nat): string
    requires forall j :: counts(j) > 0
    decreases |Flat(w)| - pos
  {
    var r := Read(w, pos, counts(i));
    if r == "" then ""
    else
      ReadInside(w, pos, counts(i));
      r + Drain(w, pos + |r|, counts, i + 1)
  }

  // Whatever the counts, draining returns the rest of the file, once, in order.
  lemma {:induction false} DrainIsSuffix(w: seq<string>, pos: nat, counts: nat -> nat, i: nat)
    requires forall j :: counts(j) > 0
    ensures Drain(w, pos, counts, i) == DropFrom(Flat(w), pos)
    decreases |Flat(w)| - pos
  {
    hide Flat, Locate, Read, DropFrom;
    var r := Read(w, pos, counts(i));
    if pos >= |Flat(w)| {
      ReadAtEnd(w, pos, counts(i));
      NothingFromEnd(Flat(w), pos);
    } else {
      ReadInside(w, pos, counts(i));
      assert |r| > 0;
      CutOff(Flat(w), pos, |r|);
      DrainIsSuffix(w, pos + |r|, counts, i + 1);
    }
  }

  lemma NothingFromEnd(s: string, pos: nat)
    requires pos >= |s|
    ensures DropFrom(s, pos) == ""
  {
  }

  lemma CutOff(s: string, pos: nat, n: nat)
    requires pos + n <= |s|
    ensures DropFrom(s, pos) == s[pos..pos + n] + DropFrom(s, pos + n)
  {
  }

  // ---------------------------------------------------------------- seeking

  // Bytes in the cmd-th slot in reading order; slots beyond the window are empty.
  function LineSize(w: seq<string>, cmd: nat): nat {
    if cmd < |w| then |w[cmd]| else 0
  }

  // Bytes before the cmd-th slot.
  function LineStart(w: seq<string>, cmd: nat): nat {
    |Flat(w[..if cmd < |w| then cmd else |w|])|
  }

  lemma StartsAtZero(w: seq<string>)
    ensures LineStart(w, 0) == 0
  {
  }

  lemma {:induction false} NextLineStart(w: seq<string>, cmd: nat)
    ensures LineStart(w, cmd + 1) == LineStart(w, cmd) + LineSize(w, cmd)
  {
    if cmd < |w| {
      FlatTake(w, cmd);
    }
  }

  // AESDCHAR_IOCSEEKTO: the new position, or None for -EINVAL.
  function Seek(w: seq<string>, cmd: nat, off: nat): Option<nat> {
    if cmd >= CAPACITY || off > LineSize(w, cmd) then None
    else Some(LineStart(w, cmd) + off)
  }

  // Which seeks are accepted, and where they lead: an offset up to the length
  // of a stored line, and offset 0 of a command that is not stored.
  lemma {:induction false} SeekExact(w: seq<string>, cmd: nat, off: nat)
    requires |w| <= 10
    ensures Seek(w, cmd, off) ==
            if cmd < |w| && off <= |w[cmd]| then Some(|Flat(w[..cmd])| + off)
            else if |w| <= cmd < 10 && off == 0 then Some(|Flat(w)|)
            else None
  {
    hide Flat;
    assert w[..|w|] == w;
  }

  // Seek and lookup undo each other. The bound is `>`, so one past the end of
  // a line is accepted and means the next line, and a command that is not
  // stored is accepted with offset 0 and means the end of the file.
  lemma {:induction false} SeekThenLocate(w: seq<string>, cmd: nat, off: nat)
    requires |w| <= CAPACITY && AllLines(w) && Seek(w, cmd, off).Some?
    ensures Locate(w, Seek(w, cmd, off).value) ==
            if off < LineSize(w, cmd) then Some(Place(cmd, off))
            else if cmd + 1 < |w| then Some(Place(cmd + 1, 0))
            else None
  {
    var pos := Seek(w, cmd, off).value;
    if cmd < |w| {
      FlatFrom(w, cmd, off);
      FlatTake(w, cmd);
      if off < |w[cmd]| {
        LocateExact(w, pos, cmd, off);
      } else if cmd + 1 < |w| {
        LocateExact(w, pos, cmd + 1, 0);
      } else {
        assert w[..cmd + 1] == w;
      }
    } else {
      assert w[..|w|] == w;
    }
  }

  lemma {:induction false} LocateThenSeek(w: seq<string>, pos: nat)
    requires |w| <= CAPACITY && pos < |Flat(w)|
    ensures var p := Locate(w, pos).value; Seek(w, p.line, p.byte) == Some(pos)
  {
    LocateByte(w, pos);
  }

  // What is left to read after an accepted seek to a stored line.
  lemma {:induction false} SeekThenDrain(w: seq<string>, cmd: nat, off: nat)
    requires cmd < |w| <= CAPACITY && Seek(w, cmd, off).Some?
    ensures DropFrom(Flat(w), Seek(w, cmd, off).value) == w[cmd][off..] + Flat(w[cmd + 1..])
  {
    FlatFrom(w, cmd, off);
  }
}
