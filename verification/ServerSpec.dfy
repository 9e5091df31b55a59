// What the server does with one socket chunk while it holds file_lock, and
// what any interleaving of such chunks from any number of clients adds up to.
module ServerSpec {
  import opened Lines
  import opened DeviceSpec

  datatype SeekTo = SeekTo(cmd: uint32, off: uint32)

  // sscanf with "AESDCHAR_IOCSEEKTO:%d,%d": None unless both numbers are
  // found. It is given the whole rest of the buffer, not just the line.
  type Scanner = string -> Option<SeekTo>

  const TAG: string := "AESDCHAR_IOCSEEKTO"

  // ------------------------------------------------------------- C strings

  // The C string that starts the bytes s: everything before the first NUL.
  function CString(s: string): string {
    s[..IndexOf(s, '\0')]
  }

  // strchr from position from. The search stops at a NUL; end is the position
  // of one, so nothing beyond it is looked at.
  function StrChr(s: string, from: nat, c: char, ghost end: nat): (r: Option<nat>)
    requires from <= end < |s| && s[end] == '\0'
    ensures r.Some? && c != '\0' ==> from <= r.value < end
    decreases end - from
  {
    if s[from] == c then Some(from)
    else if s[from] == '\0' then None
    else StrChr(s, from + 1, c, end)
  }

  // strncmp(s + from, t, n) == 0 for a NUL-free literal t of at least n characters.
  predicate SameStart(s: string, from: nat, t: string, n: nat, ghost end: nat)
    requires from <= end < |s| && s[end] == '\0'
    requires n <= |t| && '\0' !in t
    decreases n
  {
    n == 0 || (s[from] == t[0] && SameStart(s, from + 1, t[1..], n - 1, end))
  }

  // On a NUL-terminated buffer the search finds the first newline of the C
  // string, if there is one.
  lemma {:induction false} StrChrIsIndexOf(s: string, from: nat, end: nat)
    requires from <= end < |s| && s[end] == '\0'
    ensures var t := CString(s[from..]); var k := IndexOf(t, '\n');
            && from + |t| <= end
            && StrChr(s, from, '\n', end) == if k < |t| then Some(from + k) else None
    decreases end - from
  {
    hide CString, IndexOf;
    var u := s[from..];
    assert u[0] == s[from] && u[1..] == s[from + 1..];
    CStringFirst(u);
    if s[from] == '\0' {
    } else if s[from] == '\n' {
      StrChrIsIndexOf(s, from + 1, end);
      IndexOfCons('\n', CString(u[1..]), '\n');
    } else {
      StrChrIsIndexOf(s, from + 1, end);
      IndexOfCons(s[from], CString(u[1..]), '\n');
      assert StrChr(s, from, '\n', end) == StrChr(s, from + 1, '\n', end);
    }
  }

  lemma CStringFirst(u: string)
    requires u != ""
    ensures CString(u) == if u[0] == '\0' then "" else [u[0]] + CString(u[1..])
    ensures IndexOf("", '\n') == 0
  {
  }

  lemma IndexOfCons(x: char, t: string, c: char)
    ensures IndexOf([x] + t, c) == if x == c then 0 else 1 + IndexOf(t, c)
  {
    assert ([x] + t)[1..] == t;
  }

  lemma {:induction false} SameStartIsPrefix(s: string, from: nat, t: string, n: nat, end: nat)
    requires from <= end < |s| && s[end] == '\0'
    requires n <= |t| && '\0' !in t
    ensures SameStart(s, from, t, n, end) <==> from + n <= |s| && s[from..from + n] == t[..n]
    decreases n
  {
    if n > 0 && s[from] == t[0] {
      SameStartIsPrefix(s, from + 1, t[1..], n - 1, end);
      if from + n <= |s| {
        assert s[from..from + n] == [s[from]] + s[from + 1..from + n];
        assert t[..n] == [t[0]] + t[1..][..n - 1];
      }
    } else if n > 0 && from + n <= |s| {
      assert s[from..from + n][0] == s[from] && t[..n][0] == t[0];
    }
  }

  lemma TagHasNoNewline()
    ensures |TAG| == 18
    ensures forall i :: 0 <= i < |TAG| ==> TAG[i] != '\n' && TAG[i] != '\0'
  {
  }

  // Comparing MIN(length, 18) characters is comparing the whole tag: a shorter
  // line ends in a newline, which the tag does not contain.
  lemma {:induction false} TagTest(s: string, from: nat, length: nat, end: nat)
    requires from <= end < |s| && s[end] == '\0'
    requires from + length <= end && IsLine(s[from..from + length])
    ensures SameStart(s, from, TAG, if length < |TAG| then length else |TAG|, end)
            <==> TAG <= s[from..from + length]
  {
    var line := s[from..from + length];
    var n := if length < |TAG| then length else |TAG|;
    hide SameStart;
    SameStartIsPrefix(s, from, TAG, n, end);
    assert s[from..from + n] == line[..n];
    TagHasNoNewline();
    if length < |TAG| {
      assert line[length - 1] == '\n';
      assert TAG[..n][length - 1] == TAG[length - 1];
    } else {
      assert TAG[..n] == TAG;
    }
  }

  // -------------------------------------------------------------- one chunk

  datatype Outcome =
    | Stored               // an ordinary line, written to the device
    | NotStored            // an ordinary line whose write failed
    | Unparsed             // tagged, but not a seek command
    | Sought(to: SeekTo)   // an accepted seek command
    | Closed               // a refused seek command: the connection is closed

  // A line, what the buffer holds from it on, what goes wrong when it is
  // written, and what becomes of it.
  datatype Exchange = Exchange(line: string, rest: string, faults: Faults, outcome: Outcome, reply: string)

  // What file_lock protects: the device's history and the shared position.
  datatype State = State(history: History, pos: nat)

  // Where reading to the end leaves the position.
  function Drained(h: History, pos: nat): nat {
    if pos < |h.Bytes()| then |h.Bytes()| else pos
  }

  datatype Step = Step(state: State, exchange: Exchange)

  // One line; rest is what the buffer holds from the start of the line on.
  function ServeLine(st: State, line: string, rest: string, scan: Scanner, faults: Faults): (s: Step)
    ensures s.exchange.line == line && s.exchange.rest == rest && s.exchange.faults == faults
  {
    var h := st.history;
    if TAG <= line then
      match scan(rest)
      case None =>
        var reply := DropFrom(h.Bytes(), st.pos);
        Step(State(h, Drained(h, st.pos)), Exchange(line, rest, faults, Unparsed, reply))
      case Some(to) =>
        match Seek(h.Window(), to.cmd, to.off)
        case None => Step(st, Exchange(line, rest, faults, Closed, ""))
        case Some(pos) =>
          var reply := DropFrom(h.Bytes(), pos);
          Step(State(h, Drained(h, pos)), Exchange(line, rest, faults, Sought(to), reply))
    else
      var g := Write(h, line, faults).history;
      var outcome := if Succeeds(h, line, faults) then Stored else NotStored;
      Step(State(g, |g.Bytes()|), Exchange(line, rest, faults, outcome, g.Bytes()))
  }

  datatype Session = Session(state: State, log: seq<Exchange>)

  // The lines of a chunk in turn, up to a refused command or the last newline;
  // faults(k) is what goes wrong in the k-th write.
  function Serve(st: State, text: string, scan: Scanner, faults: nat -> Faults, k: nat): Session
    decreases |text|
  {
    var n := IndexOf(text, '\n') + 1;
    if n > |text| then Session(st, [])
    else
      var s := ServeLine(st, text[..n], text, scan, faults(k));
      if s.exchange.outcome == Closed then Session(s.state, [s.exchange])
      else
        var r := Serve(s.state, text[n..], scan, faults, k + 1);
        Session(r.state, [s.exchange] + r.log)
  }

  function Replies(log: seq<Exchange>): string {
    if log == [] then "" else log[0].reply + Replies(log[1..])
  }

  function LinesOf(log: seq<Exchange>): (r: seq<string>)
    ensures |r| == |log|
  {
    seq(|log|, i requires 0 <= i < |log| => log[i].line)
  }

  predicate Rejected(log: seq<Exchange>) {
    log != [] && log[|log| - 1].outcome == Closed
  }

  // The history after the writes of a log.
  function Replay(h: History, log: seq<Exchange>): History {
    if log == [] then h
    else
      var g := Replay(h, log[..|log| - 1]);
      var x := log[|log| - 1];
      if x.outcome == Stored || x.outcome == NotStored then Write(g, x.line, x.faults).history else g
  }

  lemma {:induction false} RepliesAppend(a: seq<Exchange>, b: seq<Exchange>)
    ensures Replies(a + b) == Replies(a) + Replies(b)
  {
    if a == [] {
      assert a + b == b;
    } else {
      assert (a + b)[1..] == a[1..] + b;
      RepliesAppend(a[1..], b);
    }
  }

  // x serves the i-th line of text, the k-th write being its own if it is an
  // ordinary line.
  ghost predicate Serves(x: Exchange, text: string, i: nat, faults: nat -> Faults, k: nat) {
    var c := Split(text);
    && i < |c.lines| && x.line == c.lines[i] && x.faults == faults(k)
    && x.rest == Flat(c.lines[i..]) + c.rest
  }

  // The segments served are the lines of the text, in order and without gaps:
  // all of them, or those up to and including a refused command. What follows
  // the last newline is dropped. sscanf is given the text from the line on.
  lemma {:induction false} ServesLines(st: State, text: string, scan: Scanner, faults: nat -> Faults, k: nat)
    ensures var log := Serve(st, text, scan, faults, k).log;
            && LinesOf(log) <= Split(text).lines
            && (Rejected(log) || LinesOf(log) == Split(text).lines)
            && (forall i :: 0 <= i < |log| - 1 ==> log[i].outcome != Closed)
            && forall i :: 0 <= i < |log| ==> Serves(log[i], text, i, faults, k + i)
    decreases |text|
  {
    hide Split, ServeLine, Serve, LinesOf, Serves;
    var n := IndexOf(text, '\n') + 1;
    ServeUnfold(st, text, scan, faults, k);
    if n <= |text| {
      SplitHead(text);
      var s := ServeLine(st, text[..n], text, scan, faults(k));
      var r := Serve(s.state, text[n..], scan, faults, k + 1).log;
      ServesFirst(s.exchange, text, faults, k);
      if s.exchange.outcome == Closed {
        LinesOfCons(s.exchange, []);
      } else {
        ServesLines(s.state, text[n..], scan, faults, k + 1);
        LinesOfCons(s.exchange, r);
        forall i | 0 <= i < |r| ensures Serves(r[i], text, i + 1, faults, k + 1 + i) {
          ServesLater(r[i], text, i, faults, k + 1 + i);
        }
      }
    } else {
      LinesOfNone(text);
    }
  }

  lemma ServesFirst(x: Exchange, text: string, faults: nat -> Faults, k: nat)
    requires IndexOf(text, '\n') < |text| && x.line == text[..IndexOf(text, '\n') + 1]
    requires x.rest == text && x.faults == faults(k)
    ensures Serves(x, text, 0, faults, k)
  {
    hide Split;
    SplitHead(text);
    SplitSound(text);
    assert Split(text).lines[0..] == Split(text).lines;
  }

  lemma ServesLater(x: Exchange, text: string, i: nat, faults: nat -> Faults, k: nat)
    requires IndexOf(text, '\n') < |text| && Serves(x, text[IndexOf(text, '\n') + 1..], i, faults, k)
    ensures Serves(x, text, i + 1, faults, k)
  {
    hide Split, Flat, IndexOf, IsLine;
    SplitHead(text);
    SliceOfDrop(Split(text).lines, 1, i);
  }

  lemma ServeUnfold(st: State, text: string, scan: Scanner, faults: nat -> Faults, k: nat)
    ensures var n := IndexOf(text, '\n') + 1;
            if n > |text| then Serve(st, text, scan, faults, k) == Session(st, [])
            else
              var s := ServeLine(st, text[..n], text, scan, faults(k));
              var r := Serve(s.state, text[n..], scan, faults, k + 1);
              Serve(st, text, scan, faults, k) ==
              if s.exchange.outcome == Closed then Session(s.state, [s.exchange])
              else Session(r.state, [s.exchange] + r.log)
  {
  }

  lemma LinesOfNone(text: string)
    requires IndexOf(text, '\n') == |text|
    ensures LinesOf([]) == Split(text).lines == []
  {
  }

  lemma LinesOfCons(x: Exchange, r: seq<Exchange>)
    ensures LinesOf([x]) == [x.line]
    ensures LinesOf([x] + r) == [x.line] + LinesOf(r)
  {
  }

  // ------------------------------------------------- any number of clients

  // One chunk of one client, handled under file_lock.
  datatype Event = Event(client: nat, chunk: string, faults: nat -> Faults)

  // from[i] is who sent log[i].line and gets log[i].reply; closed are the
  // clients whose connection was closed by a refused command.
  datatype World = World(state: State, log: seq<Exchange>, from: seq<nat>, closed: set<nat>)

  // The chunks in lock order, starting from st.
  function Run(st: State, events: seq<Event>, scan: Scanner): (w: World)
    ensures |w.log| == |w.from|
  {
    if events == [] then World(st, [], [], {})
    else RunOne(Run(st, events[..|events| - 1], scan), events[|events| - 1], scan)
  }

  function ServeEvent(w: World, e: Event, scan: Scanner): Session {
    Serve(w.state, CString(e.chunk), scan, e.faults, 0)
  }

  function RunOne(w: World, e: Event, scan: Scanner): (w': World)
    ensures |w.log| == |w.from| ==> |w'.log| == |w'.from|
  {
    if e.client in w.closed then w
    else
      var s := ServeEvent(w, e, scan);
      World(s.state, w.log + s.log, w.from + Repeat(e.client, |s.log|),
            if Rejected(s.log) then w.closed + {e.client} else w.closed)
  }

  // What the handling of one more chunk sends to client c.
  function ReplyIn(w: World, e: Event, scan: Scanner, c: nat): string {
    if e.client in w.closed || e.client != c then "" else Replies(ServeEvent(w, e, scan).log)
  }

  lemma RunOneReplies(w: World, e: Event, scan: Scanner, c: nat)
    requires |w.log| == |w.from|
    ensures var w' := RunOne(w, e, scan);
            |w'.log| == |w'.from| &&
            RepliesTo(w'.log, w'.from, c) == RepliesTo(w.log, w.from, c) + ReplyIn(w, e, scan, c)
  {
    if e.client !in w.closed {
      RepliesToAppend(w.log, ServeEvent(w, e, scan).log, w.from, e.client, c);
    }
  }

  function Repeat(c: nat, n: nat): (r: seq<nat>)
    ensures |r| == n
  {
    seq(n, i => c)
  }

  // Everything client c has been sent.
  function RepliesTo(log: seq<Exchange>, from: seq<nat>, c: nat): string
    requires |log| == |from|
  {
    if log == [] then ""
    else (if from[0] == c then log[0].reply else "") + RepliesTo(log[1..], from[1..], c)
  }

  lemma {:induction false} RepliesToAppend(a: seq<Exchange>, b: seq<Exchange>, from: seq<nat>, client: nat, c: nat)
    requires |a| == |from|
    ensures RepliesTo(a + b, from + Repeat(client, |b|), c)
            == RepliesTo(a, from, c) + if client == c then Replies(b) else ""
  {
    if a != [] {
      assert (a + b)[1..] == a[1..] + b;
      assert (from + Repeat(client, |b|))[1..] == from[1..] + Repeat(client, |b|);
      RepliesToAppend(a[1..], b, from[1..], client, c);
    } else {
      assert a + b == b && from + Repeat(client, |b|) == Repeat(client, |b|);
      RepliesToOne(b, client, c);
    }
  }

  lemma {:induction false} RepliesToOne(b: seq<Exchange>, client: nat, c: nat)
    ensures RepliesTo(b, Repeat(client, |b|), c) == if client == c then Replies(b) else ""
  {
    if b != [] {
      assert Repeat(client, |b|)[1..] == Repeat(client, |b[1..]|);
      RepliesToOne(b[1..], client, c);
    }
  }

  // The log of the first n events and of m more exchanges of the next one is a
  // prefix of the log of the run.
  lemma {:induction false} LogOnlyGrows(st: State, events: seq<Event>, scan: Scanner, n: nat, m: nat)
    requires n < |events|
    requires events[n].client !in Run(st, events[..n], scan).closed
    requires m <= |ServeEvent(Run(st, events[..n], scan), events[n], scan).log|
    ensures var w := Run(st, events[..n], scan);
            w.log + ServeEvent(w, events[n], scan).log[..m] <= Run(st, events, scan).log
    decreases |events|
  {
    var init := events[..|events| - 1];
    assert n < |init| ==> init[..n] == events[..n];
    if n < |init| {
      LogOnlyGrows(st, init, scan, n, m);
      assert Run(st, init, scan).log <= Run(st, events, scan).log;
    } else {
      assert init == events[..n];
    }
  }

  // The ordinary lines stored in the course of a log, in lock order.
  function StoredLines(log: seq<Exchange>): seq<string> {
    if log == [] then []
    else
      var x := log[|log| - 1];
      StoredLines(log[..|log| - 1]) + if x.outcome == Stored then [x.line] else []
  }

  // Something was answered, so the file was read to its end.
  predicate ReadToEnd(log: seq<Exchange>) {
    exists i :: 0 <= i < |log| && log[i].outcome != Closed
  }

  // The state after a log, from a device holding the lines acc and no tail, and
  // position start.
  function StateAfter(acc: seq<string>, start: nat, log: seq<Exchange>): State {
    var lines := acc + StoredLines(log);
    State(History(lines, ""), if ReadToEnd(log) then |Flat(LastN(lines))| else start)
  }

  // A whole line is written without a failure: one kmemdup call is made.
  predicate WriteWorks(f: Faults) {
    !f.kmalloc && !f.copyFromUser && !f.lock && f.failingDup != Some(0)
  }

  // What must become of a line in state st, and what the client is sent.
  ghost predicate Answers(st: State, x: Exchange, scan: Scanner) {
    var lines := st.history.accepted;
    if !(TAG <= x.line) then
      if WriteWorks(x.faults) then x.outcome == Stored && x.reply == Flat(LastN(lines + [x.line]))
      else x.outcome == NotStored && x.reply == Flat(LastN(lines))
    else
      match scan(x.rest)
      case None => x.outcome == Unparsed && x.reply == DropFrom(Flat(LastN(lines)), st.pos)
      case Some(to) =>
        match Seek(LastN(lines), to.cmd, to.off)
        case None => x.outcome == Closed && x.reply == ""
        case Some(pos) => x.outcome == Sought(to) && x.reply == DropFrom(Flat(LastN(lines)), pos)
  }

  ghost predicate Answered(acc: seq<string>, start: nat, log: seq<Exchange>, scan: Scanner) {
    forall i :: 0 <= i < |log| ==> Answers(StateAfter(acc, start, log[..i]), log[i], scan)
  }

  // A whole line written to a device without a tail is stored or lost: on the
  // server's writes failure is atomic.
  lemma {:induction false} WriteLine(acc: seq<string>, line: string, f: Faults)
    requires IsLine(line)
    ensures Write(History(acc, ""), line, f).history
            == History(if WriteWorks(f) then acc + [line] else acc, "")
    ensures Succeeds(History(acc, ""), line, f) <==> WriteWorks(f)
  {
    SplitUnfold(line, "");
    assert line + "" == line == "" + line;
    assert Split(line) == Cut([line], "");
    assert acc + [line][..0] == acc;
  }

  // An accepted seek stays inside the file.
  lemma {:induction false} SeekInFile(w: seq<string>, cmd: nat, off: nat)
    requires Seek(w, cmd, off).Some?
    ensures Seek(w, cmd, off).value <= |Flat(w)|
  {
    if cmd < |w| {
      FlatFrom(w, cmd, off);
    } else {
      assert w[..|w|] == w;
    }
  }

  lemma {:induction false} ServeLineAnswers(st: State, line: string, rest: string, scan: Scanner, f: Faults)
    requires IsLine(line) && st.history.partial == "" && st.pos <= |st.history.Bytes()|
    ensures var s := ServeLine(st, line, rest, scan, f);
            var lines := st.history.accepted + if s.exchange.outcome == Stored then [line] else [];
            && Answers(st, s.exchange, scan)
            && s.state.history == History(lines, "")
            && s.state.pos == if s.exchange.outcome == Closed then st.pos else |Flat(LastN(lines))|
  {
    hide Flat, Split, Write, LastN, Succeeds, LineSize, LineStart;
    var acc := st.history.accepted;
    assert st.history == History(acc, "");
    WriteLine(acc, line, f);
    assert acc + [] == acc;
    if TAG <= line && scan(rest).Some? && Seek(LastN(acc), scan(rest).value.cmd, scan(rest).value.off).Some? {
      SeekInFile(LastN(acc), scan(rest).value.cmd, scan(rest).value.off);
    }
  }

  lemma {:induction false} StateAfterSnoc(acc: seq<string>, start: nat, log: seq<Exchange>, x: Exchange)
    ensures var st, lines := StateAfter(acc, start, log),
                             acc + StoredLines(log) + if x.outcome == Stored then [x.line] else [];
            StateAfter(acc, start, log + [x])
            == State(History(lines, ""), if x.outcome == Closed then st.pos else |Flat(LastN(lines))|)
  {
    hide Flat, LastN;
    var l := log + [x];
    assert l[..|log|] == log && l[|log|] == x;
    assert x.outcome != Closed ==> ReadToEnd(l);
    assert acc + StoredLines(log) + [] == acc + StoredLines(log);
    Assoc(acc, StoredLines(log), if x.outcome == Stored then [x.line] else []);
    if ReadToEnd(log) {
      var i :| 0 <= i < |log| && log[i].outcome != Closed;
      assert l[i].outcome != Closed;
    } else if x.outcome == Closed {
      assert forall i :: 0 <= i < |l| ==> l[i].outcome == Closed;
    }
  }

  lemma {:induction false} AnsweredSnoc(acc: seq<string>, start: nat, log: seq<Exchange>, x: Exchange, scan: Scanner)
    requires Answered(acc, start, log, scan) && Answers(StateAfter(acc, start, log), x, scan)
    ensures Answered(acc, start, log + [x], scan)
  {
    hide StateAfter, Answers;
    var l := log + [x];
    assert l[..|log|] == log;
    forall i | 0 <= i < |l| ensures Answers(StateAfter(acc, start, l[..i]), l[i], scan) {
      if i < |log| {
        assert l[..i] == log[..i];
      }
    }
  }

  // One line after a log.
  lemma {:induction false} ServeLineAfter(acc: seq<string>, start: nat, log: seq<Exchange>,
                                          line: string, rest: string, scan: Scanner, f: Faults)
    requires IsLine(line) && Answered(acc, start, log, scan) && start <= |Flat(LastN(acc))|
    ensures var s := ServeLine(StateAfter(acc, start, log), line, rest, scan, f);
            && Answered(acc, start, log + [s.exchange], scan)
            && s.state == StateAfter(acc, start, log + [s.exchange])
  {
    hide Flat, LastN, Answers, Answered, ServeLine, IsLine;
    StartInFile(acc, start, log);
    var st := StateAfter(acc, start, log);
    var s := ServeLine(st, line, rest, scan, f);
    ServeLineAnswers(st, line, rest, scan, f);
    AnsweredSnoc(acc, start, log, s.exchange, scan);
    StateAfterSnoc(acc, start, log, s.exchange);
  }

  lemma {:induction false} StartInFile(acc: seq<string>, start: nat, log: seq<Exchange>)
    requires start <= |Flat(LastN(acc))|
    ensures StateAfter(acc, start, log).pos <= |StateAfter(acc, start, log).history.Bytes()|
  {
    hide Flat, LastN;
    if !ReadToEnd(log) {
      NothingStored(log);
      assert acc + [] == acc;
    }
  }

  lemma {:induction false} NothingStored(log: seq<Exchange>)
    requires !ReadToEnd(log)
    ensures StoredLines(log) == []
  {
    if log != [] {
      assert forall i :: 0 <= i < |log| - 1 ==> log[..|log| - 1][i] == log[i];
      NothingStored(log[..|log| - 1]);
    }
  }

  lemma {:induction false} ServeAnswers(acc: seq<string>, start: nat, log: seq<Exchange>,
                                        text: string, scan: Scanner, faults: nat -> Faults, k: nat)
    requires Answered(acc, start, log, scan) && start <= |Flat(LastN(acc))|
    ensures var s := Serve(StateAfter(acc, start, log), text, scan, faults, k);
            && Answered(acc, start, log + s.log, scan)
            && s.state == StateAfter(acc, start, log + s.log)
    decreases |text|
  {
    hide Flat, Split, LastN, IsLine, StateAfter, Answered, ServeLine, Serve;
    var st := StateAfter(acc, start, log);
    ServeUnfold(st, text, scan, faults, k);
    var n := IndexOf(text, '\n') + 1;
    if n > |text| {
      assert log + [] == log;
    } else {
      SplitHead(text);
      ServeLineAfter(acc, start, log, text[..n], text, scan, faults(k));
      var s := ServeLine(st, text[..n], text, scan, faults(k));
      if s.exchange.outcome != Closed {
        ServeAnswers(acc, start, log + [s.exchange], text[n..], scan, faults, k + 1);
        Assoc(log, [s.exchange], Serve(s.state, text[n..], scan, faults, k + 1).log);
      }
    }
  }

  // End to end: from any device without a tail, however the clients' chunks
  // interleave and whichever writes fail, what becomes of every line and what
  // its client is sent are determined by the line, its own failures and the
  // lines stored before it in lock order.
  lemma {:induction false} EveryExchangeAnswered(acc: seq<string>, start: nat, events: seq<Event>, scan: Scanner)
    requires start <= |Flat(LastN(acc))|
    ensures var w := Run(State(History(acc, ""), start), events, scan);
            && Answered(acc, start, w.log, scan)
            && w.state == StateAfter(acc, start, w.log)
  {
    var st := State(History(acc, ""), start);
    if events == [] {
      assert acc + [] == acc;
    } else {
      hide StateAfter, Answered, Serve, CString, Flat, LastN;
      var e := events[|events| - 1];
      var w := Run(st, events[..|events| - 1], scan);
      EveryExchangeAnswered(acc, start, events[..|events| - 1], scan);
      if e.client !in w.closed {
        ServeAnswers(acc, start, w.log, CString(e.chunk), scan, e.faults, 0);
      }
    }
  }

  // The shared position. The server opens the device at position 0. Whenever
  // file_lock is free the position is at the end of the file exactly when some
  // line has been answered, or nothing was stored in the device to begin with.
  lemma {:induction false} AtEndIff(acc: seq<string>, events: seq<Event>, scan: Scanner)
    requires AllLines(acc)
    ensures var w := Run(State(History(acc, ""), 0), events, scan);
            w.state.pos == |w.state.history.Bytes()| <==> ReadToEnd(w.log) || acc == []
  {
    hide Run, Answered, IsLine;
    EveryExchangeAnswered(acc, 0, events, scan);
    var log := Run(State(History(acc, ""), 0), events, scan).log;
    if !ReadToEnd(log) {
      NothingStored(log);
      assert acc + [] == acc;
      if acc != [] {
        SomethingToRead(acc);
      }
    }
  }

  lemma {:induction false} SomethingToRead(acc: seq<string>)
    requires AllLines(acc) && acc != []
    ensures |Flat(LastN(acc))| > 0
  {
    var w := LastN(acc);
    assert w[0] == acc[|acc| - |w|];
    assert |w[0]| > 0;
  }

  // When no line has been answered before, a tagged line that does not parse is
  // sent the whole window of whatever device was opened; afterwards nothing.
  lemma {:induction false} UnparsedReply(acc: seq<string>, events: seq<Event>, scan: Scanner, i: nat)
    requires AllLines(acc)
    requires var log := Run(State(History(acc, ""), 0), events, scan).log;
             i < |log| && log[i].outcome == Unparsed
    ensures var log := Run(State(History(acc, ""), 0), events, scan).log;
            && log[i].reply == (if ReadToEnd(log[..i]) then "" else Flat(LastN(acc)))
            && (log[i].reply == "" <==> ReadToEnd(log[..i]) || acc == [])
  {
    hide Run, IsLine, Flat, LastN;
    EveryExchangeAnswered(acc, 0, events, scan);
    var log := Run(State(History(acc, ""), 0), events, scan).log;
    assert Answers(StateAfter(acc, 0, log[..i]), log[i], scan);
    if !ReadToEnd(log[..i]) {
      NothingStored(log[..i]);
      assert acc + [] == acc;
      WindowIsEmptyIff(acc);
    }
  }

  lemma WindowIsEmptyIff(acc: seq<string>)
    requires AllLines(acc)
    ensures Flat(LastN(acc)) == "" <==> acc == []
    ensures DropFrom(Flat(LastN(acc)), 0) == Flat(LastN(acc))
  {
    if acc != [] {
      SomethingToRead(acc);
    }
  }

  ghost predicate EndsWith(s: string, t: string) {
    |t| <= |s| && s[|s| - |t|..] == t
  }

  lemma {:induction false} NewestLast(lines: seq<string>, line: string)
    ensures EndsWith(Flat(LastN(lines + [line])), line)
  {
    hide Flat;
    var w := LastN(lines + [line]);
    var older := w[..|w| - 1];
    assert w == older + [line];
    FlatSnoc(older, line);
  }

  // With nothing failing, every line that does not start with the tag is
  // stored, and the reply ends with it.
  lemma {:induction false} OrdinaryLine(st: State, line: string, rest: string, scan: Scanner)
    requires st.history.partial == "" && IsLine(line) && !(TAG <= line)
    ensures var x := ServeLine(st, line, rest, scan, NO_FAULTS).exchange;
            x.outcome == Stored && EndsWith(x.reply, line)
  {
    hide Flat, LastN, Write, EndsWith;
    var h := st.history;
    assert h == History(h.accepted, "");
    WriteLine(h.accepted, line, NO_FAULTS);
    NewestLast(h.accepted, line);
  }

  // An accepted seek to a stored line is answered with the rest of the window
  // from that byte on; any other accepted seek gets nothing.
  lemma {:induction false} SeekReply(st: State, line: string, rest: string, scan: Scanner, f: Faults)
    requires ServeLine(st, line, rest, scan, f).exchange.outcome.Sought?
    ensures var s := ServeLine(st, line, rest, scan, f);
            var to, w := s.exchange.outcome.to, st.history.Window();
            && s.state.history == st.history
            && s.exchange.reply ==
               if to.cmd < |w| then w[to.cmd][to.off..] + Flat(w[to.cmd + 1..]) else ""
  {
    var to, w := scan(rest).value, st.history.Window();
    if to.cmd < |w| {
      SeekThenDrain(w, to.cmd, to.off);
    } else {
      assert w[..|w|] == w;
    }
  }

  // The outcome of an ordinary line follows from its failures.
  predicate Classified(x: Exchange) {
    && (x.outcome == Stored <==> !(TAG <= x.line) && WriteWorks(x.faults))
    && (x.outcome == NotStored <==> !(TAG <= x.line) && !WriteWorks(x.faults))
  }

  lemma {:induction false} AnsweredClassified(acc: seq<string>, start: nat, log: seq<Exchange>, scan: Scanner)
    requires Answered(acc, start, log, scan)
    ensures forall i :: 0 <= i < |log| ==> Classified(log[i])
  {
    hide StateAfter, Flat, LastN, Seek, DropFrom;
    forall i | 0 <= i < |log| ensures Classified(log[i]) {
      assert Answers(StateAfter(acc, start, log[..i]), log[i], scan);
    }
  }

  lemma {:induction false} StoredLinesAppend(a: seq<Exchange>, b: seq<Exchange>)
    ensures StoredLines(a + b) == StoredLines(a) + StoredLines(b)
    decreases |b|
  {
    if b == [] {
      assert a + b == a;
    } else {
      assert (a + b)[..|a + b| - 1] == a + b[..|b| - 1];
      StoredLinesAppend(a, b[..|b| - 1]);
    }
  }

  // The writes of whole lines add up to the lines stored.
  lemma {:induction false} ReplayIsStored(acc: seq<string>, log: seq<Exchange>)
    requires forall i :: 0 <= i < |log| ==> IsLine(log[i].line) && Classified(log[i])
    ensures Replay(History(acc, ""), log) == History(acc + StoredLines(log), "")
  {
    if log == [] {
      assert acc + [] == acc;
    } else {
      hide Write, IsLine, Classified;
      var init, x := log[..|log| - 1], log[|log| - 1];
      ReplayIsStored(acc, init);
      var lines := acc + StoredLines(init);
      assert IsLine(x.line) && Classified(x);
      StoredOrNot(lines, x);
      Assoc(acc, StoredLines(init), if x.outcome == Stored then [x.line] else []);
    }
  }

  lemma StoredOrNot(lines: seq<string>, x: Exchange)
    requires IsLine(x.line) && Classified(x)
    ensures x.outcome == Stored || x.outcome == NotStored ==>
              Write(History(lines, ""), x.line, x.faults).history
              == History(lines + if x.outcome == Stored then [x.line] else [], "")
    ensures lines + [] == lines
  {
    hide Write;
    WriteLine(lines, x.line, x.faults);
  }

  // Exactly the lines that start with these eighteen bytes are commands, and
  // nothing is written for a command.
  lemma {:induction false} CommandsAreNotWritten(acc: seq<string>, start: nat, events: seq<Event>, scan: Scanner, i: nat)
    requires start <= |Flat(LastN(acc))|
    requires i < |Run(State(History(acc, ""), start), events, scan).log|
    ensures var x := Run(State(History(acc, ""), start), events, scan).log[i];
            x.outcome == Stored || x.outcome == NotStored <==> !("AESDCHAR_IOCSEEKTO" <= x.line)
  {
    hide Run, Flat, LastN, Answered;
    EveryExchangeAnswered(acc, start, events, scan);
    AnsweredClassified(acc, start, Run(State(History(acc, ""), start), events, scan).log, scan);
  }

  // A command is refused, and its connection closed, exactly when it names an
  // eleventh line or a byte beyond the end of a line. A line that is not stored
  // is one of no bytes: offset 0 of it is accepted.
  lemma {:induction false} RefusedExactly(acc: seq<string>, start: nat, events: seq<Event>, scan: Scanner, i: nat)
    requires start <= |Flat(LastN(acc))|
    requires var log := Run(State(History(acc, ""), start), events, scan).log;
             i < |log| && TAG <= log[i].line && scan(log[i].rest).Some?
    ensures var log := Run(State(History(acc, ""), start), events, scan).log;
            var w, to := LastN(acc + StoredLines(log[..i])), scan(log[i].rest).value;
            log[i].outcome == Closed <==>
              to.cmd >= 10 || to.off > if to.cmd < |w| then |w[to.cmd]| else 0
  {
    hide Run, Flat, Seek;
    EveryExchangeAnswered(acc, start, events, scan);
    var log := Run(State(History(acc, ""), start), events, scan).log;
    assert Answers(StateAfter(acc, start, log[..i]), log[i], scan);
    var to := scan(log[i].rest).value;
    SeekExact(LastN(acc + StoredLines(log[..i])), to.cmd, to.off);
  }

  // A run that stops after m exchanges of event n leaves a device without a
  // tail holding the lines stored by a prefix of the whole run's log.
  lemma {:induction false} StoppedHistory(acc: seq<string>, start: nat, events: seq<Event>, scan: Scanner, n: nat, m: nat)
    requires start <= |Flat(LastN(acc))| && n < |events|
    requires events[n].client !in Run(State(History(acc, ""), start), events[..n], scan).closed
    requires m <= |ServeEvent(Run(State(History(acc, ""), start), events[..n], scan), events[n], scan).log|
    ensures var st := State(History(acc, ""), start);
            var w, e := Run(st, events[..n], scan), events[n];
            var log := w.log + ServeEvent(w, e, scan).log[..m];
            && log <= Run(st, events, scan).log
            && Replay(w.state.history, ServeEvent(w, e, scan).log[..m]) == History(acc + StoredLines(log), "")
  {
    hide Run, Serve, Flat, LastN, CString, Split, Answered, IsLine, StateAfter;
    var st := State(History(acc, ""), start);
    var w, e := Run(st, events[..n], scan), events[n];
    EveryExchangeAnswered(acc, start, events[..n], scan);
    LogOnlyGrows(st, events, scan, n, m);
    var all := ServeEvent(w, e, scan).log;
    ServeAnswers(acc, start, w.log, CString(e.chunk), scan, e.faults, 0);
    AnsweredClassified(acc, start, w.log + all, scan);
    ServesLines(w.state, CString(e.chunk), scan, e.faults, 0);
    SplitSound(CString(e.chunk));
    HistoryAfter(acc, start, w.log);
    forall i | 0 <= i < m ensures IsLine(all[..m][i].line) && Classified(all[..m][i]) {
      assert all[i].line == LinesOf(all)[i] && all[i] == (w.log + all)[|w.log| + i];
    }
    ReplayIsStored(acc + StoredLines(w.log), all[..m]);
    StoredLinesAppend(w.log, all[..m]);
    Assoc(acc, StoredLines(w.log), StoredLines(all[..m]));
  }

  lemma HistoryAfter(acc: seq<string>, start: nat, log: seq<Exchange>)
    ensures StateAfter(acc, start, log).history == History(acc + StoredLines(log), "")
  {
  }

  // -------------------------------------------------- which lines are served

  // A C string ends before the first NUL.
  lemma {:induction false} CStringEnds(s: string, more: string)
    requires '\0' !in s
    ensures CString(s) == s && CString(s + "\0" + more) == s
  {
    var t := s + "\0" + more;
    assert IndexOf(s, '\0') == |s|;
    assert t[|s|] == '\0' && forall k :: 0 <= k < |s| ==> t[k] == s[k];
    assert IndexOf(t, '\0') == |s|;
  }

  // x serves one of the lines of chunk e, sent by client c.
  ghost predicate CameIn(x: Exchange, c: nat, e: Event) {
    e.client == c && exists m: nat :: Serves(x, CString(e.chunk), m, e.faults, m)
  }

  ghost predicate Received(x: Exchange, c: nat, events: seq<Event>) {
    exists j :: 0 <= j < |events| && CameIn(x, c, events[j])
  }

  lemma ReceivedEarlier(x: Exchange, c: nat, events: seq<Event>)
    requires events != [] && Received(x, c, events[..|events| - 1])
    ensures Received(x, c, events)
  {
    hide CameIn;
    var j :| 0 <= j < |events| - 1 && CameIn(x, c, events[..|events| - 1][j]);
    assert CameIn(x, c, events[j]);
  }

  ghost predicate AllReceived(w: World, events: seq<Event>) {
    |w.log| == |w.from| && forall i :: 0 <= i < |w.log| ==> Received(w.log[i], w.from[i], events)
  }

  // Nothing is served that was not received: every exchange is about a line of
  // a chunk of its own client, with what fails when that line is written.
  lemma {:induction false} EveryExchangeReceived(st: State, events: seq<Event>, scan: Scanner)
    ensures AllReceived(Run(st, events, scan), events)
  {
    if events != [] {
      hide AllReceived, RunOne;
      EveryExchangeReceived(st, events[..|events| - 1], scan);
      ReceivedOneMore(Run(st, events[..|events| - 1], scan), events, scan);
    }
  }

  lemma ReceivedOneMore(w: World, events: seq<Event>, scan: Scanner)
    requires events != [] && AllReceived(w, events[..|events| - 1])
    ensures AllReceived(RunOne(w, events[|events| - 1], scan), events)
  {
    hide Serve, CString, CameIn, Received;
    var w' := RunOne(w, events[|events| - 1], scan);
    forall i | 0 <= i < |w'.log| ensures Received(w'.log[i], w'.from[i], events) {
      if i < |w.log| {
        assert w'.log[i] == w.log[i] && w'.from[i] == w.from[i];
        ReceivedEarlier(w.log[i], w.from[i], events);
      } else {
        ServedCameIn(w, events, scan, i - |w.log|);
      }
    }
  }

  lemma ServedCameIn(w: World, events: seq<Event>, scan: Scanner, m: nat)
    requires events != [] && m < |ServeEvent(w, events[|events| - 1], scan).log|
    ensures var e := events[|events| - 1]; Received(ServeEvent(w, e, scan).log[m], e.client, events)
  {
    hide Serve, CString, Serves;
    var e := events[|events| - 1];
    ServesLines(w.state, CString(e.chunk), scan, e.faults, 0);
    assert Serves(ServeEvent(w, e, scan).log[m], CString(e.chunk), m, e.faults, m);
    assert CameIn(ServeEvent(w, e, scan).log[m], e.client, e);
  }

  ghost predicate Refused(log: seq<Exchange>, from: seq<nat>, c: nat)
    requires |log| == |from|
  {
    exists i :: 0 <= i < |log| && from[i] == c && log[i].outcome == Closed
  }

  lemma {:induction false} RefusedAppend(a: seq<Exchange>, b: seq<Exchange>, from: seq<nat>, client: nat, c: nat)
    requires |a| == |from|
    requires forall i :: 0 <= i < |b| - 1 ==> b[i].outcome != Closed
    ensures Refused(a + b, from + Repeat(client, |b|), c) <==> Refused(a, from, c) || (client == c && Rejected(b))
  {
    var log, all := a + b, from + Repeat(client, |b|);
    assert forall i :: 0 <= i < |a| ==> log[i] == a[i] && all[i] == from[i];
    assert forall i :: |a| <= i < |log| ==> log[i] == b[i - |a|] && all[i] == client;
    if client == c && Rejected(b) {
      assert all[|log| - 1] == c && log[|log| - 1].outcome == Closed;
    } else if Refused(a, from, c) {
      var i :| 0 <= i < |a| && from[i] == c && a[i].outcome == Closed;
      assert all[i] == c && log[i].outcome == Closed;
    }
  }

  // A connection is closed exactly by a refused command of its own.
  lemma {:induction false} ClosedByCommand(st: State, events: seq<Event>, scan: Scanner, c: nat)
    ensures var w := Run(st, events, scan); c in w.closed <==> Refused(w.log, w.from, c)
  {
    if events != [] {
      hide Serve, CString, Refused, Serves, Split, LinesOf, Rejected;
      var init, e := events[..|events| - 1], events[|events| - 1];
      var w := Run(st, init, scan);
      ClosedByCommand(st, init, scan, c);
      if e.client !in w.closed {
        ServesLines(w.state, CString(e.chunk), scan, e.faults, 0);
        RefusedAppend(w.log, ServeEvent(w, e, scan).log, w.from, e.client, c);
      }
    }
  }

  // A refused command is the last exchange of its client.
  ghost predicate RefusedLast(log: seq<Exchange>, from: seq<nat>)
    requires |log| == |from|
  {
    forall i, j :: 0 <= i < j < |log| && from[i] == from[j] ==> log[i].outcome != Closed
  }

  lemma {:induction false} RefusedIsLast(st: State, events: seq<Event>, scan: Scanner)
    ensures var w := Run(st, events, scan); RefusedLast(w.log, w.from)
  {
    if events != [] {
      hide Serve, CString, Serves, Split, LinesOf, RefusedLast;
      var init, e := events[..|events| - 1], events[|events| - 1];
      var w := Run(st, init, scan);
      RefusedIsLast(st, init, scan);
      if e.client !in w.closed {
        ClosedByCommand(st, init, scan, e.client);
        ServesLines(w.state, CString(e.chunk), scan, e.faults, 0);
        RefusedLastAppend(w.log, ServeEvent(w, e, scan).log, w.from, e.client);
      }
    } else {
      assert Run(st, events, scan).log == [];
    }
  }

  lemma RefusedLastAppend(a: seq<Exchange>, b: seq<Exchange>, from: seq<nat>, client: nat)
    requires |a| == |from| && RefusedLast(a, from) && !Refused(a, from, client)
    requires forall i :: 0 <= i < |b| - 1 ==> b[i].outcome != Closed
    ensures RefusedLast(a + b, from + Repeat(client, |b|))
  {
    var log, all := a + b, from + Repeat(client, |b|);
    assert forall i :: 0 <= i < |a| ==> log[i] == a[i] && all[i] == from[i];
    assert forall i :: |a| <= i < |log| ==> log[i] == b[i - |a|] && all[i] == client;
  }

  // What the clients of a group sent, each chunk up to its NUL.
  function TextsOf(events: seq<Event>, group: nat -> bool): seq<string> {
    if events == [] then []
    else
      var e := events[|events| - 1];
      TextsOf(events[..|events| - 1], group) + if group(e.client) then [CString(e.chunk)] else []
  }

  // The lines served to the clients of a group, in lock order.
  function LinesBy(log: seq<Exchange>, from: seq<nat>, group: nat -> bool): seq<string>
    requires |log| == |from|
  {
    if log == [] then []
    else
      var n := |log| - 1;
      LinesBy(log[..n], from[..n], group) + if group(from[n]) then [log[n].line] else []
  }

  function Only(client: nat): nat -> bool {
    c => c == client
  }

  function Everyone(): nat -> bool {
    c => true
  }

  lemma {:induction false} LinesByAppend(a: seq<Exchange>, b: seq<Exchange>, from: seq<nat>, client: nat,
                                         group: nat -> bool)
    requires |a| == |from|
    ensures LinesBy(a + b, from + Repeat(client, |b|), group)
            == LinesBy(a, from, group) + if group(client) then LinesOf(b) else []
    decreases |b|
  {
    var all := from + Repeat(client, |b|);
    if b == [] {
      assert a + b == a && all == from;
    } else {
      var n := |b| - 1;
      assert (a + b)[..|a| + n] == a + b[..n];
      assert all[..|a| + n] == from + Repeat(client, n);
      LinesByAppend(a, b[..n], from, client, group);
      assert LinesOf(b) == LinesOf(b[..n]) + [b[n].line];
    }
  }

  lemma {:induction false} LinesByEveryone(log: seq<Exchange>, from: seq<nat>)
    requires |log| == |from|
    ensures LinesBy(log, from, Everyone()) == LinesOf(log)
  {
    if log != [] {
      LinesByEveryone(log[..|log| - 1], from[..|log| - 1]);
    }
  }

  lemma CutEachSnoc(chunks: seq<string>, c: string)
    ensures CutEach(chunks + [c]) == CutEach(chunks) + Split(c).lines
    ensures chunks + [] == chunks
  {
    assert (chunks + [c])[..|chunks|] == chunks;
  }

  // For any clients whose connections were not closed, the lines served are
  // all the lines of their chunks, in lock order.
  lemma {:induction false} EveryLineServed(st: State, events: seq<Event>, scan: Scanner, group: nat -> bool)
    requires forall c :: c in Run(st, events, scan).closed ==> !group(c)
    ensures var w := Run(st, events, scan);
            LinesBy(w.log, w.from, group) == CutEach(TextsOf(events, group))
  {
    if events != [] {
      hide Serve, CString, Split, CutEach, LinesOf, LinesBy;
      var init, e := events[..|events| - 1], events[|events| - 1];
      var w := Run(st, init, scan);
      EveryLineServed(st, init, scan, group);
      CutEachSnoc(TextsOf(init, group), CString(e.chunk));
      if e.client !in w.closed {
        var s := ServeEvent(w, e, scan).log;
        ServesLines(w.state, CString(e.chunk), scan, e.faults, 0);
        LinesByAppend(w.log, s, w.from, e.client, group);
        assert LinesBy(w.log, w.from, group) + [] == LinesBy(w.log, w.from, group);
      }
    }
  }

  lemma {:induction false} AllLinesServed(st: State, events: seq<Event>, scan: Scanner)
    requires Run(st, events, scan).closed == {}
    ensures LinesOf(Run(st, events, scan).log) == CutEach(TextsOf(events, Everyone()))
  {
    hide Run;
    var w := Run(st, events, scan);
    EveryLineServed(st, events, scan, Everyone());
    LinesByEveryone(w.log, w.from);
  }

  // Unlike the device, the server does not carry a tail over to the next
  // chunk. A client's lines are those of the stream it sent exactly when every
  // chunk that does not end at a line end is followed only by chunks that
  // complete no line.
  lemma {:induction false} ChunkSeam(st: State, events: seq<Event>, scan: Scanner, client: nat)
    requires client !in Run(st, events, scan).closed
    ensures var w, texts := Run(st, events, scan), TextsOf(events, Only(client));
            LinesBy(w.log, w.from, Only(client)) == Split(Flat(texts)).lines <==> Seamless(texts)
  {
    hide Run, Split, Seamless;
    EveryLineServed(st, events, scan, Only(client));
    SplitSeams(TextsOf(events, Only(client)));
  }

  // The line abc, received in two reads, is served as c.
  lemma {:induction false} SplitLineLosesItsHead(st: State, a: Event, b: Event, scan: Scanner)
    requires a.client == b.client && a.chunk == "ab" && b.chunk == "c\n"
    ensures LinesOf(Run(st, [a, b], scan).log) == ["c\n"]
  {
    hide Split, CString, Serve;
    assert [a, b][..1] == [a] && [a][..0] == [];
    CStringEnds("ab", "");
    CStringEnds("c\n", "");
    SplitUnique([], "ab");
    assert Flat([]) + "ab" == "ab";
    SplitUnique(["c\n"], "");
    assert Flat(["c\n"]) + "" == "c\n";
    var w := Run(st, [a], scan);
    ServesLines(st, "ab", scan, a.faults, 0);
    assert Run(st, [], scan) == World(st, [], [], {});
    assert w == RunOne(World(st, [], [], {}), a, scan);
    assert w.log == [] + Serve(st, "ab", scan, a.faults, 0).log == [] && w.closed == {};
    ServesLines(w.state, "c\n", scan, b.faults, 0);
    assert Run(st, [a, b], scan) == RunOne(w, b, scan);
  }

  // ------------------------------------------------------- nothing failing

  ghost predicate FaultFree(events: seq<Event>) {
    forall i :: 0 <= i < |events| ==> forall k :: events[i].faults(k) == NO_FAULTS
  }

  // The lines that are not commands.
  function Ordinary(lines: seq<string>): seq<string> {
    if lines == [] then []
    else
      var l := lines[|lines| - 1];
      Ordinary(lines[..|lines| - 1]) + if TAG <= l then [] else [l]
  }

  lemma {:induction false} StoredIsOrdinary(log: seq<Exchange>)
    requires forall i :: 0 <= i < |log| ==> (log[i].outcome == Stored <==> !(TAG <= log[i].line))
    ensures StoredLines(log) == Ordinary(LinesOf(log))
  {
    if log != [] {
      var init := log[..|log| - 1];
      StoredIsOrdinary(init);
      assert LinesOf(log)[..|log| - 1] == LinesOf(init);
    }
  }

  lemma {:induction false} NothingFailed(st: State, events: seq<Event>, scan: Scanner)
    requires FaultFree(events)
    ensures var log := Run(st, events, scan).log;
            forall i :: 0 <= i < |log| ==> log[i].faults == NO_FAULTS
  {
    hide Run, CString, Split, Flat;
    EveryExchangeReceived(st, events, scan);
    var w := Run(st, events, scan);
    forall i | 0 <= i < |w.log| ensures w.log[i].faults == NO_FAULTS {
      assert Received(w.log[i], w.from[i], events);
      var j :| 0 <= j < |events| && CameIn(w.log[i], w.from[i], events[j]);
    }
  }

  // The promise the server makes its clients, for any mixture of lines and
  // commands: when nothing fails the lines that are not commands, and only
  // those, are stored, and each is answered with the newest lines of the
  // device in lock order, itself last.
  lemma {:induction false} FaultFreeTraffic(acc: seq<string>, start: nat, events: seq<Event>, scan: Scanner)
    requires FaultFree(events) && start <= |Flat(LastN(acc))|
    ensures var w := Run(State(History(acc, ""), start), events, scan);
            && w.state.history == History(acc + Ordinary(LinesOf(w.log)), "")
            && forall i :: 0 <= i < |w.log| ==>
                 var x := w.log[i];
                 && x.outcome != NotStored
                 && (x.outcome == Stored <==> !(TAG <= x.line))
                 && (!(TAG <= x.line) ==>
                       && x.reply == Flat(LastN(acc + Ordinary(LinesOf(w.log[..i]) + [x.line])))
                       && EndsWith(x.reply, x.line))
  {
    hide Run, Flat, LastN, EndsWith, Ordinary, LinesOf, Answered, StoredLines, FaultFree;
    var st := State(History(acc, ""), start);
    var log := Run(st, events, scan).log;
    EveryExchangeAnswered(acc, start, events, scan);
    NothingFailed(st, events, scan);
    AnsweredClassified(acc, start, log, scan);
    StoredIsOrdinary(log);
    forall i | 0 <= i < |log| && !(TAG <= log[i].line)
      ensures log[i].reply == Flat(LastN(acc + Ordinary(LinesOf(log[..i]) + [log[i].line])))
      ensures EndsWith(log[i].reply, log[i].line)
    {
      OrdinaryReply(acc, start, log, scan, i);
    }
  }

  lemma OrdinaryReply(acc: seq<string>, start: nat, log: seq<Exchange>, scan: Scanner, i: nat)
    requires Answered(acc, start, log, scan)
    requires forall j :: 0 <= j < |log| ==> (log[j].outcome == Stored <==> !(TAG <= log[j].line))
    requires i < |log| && log[i].outcome == Stored
    ensures log[i].reply == Flat(LastN(acc + Ordinary(LinesOf(log[..i]) + [log[i].line])))
    ensures EndsWith(log[i].reply, log[i].line)
  {
    hide Flat, LastN, EndsWith, LinesOf;
    var before, line := LinesOf(log[..i]), log[i].line;
    assert Answers(StateAfter(acc, start, log[..i]), log[i], scan);
    StoredIsOrdinary(log[..i]);
    assert (before + [line])[..|before|] == before;
    Assoc(acc, Ordinary(before), [line]);
    NewestLast(acc + Ordinary(before), line);
  }
}
