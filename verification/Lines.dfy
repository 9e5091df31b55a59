// Byte streams cut into newline-terminated lines: what the device and the
// server both mean by "a line", with the facts every other module uses.
module Lines {

  // Position of the first c in s, or |s| when there is none (memchr, strchr).
  function IndexOf(s: string, c: char): (k: nat)
    ensures k <= |s|
    ensures forall i :: 0 <= i < k ==> s[i] != c
    ensures k < |s| ==> s[k] == c
  {
    if s == [] || s[0] == c then 0 else 1 + IndexOf(s[1..], c)
  }

  ghost predicate NoNewline(s: string) {
    forall i :: 0 <= i < |s| ==> s[i] != '\n'
  }

  // A non-empty string whose only newline is its last byte.
  ghost predicate IsLine(l: string) {
    && |l| > 0
    && l[|l| - 1] == '\n'
    && forall i :: 0 <= i < |l| - 1 ==> l[i] != '\n'
  }

  ghost predicate AllLines(ls: seq<string>) {
    forall i :: 0 <= i < |ls| ==> IsLine(ls[i])
  }

  datatype Cut = Cut(lines: seq<string>, rest: string)

  // The newline-terminated lines of a stream, and the unterminated tail.
  function Split(s: string): Cut
    decreases |s|
  {
    var k := IndexOf(s, '\n');
    if k == |s| then Cut([], s)
    else
      var c := Split(s[k + 1..]);
      Cut([s[..k + 1]] + c.lines, c.rest)
  }

  function Flat(ls: seq<string>): string {
    if ls == [] then "" else ls[0] + Flat(ls[1..])
  }

  // How many of the newest items the device keeps.
  const CAPACITY: nat := 10

  // The newest CAPACITY items.
  function LastN<T>(s: seq<T>): seq<T> {
    if |s| <= CAPACITY then s else s[|s| - CAPACITY..]
  }

  lemma Assoc<T>(a: seq<T>, b: seq<T>, c: seq<T>)
    ensures (a + b) + c == a + (b + c)
  {
  }

  lemma SliceOfDrop<T>(s: seq<T>, from: nat, n: nat)
    requires from + n <= |s|
    ensures s[from..][..n] == s[from..from + n]
    ensures s[from..][n..] == s[from + n..]
  {
  }

  lemma FlatCons(l: string, ls: seq<string>, r: string)
    ensures Flat([l] + ls) + r == l + (Flat(ls) + r)
  {
    assert ([l] + ls)[1..] == ls;
    Assoc(l, Flat(ls), r);
  }

  lemma {:induction false} FlatAppend(a: seq<string>, b: seq<string>)
    ensures Flat(a + b) == Flat(a) + Flat(b)
  {
    if a == [] {
      assert a + b == b;
    } else {
      assert (a + b)[1..] == a[1..] + b;
      FlatAppend(a[1..], b);
    }
  }

  lemma FlatSnoc(a: seq<string>, l: string)
    ensures Flat(a + [l]) == Flat(a) + l
  {
    FlatAppend(a, [l]);
    assert [l][1..] == [];
    assert Flat([l]) == l + "";
  }

  // The bytes of the first k + 1 lines.
  lemma FlatTake(ls: seq<string>, k: nat)
    requires k < |ls|
    ensures Flat(ls[..k + 1]) == Flat(ls[..k]) + ls[k]
  {
    assert ls[..k + 1] == ls[..k] + [ls[k]];
    FlatSnoc(ls[..k], ls[k]);
  }

  // Taking the lines apart at k.
  lemma FlatCut(ls: seq<string>, k: nat)
    requires k <= |ls|
    ensures Flat(ls) == Flat(ls[..k]) + Flat(ls[k..])
  {
    assert ls == ls[..k] + ls[k..];
    FlatAppend(ls[..k], ls[k..]);
  }

  // The first line of a stream that has one, and what is left.
  lemma {:induction false} SplitHead(t: string)
    requires IndexOf(t, '\n') < |t|
    ensures var n := IndexOf(t, '\n') + 1;
            && |Split(t).lines| > 0 && Split(t).lines[0] == t[..n] && IsLine(t[..n])
            && Split(t[n..]) == Cut(Split(t).lines[1..], Split(t).rest)
  {
  }

  // Split takes a leading line off whole.
  lemma {:induction false} SplitUnfold(l: string, t: string)
    requires IsLine(l)
    ensures Split(l + t) == Cut([l] + Split(t).lines, Split(t).rest)
  {
    var s := l + t;
    assert s[|l| - 1] == '\n';
    assert IndexOf(s, '\n') == |l| - 1;
    assert s[..|l|] == l && s[|l|..] == t;
  }

  // Split loses nothing, and every piece has the promised shape.
  lemma {:induction false} SplitSound(s: string)
    ensures Flat(Split(s).lines) + Split(s).rest == s
    ensures AllLines(Split(s).lines)
    ensures NoNewline(Split(s).rest)
    decreases |s|
  {
    var k := IndexOf(s, '\n');
    if k < |s| {
      var l, t := s[..k + 1], s[k + 1..];
      assert l + t == s;
      SplitUnfold(l, t);
      SplitSound(t);
      ConsSound(l, Split(t));
    }
  }

  lemma ConsSound(l: string, c: Cut)
    requires IsLine(l) && AllLines(c.lines)
    ensures AllLines([l] + c.lines)
    ensures Flat([l] + c.lines) + c.rest == l + (Flat(c.lines) + c.rest)
  {
    FlatCons(l, c.lines, c.rest);
  }

  // Split is the only decomposition of that shape.
  lemma {:induction false} SplitUnique(ls: seq<string>, r: string)
    requires AllLines(ls) && NoNewline(r)
    ensures Split(Flat(ls) + r) == Cut(ls, r)
    decreases |ls|
  {
    if ls == [] {
      assert Flat(ls) + r == r;
    } else {
      assert ls == [ls[0]] + ls[1..];
      FlatCons(ls[0], ls[1..], r);
      SplitUnique(ls[1..], r);
      SplitUnfold(ls[0], Flat(ls[1..]) + r);
    }
  }

  // Cutting a stream in two and carrying the tail over changes nothing.
  lemma {:induction false} SplitAppend(a: string, b: string)
    ensures Split(a + b).lines == Split(a).lines + Split(Split(a).rest + b).lines
    ensures Split(a + b).rest == Split(Split(a).rest + b).rest
  {
    var p := Split(a);
    var q := Split(p.rest + b);
    SplitSound(a);
    SplitSound(p.rest + b);
    FlatAppend(p.lines, q.lines);
    Assoc(Flat(p.lines), p.rest, b);
    Assoc(Flat(p.lines), Flat(q.lines), q.rest);
    SplitUnique(p.lines + q.lines, q.rest);
  }

  lemma LastNAbsorb<T>(a: seq<T>, b: seq<T>)
    ensures LastN(LastN(a) + b) == LastN(a + b)
  {
  }

  // Unfinished bytes in front of a stream make its first line longer, if it
  // has one.
  lemma {:induction false} TailInFront(r: string, b: string)
    requires NoNewline(r)
    ensures |Split(r + b).lines| == |Split(b).lines|
    ensures Split(r + b).lines == Split(b).lines <==> r == "" || Split(b).lines == []
    ensures Split(b).lines == [] ==> Split(r + b).rest == r + b
  {
    hide Split;
    var n := IndexOf(b, '\n') + 1;
    if n > |b| {
      SplitNone(b);
      SplitNone(r + b);
    } else {
      SplitHead(b);
      var l := r + b[..n];
      assert IsLine(l);
      assert r + b == l + b[n..];
      SplitUnfold(l, b[n..]);
      assert r != "" ==> |l| > |b[..n]|;
      assert r == "" ==> r + b == b;
    }
  }

  lemma SplitNone(s: string)
    requires NoNewline(s)
    ensures Split(s) == Cut([], s)
  {
  }

  // The lines of each chunk on its own.
  function CutEach(chunks: seq<string>): seq<string> {
    if chunks == [] then []
    else CutEach(chunks[..|chunks| - 1]) + Split(chunks[|chunks| - 1]).lines
  }

  // A chunk with unfinished bytes is followed only by chunks that complete no line.
  ghost predicate Seamless(chunks: seq<string>) {
    forall i, j :: 0 <= i < j < |chunks| ==> Split(chunks[i]).rest == "" || Split(chunks[j]).lines == []
  }

  ghost predicate NothingLeft(chunks: seq<string>) {
    forall i :: 0 <= i < |chunks| ==> Split(chunks[i]).rest == ""
  }

  lemma {:induction false} SeamlessSnoc(chunks: seq<string>, c: string)
    ensures Seamless(chunks + [c]) <==> Seamless(chunks) && (NothingLeft(chunks) || Split(c).lines == [])
    ensures NothingLeft(chunks + [c]) <==> NothingLeft(chunks) && Split(c).rest == ""
  {
    hide Split;
    var all := chunks + [c];
    assert all[|chunks|] == c && forall i :: 0 <= i < |chunks| ==> all[i] == chunks[i];
  }

  lemma {:induction false} RestOfSeamless(chunks: seq<string>)
    requires Seamless(chunks)
    ensures Split(Flat(chunks)).rest == "" <==> NothingLeft(chunks)
  {
    if chunks != [] {
      hide Split, Flat, Seamless, NothingLeft;
      var init, c := chunks[..|chunks| - 1], chunks[|chunks| - 1];
      assert chunks == init + [c];
      SeamlessSnoc(init, c);
      RestOfSeamless(init);
      FlatSnoc(init, c);
      RestAppend(Flat(init), c);
    }
  }

  lemma {:induction false} RestAppend(a: string, c: string)
    requires Split(a).rest == "" || Split(c).lines == []
    ensures Split(a + c).rest == Split(a).rest + Split(c).rest
  {
    hide Split;
    SplitSound(a);
    SplitAppend(a, c);
    TailInFront(Split(a).rest, c);
    TailInFront("", c);
    assert "" + c == c;
    assert "" + Split(c).rest == Split(c).rest;
  }

  // Cutting chunks apart instead of carrying the unfinished bytes over loses
  // nothing exactly when the chunks are seamless.
  lemma {:induction false} SplitSeams(chunks: seq<string>)
    ensures CutEach(chunks) == Split(Flat(chunks)).lines <==> Seamless(chunks)
  {
    if chunks != [] {
      hide Split, Flat, Seamless, NothingLeft;
      var init, c := chunks[..|chunks| - 1], chunks[|chunks| - 1];
      assert chunks == init + [c];
      SeamlessSnoc(init, c);
      SplitSeams(init);
      FlatSnoc(init, c);
      SplitSound(Flat(init));
      SplitAppend(Flat(init), c);
      var r := Split(Flat(init)).rest;
      TailInFront(r, c);
      SameParts(CutEach(init), Split(c).lines, Split(Flat(init)).lines, Split(r + c).lines);
      if Seamless(init) {
        RestOfSeamless(init);
      }
    }
  }

  lemma SameParts<T>(a: seq<T>, b: seq<T>, c: seq<T>, d: seq<T>)
    requires |b| == |d|
    ensures a + b == c + d <==> a == c && b == d
  {
    if a + b == c + d {
      assert |a| == |a + b| - |b|;
      assert (a + b)[..|a|] == a && (a + b)[|a|..] == b;
      assert (c + d)[..|c|] == c && (c + d)[|c|..] == d;
    }
  }
}
