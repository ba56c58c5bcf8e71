/** The line framer of ProcessRead: the input buffer is cut at each '\n' into raw
    lines, and whatever follows the last '\n' stays buffered for the next read. */
module Framing {
  import opened Wrappers
  import opened Text
  import Outbound

  /** The complete lines found in a buffer, and what is left of it. */
  datatype Framed = Framed(lines: seq<string>, rest: string)

  predicate NoNewline(s: string) {
    '\n' !in s
  }

  predicate AllNoNewline(lines: seq<string>) {
    forall k :: 0 <= k < |lines| ==> NoNewline(lines[k])
  }

  /** The bytes a sequence of lines came from: each line followed by its '\n'. */
  function JoinLines(lines: seq<string>): string
  {
    if lines == [] then [] else lines[0] + "\n" + JoinLines(lines[1..])
  }

  /** One more line in front: its bytes and its '\n' come first. */
  lemma JoinCons(s: string, k: nat, rest: string, tail: seq<string>)
    requires k < |s| && s[k] == '\n'
    requires JoinLines(tail) + rest == s[k + 1..]
    ensures JoinLines([s[..k]] + tail) + rest == s
  {
    var lines := [s[..k]] + tail;
    assert lines[0] == s[..k] && lines[1..] == tail;
    assert JoinLines(lines) == s[..k] + "\n" + JoinLines(tail);
    assert s[..k + 1] == s[..k] + "\n";
  }

  /** Repeatedly peel off the text before the first '\n' (the for(;;) loop of
      ProcessRead, extraction only). */
  function Split(s: string): (r: Framed)
    decreases |s|
    ensures NoNewline(r.rest) && |r.lines| <= |s|
  {
    match IndexOf(s, '\n')
    case None => Framed([], s)
    case Some(k) =>
      var f := Split(s[k + 1..]);
      Framed([s[..k]] + f.lines, f.rest)
  }

  /** Every line and the tail are newline-free, and together with the '\n's that
      ended the lines they are exactly the buffer. */
  lemma {:induction false} SplitSound(s: string)
    decreases |s|
    ensures NoNewline(Split(s).rest) && AllNoNewline(Split(s).lines)
    ensures JoinLines(Split(s).lines) + Split(s).rest == s
  {
    match IndexOf(s, '\n')
    case None =>
    case Some(k) =>
      var f := Split(s[k + 1..]);
      SplitSound(s[k + 1..]);
      JoinCons(s, k, f.rest, f.lines);
      var lines := [s[..k]] + f.lines;
      assert forall j :: 1 <= j < |lines| ==> lines[j] == f.lines[j - 1];
  }

  /** Split peels off the text before the first '\n' and goes on after it. */
  lemma SplitStep(s: string, k: nat)
    requires IndexOf(s, '\n') == Some(k)
    ensures Split(s) == Framed([s[..k]] + Split(s[k + 1..]).lines, Split(s[k + 1..]).rest)
  {
  }

  /** A buffer without '\n' holds no complete line. */
  lemma SplitNone(s: string)
    requires IndexOf(s, '\n') == None
    ensures Split(s) == Framed([], s)
  {
  }

  /** TrimAll of a line in front of others. */
  lemma TrimAllCons(l: string, ls: seq<string>)
    ensures TrimAll([l] + ls) == [Trim(l)] + TrimAll(ls)
  {
    assert ([l] + ls)[0] == l && ([l] + ls)[1..] == ls;
  }

  lemma JoinLinesAppend(a: seq<string>, b: seq<string>)
    ensures JoinLines(a + b) == JoinLines(a) + JoinLines(b)
  {
    if a == [] {
      assert a + b == b;
    } else {
      assert (a + b)[0] == a[0] && (a + b)[1..] == a[1..] + b;
      JoinLinesAppend(a[1..], b);
    }
  }

  /** Splitting undoes joining: newline-free lines and a newline-free tail are
      recovered exactly from their bytes. */
  lemma {:induction false} SplitJoin(lines: seq<string>, rest: string)
    requires AllNoNewline(lines) && NoNewline(rest)
    ensures Split(JoinLines(lines) + rest) == Framed(lines, rest)
  {
    if lines != [] {
      var l := lines[0];
      var tail := JoinLines(lines[1..]) + rest;
      assert JoinLines(lines) == (l + "\n") + JoinLines(lines[1..]);
      AppendAssoc(l + "\n", JoinLines(lines[1..]), rest);
      SplitFirstLine(l, tail);
      assert AllNoNewline(lines[1..]) by {
        forall k | 0 <= k < |lines| - 1 ensures NoNewline(lines[1..][k]) {
          assert lines[1..][k] == lines[k + 1];
        }
      }
      SplitJoin(lines[1..], rest);
      assert [l] + lines[1..] == lines;
    } else {
      assert JoinLines(lines) + rest == [] + rest == rest;
      SplitNone(rest);
    }
  }

  /** A newline-free line and its '\n' in front of a buffer are peeled off first. */
  lemma SplitFirstLine(l: string, tail: string)
    requires NoNewline(l)
    ensures Split(l + "\n" + tail) == Framed([l] + Split(tail).lines, Split(tail).rest)
  {
    var s := l + "\n" + tail;
    assert s[|l|] == '\n' && s[..|l|] == l;
    assert IndexOf(s, '\n') == Some(|l|);
    assert s[|l| + 1..] == tail;
    SplitStep(s, |l|);
  }

  /** Two reads frame like one: the lines of the first read, then those of its
      leftover plus the second read, are the lines of both reads at once. */
  lemma SplitFeeds(a: string, b: string)
    ensures var fa := Split(a);
            var fb := Split(fa.rest + b);
            Split(a + b) == Framed(fa.lines + fb.lines, fb.rest)
  {
    var fa := Split(a);
    var fb := Split(fa.rest + b);
    SplitSound(a);
    SplitSound(fa.rest + b);
    JoinShift(fa.lines, fa.rest, fb.lines, fb.rest, a, b);
    AllNoNewlineAppend(fa.lines, fb.lines);
    SplitJoin(fa.lines + fb.lines, fb.rest);
  }

  /** Lines joined in two goes are the lines joined at once. */
  lemma JoinShift(la: seq<string>, ra: string, lb: seq<string>, rb: string, a: string, b: string)
    requires JoinLines(la) + ra == a
    requires JoinLines(lb) + rb == ra + b
    ensures JoinLines(la + lb) + rb == a + b
  {
    JoinLinesAppend(la, lb);
    assert JoinLines(la + lb) + rb == JoinLines(la) + (JoinLines(lb) + rb);
    assert JoinLines(la) + (ra + b) == (JoinLines(la) + ra) + b;
  }

  lemma AllNoNewlineAppend(a: seq<string>, b: seq<string>)
    requires AllNoNewline(a) && AllNoNewline(b)
    ensures AllNoNewline(a + b)
  {
    forall k | 0 <= k < |a| + |b| ensures NoNewline((a + b)[k]) {
      if k < |a| { assert (a + b)[k] == a[k]; }
      else { assert (a + b)[k] == b[k - |a|]; }
    }
  }

  /** What a sequence of reads adds to the buffer: of each read, the bytes before
      its first NUL. */
  function ConcatReads(chunks: seq<string>): (r: string)
    ensures '\0' !in r
  {
    if chunks == [] then [] else UpToNul(chunks[0]) + ConcatReads(chunks[1..])
  }

  /** Feeding the reads one after another into a buffer, keeping the leftover of
      each read for the next, as ProcessRead does across calls that bring data.  The
      chunks stand for non-empty reads: an empty read is end of file, which ends the
      session (ReadStep) instead of adding nothing. */
  function FeedAll(buf: string, chunks: seq<string>): (r: Framed)
    decreases |chunks|
    ensures chunks != [] ==> NoNewline(r.rest)
  {
    if chunks == [] then Framed([], buf)
    else
      var f := Split(buf + UpToNul(chunks[0]));
      var g := FeedAll(f.rest, chunks[1..]);
      Framed(f.lines + g.lines, g.rest)
  }

  /** Fragmentation does not matter: starting from a buffer that holds no complete
      line, however the reads are cut, the same lines come out and the same tail
      stays buffered as when everything they add arrives at once. */
  lemma {:induction false} FeedAllIsOneFeed(buf: string, chunks: seq<string>)
    requires NoNewline(buf)
    decreases |chunks|
    ensures FeedAll(buf, chunks) == Split(buf + ConcatReads(chunks))
  {
    if chunks == [] {
      assert buf + ConcatReads(chunks) == buf;
      SplitJoin([], buf);
    } else {
      var first := buf + UpToNul(chunks[0]);
      var later := ConcatReads(chunks[1..]);
      var f := Split(first);
      SplitSound(first);
      FeedAllIsOneFeed(f.rest, chunks[1..]);
      SplitFeeds(first, later);
      ConcatReadsCons(buf, chunks);
    }
  }

  lemma ConcatReadsCons(buf: string, chunks: seq<string>)
    requires chunks != []
    ensures buf + ConcatReads(chunks) == (buf + UpToNul(chunks[0])) + ConcatReads(chunks[1..])
  {
  }

  /** Reads without NUL bytes add exactly their bytes, so then any cutting of a
      byte stream into reads frames like one read of the whole stream. */
  lemma {:induction false} ConcatReadsNulFree(chunks: seq<string>)
    requires forall k :: 0 <= k < |chunks| ==> '\0' !in chunks[k]
    ensures ConcatReads(chunks) == Outbound.Concat(chunks)
  {
    if chunks != [] {
      ConcatReadsNulFree(chunks[1..]);
    }
  }

  /** Hence for NUL-free reads any cutting of a byte stream frames like one read of
      the whole stream. */
  lemma FeedAllNulFree(buf: string, chunks: seq<string>)
    requires NoNewline(buf) && forall k :: 0 <= k < |chunks| ==> '\0' !in chunks[k]
    ensures FeedAll(buf, chunks) == Split(buf + Outbound.Concat(chunks))
  {
    FeedAllIsOneFeed(buf, chunks);
    ConcatReadsNulFree(chunks);
  }

  /** Two cuttings of the same NUL-free stream into reads yield the same lines and
      the same leftover. */
  lemma FeedAllCuttingIrrelevant(buf: string, a: seq<string>, b: seq<string>)
    requires NoNewline(buf)
    requires forall k :: 0 <= k < |a| ==> '\0' !in a[k]
    requires forall k :: 0 <= k < |b| ==> '\0' !in b[k]
    requires Outbound.Concat(a) == Outbound.Concat(b)
    ensures FeedAll(buf, a) == FeedAll(buf, b)
  {
    FeedAllNulFree(buf, a);
    FeedAllNulFree(buf, b);
  }

  /** One read of "a\0b\n" adds only "a" to the buffer and yields no line. */
  lemma NulInOneRead()
    ensures FeedAll([], ["a\0b\n"]) == Framed([], "a")
  {
    var one := "a\0b\n";
    assert IndexOf(one, '\0') == Some(1);
    assert UpToNul(one) == "a";
    assert IndexOf("a", '\n') == None;
    SplitNone("a");
    assert [] + "a" == "a";
  }

  /** The read "b\n" completes a buffered "a" to the line "ab". */
  lemma CompletesLine()
    ensures FeedAll("a", ["b\n"]) == Framed(["ab"], [])
  {
    var y := "b\n";
    assert IndexOf(y, '\0') == None;
    assert UpToNul(y) == y;
    assert "a" + y == "ab\n";
    SplitFirstLine("ab", []);
    assert "ab" + "\n" + [] == "ab\n";
    SplitNone([]);
  }

  /** The reads "a\0" and "b\n" yield the line "ab". */
  lemma NulEndsFirstRead()
    ensures FeedAll([], ["a\0", "b\n"]) == Framed(["ab"], [])
  {
    var x := "a\0";
    assert IndexOf(x, '\0') == Some(1);
    assert UpToNul(x) == "a";
    assert IndexOf("a", '\n') == None;
    SplitNone("a");
    assert [] + "a" == "a";
    assert ["a\0", "b\n"][1..] == ["b\n"];
    CompletesLine();
  }

  /** With a NUL inside a read the cutting does matter: one read of "a\0b\n" adds
      only "a" and yields no line, while the reads "a\0" and "b\n" yield "ab". */
  lemma NulBreaksFragmentation()
    ensures FeedAll([], ["a\0b\n"]) == Framed([], "a")
    ensures FeedAll([], ["a\0", "b\n"]) == Framed(["ab"], [])
  {
    NulInOneRead();
    NulEndsFirstRead();
  }

  /** What a read adds to the buffer: the C string in buf, which ends at the first
      NUL byte read, or at the terminator placed after the last byte. */
  function UpToNul(data: string): (r: string)
    ensures '\0' !in r
    ensures '\0' !in data ==> r == data
    ensures '\0' in data ==> r == data[..IndexOf(data, '\0').value]
  {
    match IndexOf(data, '\0')
    case None => data
    case Some(k) => data[..k]
  }

  /** Every line trimmed, as ProcessRead does before dispatching it. */
  function TrimAll(lines: seq<string>): (r: seq<string>)
    ensures |r| == |lines|
    ensures forall k :: 0 <= k < |lines| ==> r[k] == Trim(lines[k])
  {
    if lines == [] then [] else [Trim(lines[0])] + TrimAll(lines[1..])
  }
}
