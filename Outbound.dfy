/** The outbound queue of a connection (tPlayer::outbuf) and how ProcessWrite drains
    it.  The socket is an oracle: the answers write() gives, one per call, in order. */
module Outbound {

  /** The bytes a queue of chunks stands for. */
  function Concat(q: seq<string>): string
  {
    if q == [] then [] else q[0] + Concat(q[1..])
  }

  lemma ConcatAppend(a: seq<string>, b: seq<string>)
    ensures Concat(a + b) == Concat(a) + Concat(b)
  {
    if a == [] {
      assert a + b == b;
    } else {
      assert (a + b)[0] == a[0] && (a + b)[1..] == a[1..] + b;
      ConcatAppend(a[1..], b);
    }
  }

  /** The bytes of one chunk. */
  lemma ConcatOne(a: string)
    ensures Concat([a]) == a
  {
    assert Concat([a]) == a + Concat([]);
  }

  /** The bytes of two chunks. */
  lemma ConcatPair(a: string, b: string)
    ensures Concat([a, b]) == a + b
  {
    assert [a, b][1..] == [b];
    assert Concat([b]) == b + Concat([]);
  }

  /** The next answer of the oracle: -1 (write failed or would block) or the number
      of bytes written.  Once the given answers are used up, every write would block. */
  function Answer(w: seq<int>): int
  {
    if w == [] then -1 else w[0]
  }

  /** The answers left after one write call. */
  function Later(w: seq<int>): seq<int>
  {
    if w == [] then [] else w[1..]
  }

  /** What one ProcessWrite produced: the bytes that reached the socket, the queue
      left behind, and the oracle answers it did not use. */
  datatype Flushed = Flushed(sent: string, queue: seq<string>, unused: seq<int>)

  /** ProcessWrite on an open connection: pop the front chunk and write it; a
      negative answer puts the whole chunk back and stops, a short write puts the
      unsent suffix back and stops, a full write goes on with the next chunk.  An
      answer above the chunk length cannot come from write() and counts as full. */
  function Flush(q: seq<string>, w: seq<int>): (r: Flushed)
    decreases |q|
    ensures |r.queue| <= |q|
  {
    if q == [] then Flushed([], [], w)
    else
      var n := Answer(w);
      if n < 0 then Flushed([], [q[0]] + q[1..], Later(w))
      else if n < |q[0]| then Flushed(q[0][..n], [q[0][n..]] + q[1..], Later(w))
      else
        var f := Flush(q[1..], Later(w));
        Flushed(q[0] + f.sent, f.queue, f.unused)
  }

  /** No byte is lost or duplicated: what was written, followed by what is still
      queued, is exactly what was queued before. */
  lemma {:induction false} FlushConserves(q: seq<string>, w: seq<int>)
    decreases |q|
    ensures Flush(q, w).sent + Concat(Flush(q, w).queue) == Concat(q)
  {
    if q != [] {
      var n := Answer(w);
      var c := q[0];
      if n < 0 {
        assert [c] + q[1..] == q;
      } else if n < |c| {
        var left := [c[n..]] + q[1..];
        assert left[0] == c[n..] && left[1..] == q[1..];
        assert c[..n] + c[n..] == c;
      } else {
        FlushConserves(q[1..], Later(w));
      }
    }
  }

  /** The queue left behind keeps the original order: it is empty (everything was
      written), or it is the original queue from some chunk k on, with only chunk k
      shortened to its unsent suffix from byte n; what was sent is everything before. */
  lemma {:induction false} FlushShape(q: seq<string>, w: seq<int>) returns (k: nat, n: nat)
    decreases |q|
    ensures Flush(q, w).queue != [] ==>
              k < |q| && n <= |q[k]| &&
              Flush(q, w).queue == [q[k][n..]] + q[k + 1..] &&
              Flush(q, w).sent == Concat(q[..k]) + q[k][..n]
    ensures Flush(q, w).queue == [] ==> Flush(q, w).sent == Concat(q)
  {
    k, n := 0, 0;
    if q != [] {
      var a := Answer(w);
      var c := q[0];
      if a < 0 {
        assert q[..0] == [] && c[..0] == [] && c[0..] == c;
      } else if a < |c| {
        n := a;
        assert q[..0] == [];
      } else {
        var f := Flush(q[1..], Later(w));
        var k', n' := FlushShape(q[1..], Later(w));
        if f.queue != [] {
          k, n := k' + 1, n';
          ShapeShift(q, k', n');
        }
      }
    }
  }

  /** The shape of the queue after the first chunk went out whole, in terms of the
      whole queue. */
  lemma ShapeShift(q: seq<string>, k': nat, n': nat)
    requires q != [] && k' < |q| - 1 && n' <= |q[1..][k']|
    ensures q[1..][k'][n'..] == q[k' + 1][n'..] && q[1..][k' + 1..] == q[k' + 2..]
    ensures q[0] + (Concat(q[1..][..k']) + q[1..][k'][..n']) == Concat(q[..k' + 1]) + q[k' + 1][..n']
  {
    assert q[..k' + 1] == [q[0]] + q[1..][..k'];
    assert q[..k' + 1][0] == q[0] && q[..k' + 1][1..] == q[1..][..k'];
  }

  /** A write that fails or would block leaves the queue exactly as it was. */
  lemma FlushFailure(q: seq<string>, w: seq<int>)
    requires q != [] && Answer(w) < 0
    ensures Flush(q, w) == Flushed([], q, Later(w))
  {
    assert [q[0]] + q[1..] == q;
  }

  /** Each chunk costs one answer: the unused answers are what the oracle has left
      after at most |q| write calls. */
  lemma {:induction false} FlushUsesAnswers(q: seq<string>, w: seq<int>)
    decreases |q|
    ensures |Flush(q, w).unused| <= |w|
    ensures |Flush(q, w).unused| >= |w| - |q|
    ensures Flush(q, w).unused == w[|w| - |Flush(q, w).unused|..]
  {
    if q != [] && Answer(w) >= |q[0]| {
      FlushUsesAnswers(q[1..], Later(w));
      var u := Flush(q[1..], Later(w)).unused;
      if w != [] {
        assert Later(w)[|Later(w)| - |u|..] == w[|w| - |u|..];
      }
    }
  }

  /** A history of a connection's outbound queue: messages queued by Send, and
      flushes with the oracle answers the socket gave during each. */
  datatype QueueOp = Enqueue(m: string) | Transmit(answers: seq<int>)

  /** The bytes written over the whole history, and the queue at its end. */
  datatype History = History(written: string, queue: seq<string>)

  function Run(q: seq<string>, ops: seq<QueueOp>): History
    decreases |ops|
  {
    if ops == [] then History([], q)
    else match ops[0]
      case Enqueue(m) => Run(q + [m], ops[1..])
      case Transmit(w) =>
        var f := Flush(q, w);
        var h := Run(f.queue, ops[1..]);
        History(f.sent + h.written, h.queue)
  }

  /** The messages queued over a history. */
  function Enqueued(ops: seq<QueueOp>): seq<string>
    decreases |ops|
  {
    if ops == [] then []
    else match ops[0]
      case Enqueue(m) => [m] + Enqueued(ops[1..])
      case Transmit(_) => Enqueued(ops[1..])
  }

  /** However sends and partial writes interleave, the bytes seen on the socket,
      followed by what is still queued, are the queued messages in order. */
  lemma {:induction false} RunConserves(q: seq<string>, ops: seq<QueueOp>)
    decreases |ops|
    ensures Run(q, ops).written + Concat(Run(q, ops).queue) == Concat(q) + Concat(Enqueued(ops))
  {
    if ops != [] {
      match ops[0]
      case Enqueue(m) =>
        RunConserves(q + [m], ops[1..]);
        ConcatAppend(q, [m]);
        ConcatAppend([m], Enqueued(ops[1..]));
      case Transmit(w) =>
        var f := Flush(q, w);
        var h := Run(f.queue, ops[1..]);
        RunConserves(f.queue, ops[1..]);
        FlushConserves(q, w);
        calc {
          Run(q, ops).written + Concat(Run(q, ops).queue);
          f.sent + (h.written + Concat(h.queue));
          (f.sent + Concat(f.queue)) + Concat(Enqueued(ops[1..]));
          Concat(q) + Concat(Enqueued(ops));
        }
    }
  }
}
