/**
 * A miroir splits one single-pass upstream reader into two readers that
 * each see the whole stream. Everything pulled from upstream goes through
 * a tee into an append-only buffer; a reader behind the frontier is served
 * from the buffer, a reader at the frontier pulls from upstream.
 *
 * The first half of the module states the behaviour on values: `Snapshot`
 * is the shared state, `Tee` one read through the tee, `Serve` one call of
 * `miroir.read`. The lemmas after them state what one call of
 * `miroir.read` guarantees. The classes at the end are the objects of the
 * Go code, and each of their methods is proved to do what the matching
 * function says.
 */
module Miroir {
  import opened Upstream

  /** The shared state a call sees: upstream's position and read count, and the buffer. */
  datatype Snapshot = Snapshot(consumed: nat, calls: nat, buf: seq<Byte>)

  /** What a call leaves behind and hands back: new state, bytes written into `p`, status. */
  datatype Outcome = Outcome(after: Snapshot, data: seq<Byte>, status: Status)

  /** The tee invariant: the buffer is exactly what upstream has handed out. */
  predicate Coherent(src: seq<Byte>, s: Snapshot)
  {
    s.consumed <= |src| && s.buf == src[..s.consumed]
  }

  /** One read of `k` bytes through io.TeeReader: ask upstream, append what it handed out. */
  function Tee(src: seq<Byte>, respond: Policy, s: Snapshot, k: nat): (o: Outcome)
    requires Honest(src, respond) && s.consumed <= |src|
    ensures s.consumed <= o.after.consumed <= |src|
    ensures |o.data| <= k
  {
    var r := respond(s.calls, s.consumed, k);
    assert Admissible(src, s.consumed, k, r);
    var data := src[s.consumed..s.consumed + r.count];
    Outcome(Snapshot(s.consumed + r.count, s.calls + 1, s.buf + data), data, r.status)
  }

  /**
   * One call of `miroir.read(start, p)` with `len(p) == cap`: a buffer hit
   * copies what the buffer holds from `start` and, when that does not fill
   * `p`, reads the rest from upstream; otherwise the call reads from
   * upstream directly.
   */
  function Serve(src: seq<Byte>, respond: Policy, s: Snapshot, start: nat, cap: nat): (o: Outcome)
    requires Honest(src, respond) && s.consumed <= |src|
    ensures s.consumed <= o.after.consumed <= |src|
    ensures |o.data| <= cap
  {
    if start < |s.buf| then
      var n := Min(cap, |s.buf| - start);
      var head := s.buf[start..start + n];
      if n < cap then
        var rest := Tee(src, respond, s, cap - n);
        Outcome(rest.after, head + rest.data, rest.status)
      else
        Outcome(s, head, Ok)
    else
      Tee(src, respond, s, cap)
  }

  /** True when the call is served entirely from the buffer (bytes.Reader.ReadAt fills `p`). */
  predicate FullHit(s: Snapshot, start: nat, cap: nat)
  {
    start < |s.buf| && start + cap <= |s.buf|
  }

  // ---------------------------------------------------------------------
  // Properties of one call

  /**
   * Tee invariant: whatever path a call takes, the buffer stays exactly
   * what upstream has handed out, it only grows, and it grows by exactly
   * the bytes upstream handed out during the call.
   */
  lemma ServeKeepsTee(src: seq<Byte>, respond: Policy, s: Snapshot, start: nat, cap: nat)
    requires Honest(src, respond) && Coherent(src, s)
    ensures var o := Serve(src, respond, s, start, cap);
      && Coherent(src, o.after)
      && s.buf <= o.after.buf
      && o.after.buf == s.buf + src[s.consumed..o.after.consumed]
  {
    var o := Serve(src, respond, s, start, cap);
    assert o.after.buf == s.buf + src[s.consumed..o.after.consumed];
    assert src[..o.after.consumed] == src[..s.consumed] + src[s.consumed..o.after.consumed];
  }

  /**
   * Upstream is touched exactly when the buffer cannot fill the request,
   * and then exactly once: a full buffer hit leaves upstream and the
   * buffer alone.
   */
  lemma UpstreamTouchedUnlessFullHit(src: seq<Byte>, respond: Policy, s: Snapshot, start: nat, cap: nat)
    requires Honest(src, respond) && s.consumed <= |src|
    ensures var o := Serve(src, respond, s, start, cap);
      && (FullHit(s, start, cap) ==> o.after == s)
      && (!FullHit(s, start, cap) ==> o.after.calls == s.calls + 1)
  {
  }

  /** Full buffer hit: the call returns `buf[start..start+cap]`, all of `p`, with no error. */
  lemma FullBufferHit(src: seq<Byte>, respond: Policy, s: Snapshot, start: nat, cap: nat)
    requires Honest(src, respond) && s.consumed <= |src|
    requires FullHit(s, start, cap)
    ensures Serve(src, respond, s, start, cap) == Outcome(s, s.buf[start..start + cap], Ok)
  {
  }

  /**
   * Partial buffer hit: the buffered bytes from `start` come first, the
   * rest of `p` is asked of upstream, the count is the sum and the status
   * is upstream's.
   */
  lemma PartialBufferHit(src: seq<Byte>, respond: Policy, s: Snapshot, start: nat, cap: nat)
    requires Honest(src, respond) && s.consumed <= |src|
    requires start < |s.buf| < start + cap
    ensures var o := Serve(src, respond, s, start, cap);
      var r := respond(s.calls, s.consumed, cap - (|s.buf| - start));
      && |o.data| == |s.buf| - start + r.count
      && o.data == s.buf[start..] + src[s.consumed..s.consumed + r.count]
      && o.status == r.status
      && o.after == Snapshot(s.consumed + r.count, s.calls + 1, s.buf + src[s.consumed..s.consumed + r.count])
  {
    var r := respond(s.calls, s.consumed, cap - (|s.buf| - start));
    assert Admissible(src, s.consumed, cap - (|s.buf| - start), r);
  }

  /** Frontier read: the call returns upstream's count, bytes and status unchanged. */
  lemma FrontierRead(src: seq<Byte>, respond: Policy, s: Snapshot, start: nat, cap: nat)
    requires Honest(src, respond) && s.consumed <= |src|
    requires |s.buf| <= start
    ensures var o := Serve(src, respond, s, start, cap);
      var r := respond(s.calls, s.consumed, cap);
      && |o.data| == r.count
      && o.data == src[s.consumed..s.consumed + r.count]
      && o.status == r.status
  {
    var r := respond(s.calls, s.consumed, cap);
    assert Admissible(src, s.consumed, cap, r);
  }

  /**
   * Per-call correctness: a reader at a position the buffer has reached
   * receives the next bytes of the stream from its own position, and ends
   * up at a position the buffer has reached.
   */
  lemma ServesStream(src: seq<Byte>, respond: Policy, s: Snapshot, start: nat, cap: nat)
    requires Honest(src, respond) && Coherent(src, s)
    requires start <= |s.buf|
    ensures var o := Serve(src, respond, s, start, cap);
      && start + |o.data| <= |o.after.buf|
      && o.data == src[start..start + |o.data|]
  {
    var o := Serve(src, respond, s, start, cap);
    ServeKeepsTee(src, respond, s, start, cap);
    if start < |s.buf| && |s.buf| < start + cap {
      PartialBufferHit(src, respond, s, start, cap);
      var r := respond(s.calls, s.consumed, cap - (|s.buf| - start));
      assert s.buf[start..] == src[start..s.consumed];
      assert src[start..s.consumed] + src[s.consumed..s.consumed + r.count] == src[start..s.consumed + r.count];
    } else if start < |s.buf| {
      assert o.data == s.buf[start..start + cap];
    } else {
      FrontierRead(src, respond, s, start, cap);
    }
  }

  /**
   * End of stream is reported only to a reader that has drained the
   * stream: after an io.EOF the reader's new position is the end of `src`.
   */
  lemma EofOnlyWhenDrained(src: seq<Byte>, respond: Policy, s: Snapshot, start: nat, cap: nat)
    requires Honest(src, respond) && Coherent(src, s)
    requires start <= |s.buf|
    ensures var o := Serve(src, respond, s, start, cap);
      o.status == Eof ==> start + |o.data| == |src|
  {
    if start < |s.buf| && |s.buf| < start + cap {
      PartialBufferHit(src, respond, s, start, cap);
      var r := respond(s.calls, s.consumed, cap - (|s.buf| - start));
      assert Admissible(src, s.consumed, cap - (|s.buf| - start), r);
    } else if |s.buf| <= start {
      FrontierRead(src, respond, s, start, cap);
      assert Admissible(src, s.consumed, cap, respond(s.calls, s.consumed, cap));
    }
  }

  /** A call that reports io.EOF completes the stream from the caller's position. */
  lemma EofCompletesStream(src: seq<Byte>, respond: Policy, s: Snapshot, start: nat, cap: nat)
    requires Honest(src, respond) && Coherent(src, s) && start <= |s.buf|
    ensures var o := Serve(src, respond, s, start, cap);
      o.status == Eof ==> src[..start] + o.data == src
  {
    ServesStream(src, respond, s, start, cap);
    EofOnlyWhenDrained(src, respond, s, start, cap);
    var o := Serve(src, respond, s, start, cap);
    if o.status == Eof {
      assert o.data == src[start..];
    }
  }

  /**
   * End of stream repeats: a reader that has drained the stream gets no
   * bytes and never a success, the buffer is left alone, and the status is
   * what this call's own upstream attempt reported (io.EOF for a reader
   * that keeps reporting it).
   */
  lemma DrainedReaderGetsNothing(src: seq<Byte>, respond: Policy, s: Snapshot, start: nat, cap: nat)
    requires Honest(src, respond) && Coherent(src, s)
    requires start <= |s.buf| && start == |src|
    ensures var o := Serve(src, respond, s, start, cap);
      && o.data == []
      && o.status != Ok
      && o.status == respond(s.calls, s.consumed, cap).status
      && o.after.buf == s.buf
  {
    FrontierRead(src, respond, s, start, cap);
    assert Admissible(src, s.consumed, cap, respond(s.calls, s.consumed, cap));
  }

  /**
   * A read that drains the last buffered bytes while upstream is exhausted
   * returns those bytes together with upstream's status, never a success;
   * with an upstream that reports io.EOF, that is `(k, EOF)`.
   */
  lemma LastBufferedBytes(src: seq<Byte>, respond: Policy, s: Snapshot, start: nat, cap: nat)
    requires Honest(src, respond) && Coherent(src, s)
    requires s.consumed == |src| && start < |s.buf| < start + cap
    ensures var o := Serve(src, respond, s, start, cap);
      && o.data == s.buf[start..]
      && o.status != Ok
      && o.status == respond(s.calls, s.consumed, cap - (|s.buf| - start)).status
  {
    PartialBufferHit(src, respond, s, start, cap);
    var r := respond(s.calls, s.consumed, cap - (|s.buf| - start));
    assert Admissible(src, s.consumed, cap - (|s.buf| - start), r);
  }

  /**
   * Upstream errors are not cached: a failed upstream attempt that hands
   * out nothing leaves the buffer as it was, and the next call at the same
   * position, by either reader, makes an upstream attempt of its own and
   * gets that attempt's outcome.
   */
  lemma FailureNotReplayed(src: seq<Byte>, respond: Policy, s: Snapshot, start: nat, cap: nat, cap2: nat)
    requires Honest(src, respond) && Coherent(src, s)
    requires start == |s.buf|
    requires respond(s.calls, s.consumed, cap).status.Fail?
    requires respond(s.calls, s.consumed, cap).count == 0
    ensures var o := Serve(src, respond, s, start, cap);
      var o2 := Serve(src, respond, o.after, start, cap2);
      var r2 := respond(s.calls + 1, s.consumed, cap2);
      && o.data == []
      && o.status == respond(s.calls, s.consumed, cap).status
      && o.after.buf == s.buf
      && o2.status == r2.status
      && o2.data == src[s.consumed..s.consumed + r2.count]
  {
    var o := Serve(src, respond, s, start, cap);
    FrontierRead(src, respond, s, start, cap);
    assert o.after == Snapshot(s.consumed, s.calls + 1, s.buf);
    FrontierRead(src, respond, o.after, start, cap2);
  }

  /** A buffer hit that does not fill `p` is the buffered bytes followed by one tee read for the rest. */
  lemma BufferThenTee(src: seq<Byte>, respond: Policy, s: Snapshot, start: nat, cap: nat, head: seq<Byte>, rest: Outcome)
    requires Honest(src, respond) && s.consumed <= |src|
    requires start < |s.buf| && Min(cap, |s.buf| - start) < cap
    requires head == s.buf[start..start + Min(cap, |s.buf| - start)]
    requires rest == Tee(src, respond, s, cap - Min(cap, |s.buf| - start))
    ensures Serve(src, respond, s, start, cap) == Outcome(rest.after, head + rest.data, rest.status)
  {
  }

  // ---------------------------------------------------------------------
  // The objects

  /** The shared state behind both readers (Go's `miroir` struct). */
  class Miroir {
    const up: Source
    var buf: seq<Byte>

    ghost predicate Valid()
      reads this, up
    {
      up.Valid() && buf == up.src[..up.consumed]
    }

    /** The current shared state as a value. */
    function View(): Snapshot
      reads this, up
    {
      Snapshot(up.consumed, up.calls, buf)
    }

    constructor (up: Source)
      requires up.Valid() && up.consumed == 0
      ensures Valid() && this.up == up && buf == []
    {
      this.up := up;
      buf := [];
    }

    /** Go's `m.r.Read(p[off:])`, where `m.r` is the tee from upstream into `buf`. */
    method TeeRead(p: array<Byte>, off: nat) returns (n: nat, status: Status)
      requires Valid() && off <= p.Length
      modifies this, up, p
      ensures Valid()
      ensures off + n <= p.Length
      ensures Outcome(View(), p[off..off + n], status) == Tee(up.src, up.respond, old(View()), p.Length - off)
      ensures p[..off] == old(p[..off]) && p[off + n..] == old(p[off + n..])
    {
      n, status := up.Read(p, off);
      buf := buf + p[off..off + n];
    }

    /**
     * bytes.NewReader(buf).ReadAt(p, start) for `start < len(buf)`: copies
     * as much of the buffer from `start` as fits into `p`.
     */
    method CopyFromBuffer(start: nat, p: array<Byte>) returns (n: nat)
      requires start < |buf|
      modifies p
      ensures n == Min(p.Length, |buf| - start)
      ensures p[..n] == buf[start..start + n] && p[n..] == old(p[n..])
    {
      n := Min(p.Length, |buf| - start);
      forall i | 0 <= i < n {
        p[i] := buf[start + i];
      }
    }

    /**
     * The rest of a buffer hit that did not fill `p`: `m.r.Read(p[n:])`,
     * counted on top of the `n` bytes already in `p`.
     */
    method ReadRest(p: array<Byte>, n: nat) returns (total: nat, status: Status)
      requires Valid() && n <= p.Length
      modifies this, up, p
      ensures Valid()
      ensures n <= total <= p.Length
      ensures var rest := Tee(up.src, up.respond, old(View()), p.Length - n);
        View() == rest.after && p[..total] == old(p[..n]) + rest.data && status == rest.status
      ensures p[total..] == old(p[total..])
    {
      ghost var head := p[..n];
      var n2;
      n2, status := TeeRead(p, n);
      assert p[..n] == head;
      assert p[..n + n2] == head + p[n..n + n2];
      total := n + n2;
    }

    /**
     * The buffer-hit path of `miroir.read`, for `start < len(buf)`: ReadAt
     * copies what the buffer holds from `start`; when that does not fill
     * `p` (ReadAt's io.EOF), the rest of `p` is read through the tee and
     * its status is the call's, otherwise the call succeeds.
     */
    method ReadBuffered(start: nat, p: array<Byte>) returns (n: nat, status: Status)
      requires Valid() && start < |buf|
      modifies this, up, p
      ensures Valid()
      ensures n <= p.Length
      ensures Outcome(View(), p[..n], status) == Serve(up.src, up.respond, old(View()), start, p.Length)
      ensures p[n..] == old(p[n..])
    {
      ghost var s := View();
      n := CopyFromBuffer(start, p);
      if n < p.Length {
        ghost var head, k := p[..n], n;
        n, status := ReadRest(p, n);
        BufferThenTee(up.src, up.respond, s, start, p.Length, head, Tee(up.src, up.respond, s, p.Length - k));
      } else {
        status := Ok;
        FullBufferHit(up.src, up.respond, s, start, p.Length);
      }
    }

    /** Go's `miroir.read(start, p)`, one call under the lock. */
    method Read(start: nat, p: array<Byte>) returns (n: nat, status: Status)
      requires Valid()
      modifies this, up, p
      ensures Valid()
      ensures n <= p.Length
      ensures Outcome(View(), p[..n], status) == Serve(up.src, up.respond, old(View()), start, p.Length)
      ensures p[n..] == old(p[n..])
      ensures old(buf) <= buf
      ensures start <= |old(buf)| ==> start + n <= |buf| && p[..n] == up.src[start..start + n]
    {
      ghost var s := View();
      ghost var src, respond := up.src, up.respond;
      if start < |buf| {
        n, status := ReadBuffered(start, p);
      } else {
        n, status := TeeRead(p, 0);
      }
      ServeKeepsTee(src, respond, s, start, p.Length);
      if start <= |s.buf| {
        ServesStream(src, respond, s, start, p.Length);
      }
    }
  }

  /**
   * One of the two readers (Go's `reader`): a position in the stream.
   * `received` is every byte this reader has been handed, in order.
   */
  class Reader {
    const m: Miroir
    var pos: nat
    ghost var received: seq<Byte>

    ghost predicate Valid()
      reads this, m, m.up
    {
      m.Valid() && pos <= |m.buf| && received == m.up.src[..pos]
    }

    constructor (m: Miroir)
      requires m.Valid()
      ensures Valid() && this.m == m && pos == 0 && received == []
    {
      this.m := m;
      pos := 0;
      received := [];
    }

    /**
     * Go's `reader.Read(p)`: one call of `miroir.read` at this reader's
     * position, which then advances by the count returned, errors included.
     */
    method Read(p: array<Byte>) returns (n: nat, status: Status)
      requires Valid()
      modifies this, m, m.up, p
      ensures Valid()
      ensures n <= p.Length
      ensures Outcome(m.View(), p[..n], status) == Serve(m.up.src, m.up.respond, old(m.View()), old(pos), p.Length)
      ensures pos == old(pos) + n
      ensures p[..n] == m.up.src[old(pos)..pos]
      ensures received == old(received) + p[..n]
      ensures p[n..] == old(p[n..])
      ensures old(m.buf) <= m.buf
    {
      n, status := m.Read(pos, p);
      pos := pos + n;
      received := received + p[..n];
    }
  }

  /** Go's `NewMiroir(r)`: one shared state over `up` and two readers on it, both at the start. */
  method NewMiroir(up: Source) returns (left: Reader, right: Reader)
    requires up.Valid() && up.consumed == 0
    ensures fresh(left) && fresh(right) && fresh(left.m)
    ensures left != right && left.m == right.m && left.m.up == up
    ensures left.m.buf == [] && left.pos == 0 && right.pos == 0
    ensures left.Valid() && right.Valid()
  {
    var m := new Miroir(up);
    left := new Reader(m);
    right := new Reader(m);
  }
}
