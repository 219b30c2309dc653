/**
 * Any interleaving of reads by the two readers of one miroir. Each call
 * is one `Serve` step at the calling side's position, after which that
 * side advances by the count it was handed; the lock makes every call one
 * atomic step, so a run is a sequence of such steps.
 */
module Interleaving {
  import opened Upstream
  import opened Miroir

  datatype Side = Left | Right

  /** One `Read` call: which reader, and `len(p)`. */
  datatype Call = Call(side: Side, cap: nat)

  /** The shared state and both readers' positions. */
  datatype Pair = Pair(shared: Snapshot, left: nat, right: nat)

  /** What a run leaves behind and what each side was handed, in order. */
  datatype Trace = Trace(final: Pair, gotLeft: seq<Byte>, gotRight: seq<Byte>)

  /** What one call hands back to its caller. */
  datatype Answer = Answer(data: seq<Byte>, status: Status)

  function Position(c: Pair, side: Side): nat
  {
    match side
    case Left => c.left
    case Right => c.right
  }

  /** Both positions lie within what the buffer holds, and the buffer is what upstream handed out. */
  predicate Consistent(src: seq<Byte>, c: Pair)
  {
    Coherent(src, c.shared) && c.left <= |c.shared.buf| && c.right <= |c.shared.buf|
  }

  /** The state after NewMiroir: nothing read, both readers at the start. */
  function Start(): Pair
  {
    Pair(Snapshot(0, 0, []), 0, 0)
  }

  /** The outcome of one call, as seen by the caller. */
  function CallOutcome(src: seq<Byte>, respond: Policy, c: Pair, call: Call): Outcome
    requires Honest(src, respond) && c.shared.consumed <= |src|
  {
    Serve(src, respond, c.shared, Position(c, call.side), call.cap)
  }

  /** The state after one `reader.Read` call: `miroir.read` at the side's position, then `pos += n`. */
  function Step(src: seq<Byte>, respond: Policy, c: Pair, call: Call): (next: Pair)
    requires Honest(src, respond) && c.shared.consumed <= |src|
    ensures next.shared.consumed <= |src|
  {
    var o := CallOutcome(src, respond, c, call);
    match call.side
    case Left => Pair(o.after, c.left + |o.data|, c.right)
    case Right => Pair(o.after, c.left, c.right + |o.data|)
  }

  /** A run of calls in order. */
  function Run(src: seq<Byte>, respond: Policy, c: Pair, calls: seq<Call>): (t: Trace)
    requires Honest(src, respond) && c.shared.consumed <= |src|
    ensures t.final.shared.consumed <= |src|
    decreases |calls|
  {
    if calls == [] then Trace(c, [], [])
    else
      var data := CallOutcome(src, respond, c, calls[0]).data;
      var t := Run(src, respond, Step(src, respond, c, calls[0]), calls[1..]);
      match calls[0].side
      case Left => Trace(t.final, data + t.gotLeft, t.gotRight)
      case Right => Trace(t.final, t.gotLeft, data + t.gotRight)
  }

  /** What each call of a run hands back, in order. */
  function Answers(src: seq<Byte>, respond: Policy, c: Pair, calls: seq<Call>): seq<Answer>
    requires Honest(src, respond) && c.shared.consumed <= |src|
    decreases |calls|
  {
    if calls == [] then []
    else
      var o := CallOutcome(src, respond, c, calls[0]);
      [Answer(o.data, o.status)] + Answers(src, respond, Step(src, respond, c, calls[0]), calls[1..])
  }

  /**
   * One call keeps both readers within the buffer, hands the caller the
   * stream from its own position, and leaves the other reader alone.
   */
  lemma StepConsistent(src: seq<Byte>, respond: Policy, c: Pair, call: Call)
    requires Honest(src, respond) && Consistent(src, c)
    ensures var next, o := Step(src, respond, c, call), CallOutcome(src, respond, c, call);
      && Consistent(src, next)
      && Position(next, call.side) == Position(c, call.side) + |o.data|
      && o.data == src[Position(c, call.side)..Position(next, call.side)]
      && (call.side == Left ==> next.right == c.right)
      && (call.side == Right ==> next.left == c.left)
  {
    var start := Position(c, call.side);
    ServeKeepsTee(src, respond, c.shared, start, call.cap);
    ServesStream(src, respond, c.shared, start, call.cap);
  }

  /**
   * Whatever the interleaving and whatever the read sizes, each reader is
   * handed exactly the stream from where it stood to where it ends up, the
   * buffer stays what upstream handed out, and positions only grow.
   */
  lemma {:induction false} RunDeliversStream(src: seq<Byte>, respond: Policy, c: Pair, calls: seq<Call>)
    requires Honest(src, respond) && Consistent(src, c)
    ensures var t := Run(src, respond, c, calls);
      && Consistent(src, t.final)
      && c.left <= t.final.left && c.right <= t.final.right
      && t.gotLeft == src[c.left..t.final.left]
      && t.gotRight == src[c.right..t.final.right]
    decreases |calls|
  {
    if calls != [] {
      var next := Step(src, respond, c, calls[0]);
      StepConsistent(src, respond, c, calls[0]);
      RunDeliversStream(src, respond, next, calls[1..]);
      var t := Run(src, respond, next, calls[1..]);
      if calls[0].side == Left {
        SplitSlice(src, c.left, next.left, t.final.left);
      } else {
        SplitSlice(src, c.right, next.right, t.final.right);
      }
    }
  }

  lemma SplitSlice(s: seq<Byte>, i: nat, j: nat, k: nat)
    requires i <= j <= k <= |s|
    ensures s[i..j] + s[j..k] == s[i..k]
  {
  }

  /**
   * From NewMiroir on, what each reader has been handed is a prefix of the
   * stream, and the bytes upstream has handed out are in the buffer once,
   * in order.
   */
  lemma ReadersSeePrefixes(src: seq<Byte>, respond: Policy, calls: seq<Call>)
    requires Honest(src, respond)
    ensures var t := Run(src, respond, Start(), calls);
      && Consistent(src, t.final)
      && t.gotLeft == src[..t.final.left]
      && t.gotRight == src[..t.final.right]
      && t.final.shared.buf == src[..t.final.shared.consumed]
  {
    RunDeliversStream(src, respond, Start(), calls);
  }

  /**
   * A reader whose last call reported io.EOF has been handed the whole
   * stream, whatever the other reader did.
   */
  lemma EofMeansWholeStream(src: seq<Byte>, respond: Policy, calls: seq<Call>, call: Call)
    requires Honest(src, respond)
    ensures var t := Run(src, respond, Start(), calls);
      var o := CallOutcome(src, respond, t.final, call);
      var got := if call.side == Left then t.gotLeft else t.gotRight;
      o.status == Eof ==> got + o.data == src
  {
    ReadersSeePrefixes(src, respond, calls);
    var t := Run(src, respond, Start(), calls);
    EofCompletesStream(src, respond, t.final.shared, Position(t.final, call.side), call.cap);
  }

  /**
   * End of stream repeats, per side: once a call has reported io.EOF to a
   * reader, every later call by that reader, whatever the other reader did
   * in between, hands it nothing and no success. The status is the reply of
   * an upstream that has handed out everything (io.EOF for strings.Reader).
   */
  lemma EofRepeats(src: seq<Byte>, respond: Policy, c: Pair, call: Call, between: seq<Call>, again: Call)
    requires Honest(src, respond) && Consistent(src, c)
    requires again.side == call.side
    ensures var o := CallOutcome(src, respond, c, call);
      var later := Run(src, respond, Step(src, respond, c, call), between).final;
      var o2 := CallOutcome(src, respond, later, again);
      o.status == Eof ==>
        && later.shared.consumed == |src|
        && o2.data == []
        && o2.status != Ok
        && o2.status == respond(later.shared.calls, |src|, again.cap).status
  {
    var o := CallOutcome(src, respond, c, call);
    var next := Step(src, respond, c, call);
    StepConsistent(src, respond, c, call);
    EofOnlyWhenDrained(src, respond, c.shared, Position(c, call.side), call.cap);
    RunDeliversStream(src, respond, next, between);
    var later := Run(src, respond, next, between).final;
    if o.status == Eof {
      assert Position(later, again.side) == |src|;
      DrainedReaderGetsNothing(src, respond, later.shared, |src|, again.cap);
    }
  }
}
