/**
 * The read sequences of the repository's interleaving test, on a miroir
 * over strings.NewReader of a nine-byte string such as "foobarbaz". Each
 * lemma states what every call of its sequence hands back: the bytes, as
 * slices of the string ("foo" is `src[0..3]`), and the status. The last
 * method replays the injected-error test on the objects themselves.
 */
module Scenarios {
  import opened Upstream
  import opened Miroir
  import opened Interleaving

  function Max(a: nat, b: nat): nat
  {
    if a <= b then b else a
  }

  /**
   * Over a strings.Reader upstream the miroir is transparent: every call
   * hands back as much of the stream from the caller's position as fits,
   * whether it comes from the buffer, from upstream or from both; io.EOF
   * comes exactly when the call had to ask an already exhausted upstream;
   * and the buffer ends where the furthest reader stands.
   */
  lemma StringsReaderServe(src: seq<Byte>, s: Snapshot, start: nat, cap: nat)
    requires Coherent(src, s) && start <= |s.buf|
    ensures var o := Serve(src, StringsReader(src), s, start, cap);
      && o.data == src[start..start + Min(cap, |src| - start)]
      && (o.status == Eof <==> !FullHit(s, start, cap) && |s.buf| == |src|)
      && (o.status == Ok <==> FullHit(s, start, cap) || |s.buf| < |src|)
      && |o.after.buf| == Max(|s.buf|, start + |o.data|)
  {
    var respond := StringsReader(src);
    ServesStream(src, respond, s, start, cap);
    ServeKeepsTee(src, respond, s, start, cap);
    if start < |s.buf| && |s.buf| < start + cap {
      PartialBufferHit(src, respond, s, start, cap);
    } else if |s.buf| <= start {
      FrontierRead(src, respond, s, start, cap);
    }
  }

  /** One call of a run over strings.Reader, with the new state spelled out. */
  lemma StepOverString(src: seq<Byte>, c: Pair, call: Call)
    requires Consistent(src, c)
    ensures var o, next := CallOutcome(src, StringsReader(src), c, call), Step(src, StringsReader(src), c, call);
      var start, size, held := Position(c, call.side), call.cap, |c.shared.buf|;
      var full := start < held && start + size <= held;
      var reach := Max(held, start + Min(size, |src| - start));
      && o.data == src[start..start + Min(size, |src| - start)]
      && o.status == (if full || held < |src| then Ok else Eof)
      && next == Pair(Snapshot(reach, c.shared.calls + (if full then 0 else 1), src[..reach]),
                      if call.side == Left then start + |o.data| else c.left,
                      if call.side == Right then start + |o.data| else c.right)
  {
    var start := Position(c, call.side);
    StringsReaderServe(src, c.shared, start, call.cap);
    StepConsistent(src, StringsReader(src), c, call);
    UpstreamTouchedUnlessFullHit(src, StringsReader(src), c.shared, start, call.cap);
  }

  /**
   * `states` is a run of `calls` spelled out state by state, and `answers`
   * is what each call handed back.
   */
  ghost predicate Replays(src: seq<Byte>, respond: Policy, states: seq<Pair>, calls: seq<Call>, answers: seq<Answer>)
    requires Honest(src, respond)
  {
    && |states| == |calls| + 1
    && |answers| == |calls|
    && forall i :: 0 <= i < |calls| ==>
      && states[i].shared.consumed <= |src|
      && Step(src, respond, states[i], calls[i]) == states[i + 1]
      && Answer(CallOutcome(src, respond, states[i], calls[i]).data, CallOutcome(src, respond, states[i], calls[i]).status) == answers[i]
  }

  /** A run spelled out state by state hands back the answers it lists. */
  lemma {:induction false} ReplayedAnswers(src: seq<Byte>, respond: Policy, states: seq<Pair>, calls: seq<Call>, answers: seq<Answer>)
    requires Honest(src, respond) && Replays(src, respond, states, calls, answers)
    requires states[0].shared.consumed <= |src|
    ensures Answers(src, respond, states[0], calls) == answers
    decreases |calls|
  {
    if calls != [] {
      assert Replays(src, respond, states[1..], calls[1..], answers[1..]) by {
        forall i | 0 <= i < |calls| - 1
          ensures && states[1..][i].shared.consumed <= |src|
                  && Step(src, respond, states[1..][i], calls[1..][i]) == states[1..][i + 1]
        {
          assert states[1..][i] == states[i + 1] && calls[1..][i] == calls[i + 1];
        }
      }
      ReplayedAnswers(src, respond, states[1..], calls[1..], answers[1..]);
    }
  }

  /**
   * The calls of the first table of the interleaving test: side and
   * len(p).
   */
  function LeftLeadsByOneCalls(): seq<Call>
  {
    [Call(Left, 3), Call(Right, 3), Call(Left, 3), Call(Left, 3), Call(Left, 3), Call(Right, 3), Call(Right, 3), Call(Right, 3)]
  }

  /**
   * What each call of the first table hands back: the bytes, as slices
   * of the string, and the status.
   */
  function LeftLeadsByOneAnswers(src: seq<Byte>): seq<Answer>
    requires |src| == 9
  {
    [
      Answer(src[0..3], Ok),
      Answer(src[0..3], Ok),
      Answer(src[3..6], Ok),
      Answer(src[6..9], Ok),
      Answer([], Eof),
      Answer(src[3..6], Ok),
      Answer(src[6..9], Ok),
      Answer([], Eof)]
  }

  /**
   * The state before and after each call of the first table: how far
   * upstream is, how many upstream reads it took, what the buffer holds
   * and where each reader stands.
   */
  function LeftLeadsByOneTrace(src: seq<Byte>): seq<Pair>
    requires |src| == 9
  {
    [
      Start(),
      Pair(Snapshot(3, 1, src[..3]), 3, 0),
      Pair(Snapshot(3, 1, src[..3]), 3, 3),
      Pair(Snapshot(6, 2, src[..6]), 6, 3),
      Pair(Snapshot(9, 3, src[..9]), 9, 3),
      Pair(Snapshot(9, 4, src[..9]), 9, 3),
      Pair(Snapshot(9, 4, src[..9]), 9, 6),
      Pair(Snapshot(9, 4, src[..9]), 9, 9),
      Pair(Snapshot(9, 5, src[..9]), 9, 9)]
  }

  /**
   * Reads of three: left leads by one read and runs to the end, then
   * right catches up. The states after each call, and each call's bytes
   * and status.
   */
  lemma LeftLeadsByOneStates(src: seq<Byte>)
    requires |src| == 9
    ensures Replays(src, StringsReader(src), LeftLeadsByOneTrace(src), LeftLeadsByOneCalls(), LeftLeadsByOneAnswers(src))
  {
    var states, calls, answers := LeftLeadsByOneTrace(src), LeftLeadsByOneCalls(), LeftLeadsByOneAnswers(src);
    forall i | 0 <= i < |calls|
      ensures && states[i].shared.consumed <= |src|
              && Step(src, StringsReader(src), states[i], calls[i]) == states[i + 1]
              && Answer(CallOutcome(src, StringsReader(src), states[i], calls[i]).data, CallOutcome(src, StringsReader(src), states[i], calls[i]).status) == answers[i]
    {
      if i == 0 {
        assert states[i] == Start() && states[i + 1] == Pair(Snapshot(3, 1, src[..3]), 3, 0);
        StepOverString(src, Start(), Call(Left, 3));
      } else if i == 1 {
        assert states[i] == Pair(Snapshot(3, 1, src[..3]), 3, 0) && states[i + 1] == Pair(Snapshot(3, 1, src[..3]), 3, 3);
        StepOverString(src, Pair(Snapshot(3, 1, src[..3]), 3, 0), Call(Right, 3));
      } else if i == 2 {
        assert states[i] == Pair(Snapshot(3, 1, src[..3]), 3, 3) && states[i + 1] == Pair(Snapshot(6, 2, src[..6]), 6, 3);
        StepOverString(src, Pair(Snapshot(3, 1, src[..3]), 3, 3), Call(Left, 3));
      } else if i == 3 {
        assert states[i] == Pair(Snapshot(6, 2, src[..6]), 6, 3) && states[i + 1] == Pair(Snapshot(9, 3, src[..9]), 9, 3);
        StepOverString(src, Pair(Snapshot(6, 2, src[..6]), 6, 3), Call(Left, 3));
      } else if i == 4 {
        assert states[i] == Pair(Snapshot(9, 3, src[..9]), 9, 3) && states[i + 1] == Pair(Snapshot(9, 4, src[..9]), 9, 3);
        StepOverString(src, Pair(Snapshot(9, 3, src[..9]), 9, 3), Call(Left, 3));
      } else if i == 5 {
        assert states[i] == Pair(Snapshot(9, 4, src[..9]), 9, 3) && states[i + 1] == Pair(Snapshot(9, 4, src[..9]), 9, 6);
        StepOverString(src, Pair(Snapshot(9, 4, src[..9]), 9, 3), Call(Right, 3));
      } else if i == 6 {
        assert states[i] == Pair(Snapshot(9, 4, src[..9]), 9, 6) && states[i + 1] == Pair(Snapshot(9, 4, src[..9]), 9, 9);
        StepOverString(src, Pair(Snapshot(9, 4, src[..9]), 9, 6), Call(Right, 3));
      } else {
        assert states[i] == Pair(Snapshot(9, 4, src[..9]), 9, 9) && states[i + 1] == Pair(Snapshot(9, 5, src[..9]), 9, 9);
        StepOverString(src, Pair(Snapshot(9, 4, src[..9]), 9, 9), Call(Right, 3));
      }
    }
  }

  /**
   * Reads of three: left leads by one read and runs to the end, then
   * right catches up. What each call hands back, from NewMiroir on.
   */
  lemma LeftLeadsByOne(src: seq<Byte>)
    requires |src| == 9
    ensures Answers(src, StringsReader(src), Start(), LeftLeadsByOneCalls()) == LeftLeadsByOneAnswers(src)
  {
    LeftLeadsByOneStates(src);
    ReplayedAnswers(src, StringsReader(src), LeftLeadsByOneTrace(src), LeftLeadsByOneCalls(), LeftLeadsByOneAnswers(src));
  }

  /**
   * The calls of the second table of the interleaving test: side and
   * len(p).
   */
  function LeftDrainsFirstCalls(): seq<Call>
  {
    [Call(Left, 3), Call(Left, 3), Call(Left, 3), Call(Left, 3), Call(Right, 3), Call(Right, 3), Call(Right, 4), Call(Right, 3)]
  }

  /**
   * What each call of the second table hands back: the bytes, as slices
   * of the string, and the status.
   */
  function LeftDrainsFirstAnswers(src: seq<Byte>): seq<Answer>
    requires |src| == 9
  {
    [
      Answer(src[0..3], Ok),
      Answer(src[3..6], Ok),
      Answer(src[6..9], Ok),
      Answer([], Eof),
      Answer(src[0..3], Ok),
      Answer(src[3..6], Ok),
      Answer(src[6..9], Eof),
      Answer([], Eof)]
  }

  /**
   * The state before and after each call of the second table: how far
   * upstream is, how many upstream reads it took, what the buffer holds
   * and where each reader stands.
   */
  function LeftDrainsFirstTrace(src: seq<Byte>): seq<Pair>
    requires |src| == 9
  {
    [
      Start(),
      Pair(Snapshot(3, 1, src[..3]), 3, 0),
      Pair(Snapshot(6, 2, src[..6]), 6, 0),
      Pair(Snapshot(9, 3, src[..9]), 9, 0),
      Pair(Snapshot(9, 4, src[..9]), 9, 0),
      Pair(Snapshot(9, 4, src[..9]), 9, 3),
      Pair(Snapshot(9, 4, src[..9]), 9, 6),
      Pair(Snapshot(9, 5, src[..9]), 9, 9),
      Pair(Snapshot(9, 6, src[..9]), 9, 9)]
  }

  /**
   * Left reads to the end first; right then reads from the buffer, and
   * its read of four meets an exhausted upstream. The states after each
   * call, and each call's bytes and status.
   */
  lemma LeftDrainsFirstStates(src: seq<Byte>)
    requires |src| == 9
    ensures Replays(src, StringsReader(src), LeftDrainsFirstTrace(src), LeftDrainsFirstCalls(), LeftDrainsFirstAnswers(src))
  {
    var states, calls, answers := LeftDrainsFirstTrace(src), LeftDrainsFirstCalls(), LeftDrainsFirstAnswers(src);
    forall i | 0 <= i < |calls|
      ensures && states[i].shared.consumed <= |src|
              && Step(src, StringsReader(src), states[i], calls[i]) == states[i + 1]
              && Answer(CallOutcome(src, StringsReader(src), states[i], calls[i]).data, CallOutcome(src, StringsReader(src), states[i], calls[i]).status) == answers[i]
    {
      if i == 0 {
        assert states[i] == Start() && states[i + 1] == Pair(Snapshot(3, 1, src[..3]), 3, 0);
        StepOverString(src, Start(), Call(Left, 3));
      } else if i == 1 {
        assert states[i] == Pair(Snapshot(3, 1, src[..3]), 3, 0) && states[i + 1] == Pair(Snapshot(6, 2, src[..6]), 6, 0);
        StepOverString(src, Pair(Snapshot(3, 1, src[..3]), 3, 0), Call(Left, 3));
      } else if i == 2 {
        assert states[i] == Pair(Snapshot(6, 2, src[..6]), 6, 0) && states[i + 1] == Pair(Snapshot(9, 3, src[..9]), 9, 0);
        StepOverString(src, Pair(Snapshot(6, 2, src[..6]), 6, 0), Call(Left, 3));
      } else if i == 3 {
        assert states[i] == Pair(Snapshot(9, 3, src[..9]), 9, 0) && states[i + 1] == Pair(Snapshot(9, 4, src[..9]), 9, 0);
        StepOverString(src, Pair(Snapshot(9, 3, src[..9]), 9, 0), Call(Left, 3));
      } else if i == 4 {
        assert states[i] == Pair(Snapshot(9, 4, src[..9]), 9, 0) && states[i + 1] == Pair(Snapshot(9, 4, src[..9]), 9, 3);
        StepOverString(src, Pair(Snapshot(9, 4, src[..9]), 9, 0), Call(Right, 3));
      } else if i == 5 {
        assert states[i] == Pair(Snapshot(9, 4, src[..9]), 9, 3) && states[i + 1] == Pair(Snapshot(9, 4, src[..9]), 9, 6);
        StepOverString(src, Pair(Snapshot(9, 4, src[..9]), 9, 3), Call(Right, 3));
      } else if i == 6 {
        assert states[i] == Pair(Snapshot(9, 4, src[..9]), 9, 6) && states[i + 1] == Pair(Snapshot(9, 5, src[..9]), 9, 9);
        StepOverString(src, Pair(Snapshot(9, 4, src[..9]), 9, 6), Call(Right, 4));
      } else {
        assert states[i] == Pair(Snapshot(9, 5, src[..9]), 9, 9) && states[i + 1] == Pair(Snapshot(9, 6, src[..9]), 9, 9);
        StepOverString(src, Pair(Snapshot(9, 5, src[..9]), 9, 9), Call(Right, 3));
      }
    }
  }

  /**
   * Left reads to the end first; right then reads from the buffer, and
   * its read of four meets an exhausted upstream. What each call hands
   * back, from NewMiroir on.
   */
  lemma LeftDrainsFirst(src: seq<Byte>)
    requires |src| == 9
    ensures Answers(src, StringsReader(src), Start(), LeftDrainsFirstCalls()) == LeftDrainsFirstAnswers(src)
  {
    LeftDrainsFirstStates(src);
    ReplayedAnswers(src, StringsReader(src), LeftDrainsFirstTrace(src), LeftDrainsFirstCalls(), LeftDrainsFirstAnswers(src));
  }

  /**
   * The calls of the third table of the interleaving test: side and
   * len(p).
   */
  function MixedSizesCalls(): seq<Call>
  {
    [Call(Left, 3), Call(Right, 6), Call(Left, 10), Call(Left, 10), Call(Right, 10), Call(Right, 3), Call(Left, 3)]
  }

  /**
   * What each call of the third table hands back: the bytes, as slices
   * of the string, and the status.
   */
  function MixedSizesAnswers(src: seq<Byte>): seq<Answer>
    requires |src| == 9
  {
    [
      Answer(src[0..3], Ok),
      Answer(src[0..6], Ok),
      Answer(src[3..9], Ok),
      Answer([], Eof),
      Answer(src[6..9], Eof),
      Answer([], Eof),
      Answer([], Eof)]
  }

  /**
   * The state before and after each call of the third table: how far
   * upstream is, how many upstream reads it took, what the buffer holds
   * and where each reader stands.
   */
  function MixedSizesTrace(src: seq<Byte>): seq<Pair>
    requires |src| == 9
  {
    [
      Start(),
      Pair(Snapshot(3, 1, src[..3]), 3, 0),
      Pair(Snapshot(6, 2, src[..6]), 3, 6),
      Pair(Snapshot(9, 3, src[..9]), 9, 6),
      Pair(Snapshot(9, 4, src[..9]), 9, 6),
      Pair(Snapshot(9, 5, src[..9]), 9, 9),
      Pair(Snapshot(9, 6, src[..9]), 9, 9),
      Pair(Snapshot(9, 7, src[..9]), 9, 9)]
  }

  /**
   * Reads of different sizes, each partly from the buffer and partly
   * from upstream. The states after each call, and each call's bytes
   * and status.
   */
  lemma MixedSizesStates(src: seq<Byte>)
    requires |src| == 9
    ensures Replays(src, StringsReader(src), MixedSizesTrace(src), MixedSizesCalls(), MixedSizesAnswers(src))
  {
    var states, calls, answers := MixedSizesTrace(src), MixedSizesCalls(), MixedSizesAnswers(src);
    forall i | 0 <= i < |calls|
      ensures && states[i].shared.consumed <= |src|
              && Step(src, StringsReader(src), states[i], calls[i]) == states[i + 1]
              && Answer(CallOutcome(src, StringsReader(src), states[i], calls[i]).data, CallOutcome(src, StringsReader(src), states[i], calls[i]).status) == answers[i]
    {
      if i == 0 {
        assert states[i] == Start() && states[i + 1] == Pair(Snapshot(3, 1, src[..3]), 3, 0);
        StepOverString(src, Start(), Call(Left, 3));
      } else if i == 1 {
        assert states[i] == Pair(Snapshot(3, 1, src[..3]), 3, 0) && states[i + 1] == Pair(Snapshot(6, 2, src[..6]), 3, 6);
        StepOverString(src, Pair(Snapshot(3, 1, src[..3]), 3, 0), Call(Right, 6));
      } else if i == 2 {
        assert states[i] == Pair(Snapshot(6, 2, src[..6]), 3, 6) && states[i + 1] == Pair(Snapshot(9, 3, src[..9]), 9, 6);
        StepOverString(src, Pair(Snapshot(6, 2, src[..6]), 3, 6), Call(Left, 10));
      } else if i == 3 {
        assert states[i] == Pair(Snapshot(9, 3, src[..9]), 9, 6) && states[i + 1] == Pair(Snapshot(9, 4, src[..9]), 9, 6);
        StepOverString(src, Pair(Snapshot(9, 3, src[..9]), 9, 6), Call(Left, 10));
      } else if i == 4 {
        assert states[i] == Pair(Snapshot(9, 4, src[..9]), 9, 6) && states[i + 1] == Pair(Snapshot(9, 5, src[..9]), 9, 9);
        StepOverString(src, Pair(Snapshot(9, 4, src[..9]), 9, 6), Call(Right, 10));
      } else if i == 5 {
        assert states[i] == Pair(Snapshot(9, 5, src[..9]), 9, 9) && states[i + 1] == Pair(Snapshot(9, 6, src[..9]), 9, 9);
        StepOverString(src, Pair(Snapshot(9, 5, src[..9]), 9, 9), Call(Right, 3));
      } else {
        assert states[i] == Pair(Snapshot(9, 6, src[..9]), 9, 9) && states[i + 1] == Pair(Snapshot(9, 7, src[..9]), 9, 9);
        StepOverString(src, Pair(Snapshot(9, 6, src[..9]), 9, 9), Call(Left, 3));
      }
    }
  }

  /**
   * Reads of different sizes, each partly from the buffer and partly
   * from upstream. What each call hands back, from NewMiroir on.
   */
  lemma MixedSizes(src: seq<Byte>)
    requires |src| == 9
    ensures Answers(src, StringsReader(src), Start(), MixedSizesCalls()) == MixedSizesAnswers(src)
  {
    MixedSizesStates(src);
    ReplayedAnswers(src, StringsReader(src), MixedSizesTrace(src), MixedSizesCalls(), MixedSizesAnswers(src));
  }

  /** The four calls of the injected-error test, one `Serve` step each. */
  lemma ErrorAfterOneCallSteps(src: seq<Byte>, code: nat)
    requires |src| == 9
    ensures var respond, s0, s1, s2 := FailAfter(src, 1, code), Snapshot(0, 0, []), Snapshot(3, 1, src[..3]), Snapshot(3, 2, src[..3]);
      && Serve(src, respond, s0, 0, 3) == Outcome(s1, src[..3], Ok)
      && Serve(src, respond, s1, 3, 3) == Outcome(s2, [], Fail(code))
      && Serve(src, respond, s2, 0, 3) == Outcome(s2, src[..3], Ok)
      && Serve(src, respond, s2, 3, 3).data == [] && Serve(src, respond, s2, 3, 3).status == Fail(code)
  {
    var respond := FailAfter(src, 1, code);
    var s0, s1, s2 := Snapshot(0, 0, []), Snapshot(3, 1, src[..3]), Snapshot(3, 2, src[..3]);
    assert Serve(src, respond, s0, 0, 3) == Outcome(s1, src[..3], Ok) by {
      FrontierRead(src, respond, s0, 0, 3);
      assert respond(0, 0, 3) == Reply(3, Ok);
    }
    assert Serve(src, respond, s1, 3, 3) == Outcome(s2, [], Fail(code)) by {
      FrontierRead(src, respond, s1, 3, 3);
      assert respond(1, 3, 3) == Reply(0, Fail(code));
    }
    assert Serve(src, respond, s2, 0, 3) == Outcome(s2, src[..3], Ok) by {
      FullBufferHit(src, respond, s2, 0, 3);
    }
    assert Serve(src, respond, s2, 3, 3).data == [] && Serve(src, respond, s2, 3, 3).status == Fail(code) by {
      FrontierRead(src, respond, s2, 3, 3);
      assert respond(2, 3, 3) == Reply(0, Fail(code));
    }
  }

  /**
   * The injected-error test on the objects themselves: upstream serves one
   * read and fails every later one. Left's first read hands out "foo" and
   * its second sees the error; right is then served "foo" from the buffer,
   * and its second read goes upstream again and sees the error too, since
   * the failure was never stored.
   */
  method ErrorAfterOneCall(src: seq<Byte>, code: nat) returns (answers: seq<Answer>)
    requires |src| == 9
    ensures answers == [Answer(src[..3], Ok), Answer([], Fail(code)), Answer(src[..3], Ok), Answer([], Fail(code))]
  {
    ErrorAfterOneCallSteps(src, code);
    var respond := FailAfter(src, 1, code);
    var s1, s2 := Snapshot(3, 1, src[..3]), Snapshot(3, 2, src[..3]);
    var up := new Source(src, respond);
    var left, right := NewMiroir(up);
    var m := left.m;
    var b := new Byte[3];

    var n, status := left.Read(b);
    assert m.View() == s1;
    answers := [Answer(b[..n], status)];
    n, status := left.Read(b);
    assert m.View() == s2;
    answers := answers + [Answer(b[..n], status)];
    b := new Byte[3];
    n, status := right.Read(b);
    assert m.View() == s2 && right.pos == 3;
    answers := answers + [Answer(b[..n], status)];
    n, status := right.Read(b);
    answers := answers + [Answer(b[..n], status)];
  }
}
