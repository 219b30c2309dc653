/**
 * The upstream reader of a miroir, described abstractly.
 *
 * An upstream is a single-pass byte source. `src` is every byte it will
 * ever produce, `consumed` how many of them it has handed out so far. A
 * read of `k` bytes hands out some `count <= k` of the next bytes of `src`
 * together with a status. Which count and which status is decided by a
 * response policy, a function of how many reads came before, how far the
 * source is and how many bytes were asked for; this covers short reads,
 * injected errors and readers that report end of stream together with
 * their last bytes.
 */
module Upstream {

  type Byte = bv8

  /** The error result of a Go `Read`: nil, io.EOF or any other error. */
  datatype Status = Ok | Eof | Fail(code: nat)

  /** What one upstream read returns: a byte count and a status. */
  datatype Reply = Reply(count: nat, status: Status)

  /** A response policy: (reads so far, bytes consumed so far, bytes requested) to reply. */
  type Policy = (nat, nat, nat) -> Reply

  function Min(a: nat, b: nat): nat
  {
    if a <= b then a else b
  }

  /**
   * The reader contract this model relies on, for a source that has handed
   * out `src[..consumed]` and is asked for `k` bytes: it never hands out
   * more than asked or more than remains, it reports end of stream only
   * once it has handed out its last byte, and once exhausted it never
   * reports success again.
   */
  predicate Admissible(src: seq<Byte>, consumed: nat, k: nat, r: Reply)
  {
    consumed <= |src| ==>
      && r.count <= k
      && consumed + r.count <= |src|
      && (r.status == Eof ==> consumed + r.count == |src|)
      && (consumed == |src| ==> r.status != Ok)
  }

  /** A policy keeps the reader contract on every call. */
  ghost predicate Honest(src: seq<Byte>, respond: Policy)
  {
    forall i: nat, c: nat, k: nat :: Admissible(src, c, k, respond(i, c, k))
  }

  /**
   * strings.Reader: fills as much of the request as remains and reports
   * io.EOF, with no bytes, once nothing remains.
   */
  function StringsReader(src: seq<Byte>): (respond: Policy)
    ensures Honest(src, respond)
    ensures forall i: nat, c: nat, k: nat :: c < |src| ==> respond(i, c, k) == Reply(Min(k, |src| - c), Ok)
    ensures forall i: nat, k: nat :: respond(i, |src|, k) == Reply(0, Eof)
  {
    var respond := (i: nat, c: nat, k: nat) => if c < |src| then Reply(Min(k, |src| - c), Ok) else Reply(0, Eof);
    assert forall i: nat, c: nat, k: nat :: Admissible(src, c, k, respond(i, c, k)) by {
      forall i: nat, c: nat, k: nat ensures Admissible(src, c, k, respond(i, c, k)) {
        if c < |src| {
          assert respond(i, c, k) == Reply(Min(k, |src| - c), Ok);
        } else {
          assert respond(i, c, k) == Reply(0, Eof);
        }
      }
    }
    respond
  }

  /** iotest.HalfReader over strings.Reader: asks the inner reader for half the request, rounded up. */
  function HalfReader(src: seq<Byte>): (respond: Policy)
    ensures Honest(src, respond)
    ensures forall i: nat, c: nat, k: nat :: c < |src| ==> respond(i, c, k) == Reply(Min((k + 1) / 2, |src| - c), Ok)
  {
    var inner := StringsReader(src);
    (i: nat, c: nat, k: nat) => inner(i, c, (k + 1) / 2)
  }

  /**
   * The test reader errorAfterNCalls over strings.Reader: its first `calls`
   * reads are served by the inner reader, every later read fails with
   * `code` and hands out nothing.
   */
  function FailAfter(src: seq<Byte>, calls: nat, code: nat): (respond: Policy)
    ensures Honest(src, respond)
    ensures forall i: nat, c: nat, k: nat :: calls <= i ==> respond(i, c, k) == Reply(0, Fail(code))
    ensures forall i: nat, c: nat, k: nat :: i < calls ==> respond(i, c, k) == StringsReader(src)(i, c, k)
  {
    var inner := StringsReader(src);
    (i: nat, c: nat, k: nat) => if i < calls then inner(i, c, k) else Reply(0, Fail(code))
  }

  /**
   * An upstream reader. Its state is how far it is (`consumed`) and how
   * many reads it has served (`calls`); what it will produce and how it
   * answers are fixed when it is made.
   */
  class Source {
    const src: seq<Byte>
    const respond: Policy
    var consumed: nat
    var calls: nat

    ghost predicate Valid()
      reads this
    {
      consumed <= |src| && Honest(src, respond)
    }

    constructor (src: seq<Byte>, respond: Policy)
      requires Honest(src, respond)
      ensures Valid()
      ensures this.src == src && this.respond == respond
      ensures consumed == 0 && calls == 0
    {
      this.src := src;
      this.respond := respond;
      consumed := 0;
      calls := 0;
    }

    /**
     * Go's `Read(p[off:])`: writes the bytes handed out into `p` from
     * `off` on and leaves the rest of `p` alone.
     */
    method Read(p: array<Byte>, off: nat) returns (n: nat, status: Status)
      requires Valid() && off <= p.Length
      modifies this, p
      ensures Valid()
      ensures var r := respond(old(calls), old(consumed), p.Length - off);
        n == r.count && status == r.status
      ensures off + n <= p.Length
      ensures consumed == old(consumed) + n && calls == old(calls) + 1
      ensures p[off..off + n] == src[old(consumed)..consumed]
      ensures p[..off] == old(p[..off]) && p[off + n..] == old(p[off + n..])
    {
      var r := respond(calls, consumed, p.Length - off);
      assert Admissible(src, consumed, p.Length - off, r);
      forall i | off <= i < off + r.count {
        p[i] := src[consumed + (i - off)];
      }
      n, status := r.count, r.status;
      consumed := consumed + n;
      calls := calls + 1;
    }
  }
}
