/**
  The request body that hashes what a transport reads from it and signs the
  trailers at its end (body_integration.go:423-558).

  Every function of this module is one section under the body's lock; the calls
  to the wrapped body and to the finalizer, which run without the lock, arrive as
  arguments.  StreamingProtocol interleaves the sections.
 */
module StreamingBody {
  import opened Basics

  datatype Error = ErrBodyRead | ErrBodyTooLarge | ErrInvalidBodyIntegration | Foreign(id: int)

  /** What Read returns beside its count. */
  datatype ReadError = EOF | Fail(error: Error)

  /** How the wrapped reader ended one call: a nil error, io.EOF, or another error. */
  datatype End = More | EndOfFile | Broken

  /** The completion channel. */
  datatype Done = Absent | Open | Closed

  /** The fields guarded by the lock; `hashed` is what the digest writer of every algorithm has been fed. */
  datatype Body = Body(maxBytes: int, algorithms: seq<string>, hashed: seq<byte>,
                       terminal: bool, result: Option<Error>, eofObserved: bool, done: Done)

  /** What the admitting section leaves Read to do. */
  datatype Reply = Return(count: nat, error: Option<ReadError>) | MustFinalize(count: nat)

  function Fresh(maxBytes: int, algorithms: seq<string>): Body {
    Body(maxBytes, algorithms, [], false, None, false, Absent)
  }

  function TerminalError(b: Body): ReadError {
    match b.result case None => EOF case Some(error) => Fail(error)
  }

  /** completeLocked */
  function Complete(b: Body, result: Option<Error>): Body {
    if b.terminal then b
    else b.(terminal := true, result := result, done := if b.done == Open then Closed else b.done)
  }

  /** The second section of Read, for the bytes and the end the wrapped reader returned. */
  function Admit(b: Body, chunk: seq<byte>, end: End): (Body, Reply) {
    if b.terminal then
      (b, Return(0, Some(TerminalError(b))))
    else if |chunk| > b.maxBytes - |b.hashed| then
      (Complete(b, Some(ErrBodyTooLarge)), Return(0, Some(Fail(ErrBodyTooLarge))))
    else if chunk == [] && end == More then
      (Complete(b, Some(ErrBodyRead)), Return(0, Some(Fail(ErrBodyRead))))
    else
      var fed := b.(hashed := b.hashed + chunk);
      match end
      case Broken => (Complete(fed, Some(ErrBodyRead)), Return(|chunk|, Some(Fail(ErrBodyRead))))
      case More => (fed, Return(|chunk|, None))
      case EndOfFile => (fed.(eofObserved := true), MustFinalize(|chunk|))
  }

  /** The locked section of Close. */
  function FinishClose(b: Body, closeFailed: bool): Body {
    if closeFailed || !b.eofObserved then Complete(b, Some(ErrBodyRead)) else b
  }

  /** completion */
  function Observe(b: Body): Body {
    if b.done == Absent then b.(done := Open) else b
  }

  /** What holds of the guarded fields between any two locked sections. */
  predicate Sound(b: Body) {
    && |b.hashed| <= b.maxBytes
    && (b.done == Closed ==> b.terminal)
    && (b.result.Some? ==> b.terminal)
  }

  /** One digest writer: its algorithm and everything written to its hash. */
  datatype DigestWriter = DigestWriter(algorithm: string, fed: seq<byte>)

  /** A writer for every algorithm, each fed the same bytes. */
  function Writers(algorithms: seq<string>, fed: seq<byte>): seq<DigestWriter> {
    seq(|algorithms|, i requires 0 <= i < |algorithms| => DigestWriter(algorithms[i], fed))
  }

  /** A whole Read that nothing interrupts: context, wrapped reader and finalizer behave as given. */
  function ReadAlone(b: Body, context: Option<Error>, read: Option<(seq<byte>, End)>, finalize: seq<DigestWriter> -> Option<Error>):
    (Body, nat, Option<ReadError>)
  {
    if b.terminal then (b, 0, Some(TerminalError(b)))
    else if context.Some? then (Complete(b, context), 0, Some(Fail(context.value)))
    else if read.None? then (Complete(b, Some(ErrBodyRead)), 0, Some(Fail(ErrBodyRead)))
    else
      var (next, reply) := Admit(b, read.value.0, read.value.1);
      match reply
      case Return(count, error) => (next, count, error)
      case MustFinalize(count) =>
        var outcome := finalize(Writers(b.algorithms, next.hashed));
        (Complete(next, outcome), count, Some(if outcome.None? then EOF else Fail(outcome.value)))
  }

  /** The loop that writes one chunk to every digest. */
  method Feed(writers: seq<DigestWriter>, content: seq<byte>, ghost algorithms: seq<string>, ghost fed: seq<byte>)
    returns (r: seq<DigestWriter>)
    requires writers == Writers(algorithms, fed)
    ensures r == Writers(algorithms, fed + content)
  {
    r := writers;
    for i := 0 to |writers|
      invariant |r| == |writers|
      invariant forall k :: 0 <= k < i ==> r[k] == DigestWriter(writers[k].algorithm, writers[k].fed + content)
      invariant forall k :: i <= k < |writers| ==> r[k] == writers[k]
    {
      r := r[i := r[i].(fed := r[i].fed + content)];
    }
  }

  class TrailerSigningBody {
    const maxBytes: int
    const algorithms: seq<string>
    var written: int
    var writers: seq<DigestWriter>
    var done: Done
    var terminal: bool
    var eofObserved: bool
    var result: Option<Error>
    ghost var hashed: seq<byte>

    ghost function Snapshot(): Body
      reads this
    {
      Body(maxBytes, algorithms, hashed, terminal, result, eofObserved, done)
    }

    ghost predicate Valid()
      reads this
    {
      && Sound(Snapshot())
      && written == |hashed|
      && writers == Writers(algorithms, hashed)
    }

    constructor (maxBytes: int, algorithms: seq<string>)
      requires maxBytes > 0
      ensures Valid() && Snapshot() == Fresh(maxBytes, algorithms)
    {
      this.maxBytes, this.algorithms := maxBytes, algorithms;
      written, done, terminal, eofObserved, result := 0, Absent, false, false, None;
      hashed := [];
      writers := Writers(algorithms, []);
    }

    method CompleteLocked(outcome: Option<Error>)
      requires Valid()
      modifies this`terminal, this`result, this`done
      ensures Valid() && Snapshot() == Complete(old(Snapshot()), outcome)
    {
      if terminal {
        return;
      }
      terminal := true;
      result := outcome;
      if done != Absent {
        // Closing a closed channel would panic.
        assert done != Closed;
        done := Closed;
      }
    }

    method AdmitChunk(chunk: seq<byte>, end: End) returns (reply: Reply)
      requires Valid()
      modifies this
      ensures Valid() && (Snapshot(), reply) == Admit(old(Snapshot()), chunk, end)
    {
      if terminal {
        return Return(0, Some(if result.Some? then Fail(result.value) else EOF));
      }
      if |chunk| > maxBytes - written {
        CompleteLocked(Some(ErrBodyTooLarge));
        return Return(0, Some(Fail(ErrBodyTooLarge)));
      }
      if |chunk| == 0 && end == More {
        CompleteLocked(Some(ErrBodyRead));
        return Return(0, Some(Fail(ErrBodyRead)));
      }
      written := written + |chunk|;
      writers := Feed(writers, chunk, algorithms, hashed);
      hashed := hashed + chunk;
      if end == Broken {
        CompleteLocked(Some(ErrBodyRead));
        return Return(|chunk|, Some(Fail(ErrBodyRead)));
      }
      if end == More {
        return Return(|chunk|, None);
      }
      eofObserved := true;
      return MustFinalize(|chunk|);
    }

    /**
      Read, when no other goroutine takes the lock between its sections.  `context`
      is what ctx.Err returns, `read` what the wrapped reader returned (None for an
      impossible count), `finalize` the finalizer on the digests of what was fed.
     */
    method Read(context: Option<Error>, read: Option<(seq<byte>, End)>, finalize: seq<DigestWriter> -> Option<Error>)
      returns (count: nat, error: Option<ReadError>)
      requires Valid()
      modifies this
      ensures Valid() && (Snapshot(), count, error) == ReadAlone(old(Snapshot()), context, read, finalize)
    {
      if terminal {
        return 0, Some(if result.Some? then Fail(result.value) else EOF);
      }
      if context.Some? {
        CompleteLocked(context);
        return 0, Some(Fail(context.value));
      }
      if read.None? {
        CompleteLocked(Some(ErrBodyRead));
        return 0, Some(Fail(ErrBodyRead));
      }
      var reply := AdmitChunk(read.value.0, read.value.1);
      if reply.Return? {
        return reply.count, reply.error;
      }
      var outcome := finalize(writers);
      CompleteLocked(outcome);
      if outcome.Some? {
        return reply.count, Some(Fail(outcome.value));
      }
      return reply.count, Some(EOF);
    }

    /** The locked section of Close, after the wrapped body was closed once. */
    method Close(closeFailed: bool) returns (failed: bool)
      requires Valid()
      modifies this
      ensures Valid() && Snapshot() == FinishClose(old(Snapshot()), closeFailed) && failed == closeFailed
    {
      if closeFailed || !eofObserved {
        CompleteLocked(Some(ErrBodyRead));
      }
      return closeFailed;
    }

    method Completion()
      requires Valid()
      modifies this`done
      ensures Valid() && Snapshot() == Observe(old(Snapshot()))
    {
      if done == Absent {
        done := Open;
      }
    }
  }
}
