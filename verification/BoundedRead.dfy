/**
  Reading a body into memory up to a limit (body_integration.go:198-241).

  The reader and the context are whatever they are at each call: `calls(i)` is what
  the i-th Read does, `context(i)` what ctx.Err returns in the i-th iteration.
 */
module BoundedRead {
  import opened Basics
  import opened StreamingBody

  /** One Read: the count it reports, the buffer it leaves, how it ends. */
  datatype Call = Call(count: int, buffer: seq<byte>, end: End)

  /** The count fits the buffer. */
  predicate Possible(c: Call) {
    0 <= c.count <= |c.buffer|
  }

  function Chunk(c: Call): seq<byte> {
    if Possible(c) then c.buffer[..c.count] else []
  }

  /** The bytes of the first `n` calls. */
  function Taken(calls: nat -> Call, n: nat): seq<byte> {
    if n == 0 then [] else Taken(calls, n - 1) + Chunk(calls(n - 1))
  }

  /** The body ends at call `n`: every call before brings bytes, none fails, the context lasts. */
  predicate EndsAt(calls: nat -> Call, context: nat -> Option<Error>, n: nat) {
    && (forall k :: 0 <= k <= n ==> Possible(calls(k)) && context(k) == None)
    && (forall k :: 0 <= k < n ==> calls(k).end == More && calls(k).count > 0)
    && calls(n).end == EndOfFile
  }

  /** Why the read stops at call `n`, when `before` bytes were taken; None when it goes on. */
  function Refusal(call: Call, context: Option<Error>, before: nat, maxBytes: int): Option<Error> {
    if context.Some? then context
    else if !Possible(call) then Some(ErrBodyRead)
    else if call.count > maxBytes - before then Some(ErrBodyTooLarge)
    else if call.end == Broken || (call.end == More && call.count == 0) then Some(ErrBodyRead)
    else None
  }

  /** A read is complete at call `n`: the calls up to it end the body within the limit. */
  predicate Succeeds(calls: nat -> Call, context: nat -> Option<Error>, maxBytes: int, n: nat) {
    EndsAt(calls, context, n) && |Taken(calls, n + 1)| <= maxBytes
  }

  /** What reading from call `n` on comes to; every step consumes allowance or stops. */
  function Outcome(calls: nat -> Call, context: nat -> Option<Error>, maxBytes: int, n: nat): Result<seq<byte>, Error>
    requires |Taken(calls, n)| <= maxBytes
    decreases maxBytes - |Taken(calls, n)|
  {
    var refusal := Refusal(calls(n), context(n), |Taken(calls, n)|, maxBytes);
    if refusal.Some? then Err(refusal.value)
    else if calls(n).end == EndOfFile then Ok(Taken(calls, n + 1))
    else Outcome(calls, context, maxBytes, n + 1)
  }

  lemma {:induction false} TakenGrows(calls: nat -> Call, k: nat, n: nat)
    requires k <= n
    ensures |Taken(calls, k)| <= |Taken(calls, n)|
    decreases n
  {
    if k < n { TakenGrows(calls, k, n - 1); }
  }

  /** A body that ends within the limit is returned whole. */
  lemma {:induction false} WholeBody(calls: nat -> Call, context: nat -> Option<Error>, maxBytes: int, k: nat, n: nat)
    requires k <= n && Succeeds(calls, context, maxBytes, n)
    ensures |Taken(calls, k)| <= maxBytes && Outcome(calls, context, maxBytes, k) == Ok(Taken(calls, n + 1))
    decreases n - k
  {
    TakenGrows(calls, k, n + 1);
    TakenGrows(calls, k + 1, n + 1);
    if k < n { WholeBody(calls, context, maxBytes, k + 1, n); }
  }

  /** Content is returned only at the end of a body within the limit. */
  lemma {:induction false} OnlyWhole(calls: nat -> Call, context: nat -> Option<Error>, maxBytes: int, k: nat) returns (n: nat)
    requires |Taken(calls, k)| <= maxBytes && Outcome(calls, context, maxBytes, k).Ok?
    requires forall i :: 0 <= i < k ==> Possible(calls(i)) && context(i) == None && calls(i).end == More && calls(i).count > 0
    ensures Succeeds(calls, context, maxBytes, n) && Outcome(calls, context, maxBytes, k) == Ok(Taken(calls, n + 1))
    decreases maxBytes - |Taken(calls, k)|
  {
    if calls(k).end == EndOfFile {
      n := k;
    } else {
      n := OnlyWhole(calls, context, maxBytes, k + 1);
    }
  }

  class ReadCloser {
    const calls: nat -> Call
    const closeFails: bool
    var position: nat
    var closes: nat

    constructor (calls: nat -> Call, closeFails: bool)
      ensures this.calls == calls && this.closeFails == closeFails && position == 0 && closes == 0
    {
      this.calls, this.closeFails := calls, closeFails;
      position, closes := 0, 0;
    }

    method Read() returns (call: Call)
      modifies this`position
      ensures call == calls(old(position)) && position == old(position) + 1
    {
      call := calls(position);
      position := position + 1;
    }

    method Close() returns (failed: bool)
      modifies this`closes
      ensures failed == closeFails && closes == old(closes) + 1
    {
      closes := closes + 1;
      return closeFails;
    }
  }

  /** The loop of readBoundedAndClose. */
  method ReadBounded(body: ReadCloser, context: nat -> Option<Error>, maxBytes: int) returns (r: Result<seq<byte>, Error>)
    requires body.position == 0 && maxBytes > 0
    modifies body`position
    ensures r == Outcome(body.calls, context, maxBytes, 0)
  {
    var content: seq<byte> := [];
    while true
      invariant content == Taken(body.calls, body.position) && |content| <= maxBytes
      invariant Outcome(body.calls, context, maxBytes, body.position) == Outcome(body.calls, context, maxBytes, 0)
      decreases maxBytes - |content|
    {
      if context(body.position).Some? {
        return Err(context(body.position).value);
      }
      var remaining := maxBytes - |content|;
      var call := body.Read();
      if call.count < 0 || call.count > |call.buffer| {
        return Err(ErrBodyRead);
      }
      if call.count > remaining {
        return Err(ErrBodyTooLarge);
      }
      content := content + call.buffer[..call.count];
      if call.end != More {
        if call.end == EndOfFile {
          return Ok(content);
        }
        return Err(ErrBodyRead);
      }
      if call.count == 0 {
        return Err(ErrBodyRead);
      }
    }
  }

  /** What readBoundedAndClose returns for a body. */
  function Bounded(calls: nat -> Call, closeFails: bool, hasContext: bool, context: nat -> Option<Error>, maxBytes: int):
    Result<seq<byte>, Error>
  {
    var read := if !hasContext || maxBytes <= 0 then Err(ErrInvalidBodyIntegration) else Outcome(calls, context, maxBytes, 0);
    if closeFails && read.Ok? then Err(ErrBodyRead) else read
  }

  /**
    readBoundedAndClose: success is exactly the whole body within the limit and a
    clean close; a failure leaves no content; a body is closed exactly once.
   */
  method ReadBoundedAndClose(body: ReadCloser?, hasContext: bool, context: nat -> Option<Error>, maxBytes: int)
    returns (r: Result<seq<byte>, Error>)
    requires body != null ==> body.position == 0
    modifies body
    ensures body == null ==> r == Ok([])
    ensures body != null ==> body.closes == old(body.closes) + 1
    ensures body != null ==> r == Bounded(body.calls, body.closeFails, hasContext, context, maxBytes)
  {
    if body == null {
      return Ok([]);
    }
    if !hasContext || maxBytes <= 0 {
      r := Err(ErrInvalidBodyIntegration);
    } else {
      r := ReadBounded(body, context, maxBytes);
    }
    var failed := body.Close();
    if failed && r.Ok? {
      r := Err(ErrBodyRead);
    }
  }

  /** Success means exactly: the whole body, within the limit, read under a living context and closed cleanly. */
  lemma BoundedExact(calls: nat -> Call, closeFails: bool, hasContext: bool, context: nat -> Option<Error>,
                     maxBytes: int, content: seq<byte>)
    ensures Bounded(calls, closeFails, hasContext, context, maxBytes) == Ok(content)
      <==> hasContext && maxBytes > 0 && !closeFails
           && exists n: nat :: Succeeds(calls, context, maxBytes, n) && Taken(calls, n + 1) == content
  {
    if hasContext && maxBytes > 0 && !closeFails {
      forall n: nat | Succeeds(calls, context, maxBytes, n)
        ensures Outcome(calls, context, maxBytes, 0) == Ok(Taken(calls, n + 1))
      {
        WholeBody(calls, context, maxBytes, 0, n);
      }
      if Outcome(calls, context, maxBytes, 0).Ok? {
        var n := OnlyWhole(calls, context, maxBytes, 0);
      }
    }
  }

  lemma {:induction false} Overflows(calls: nat -> Call, context: nat -> Option<Error>, maxBytes: int, k: nat, n: nat)
    requires k <= n && EndsAt(calls, context, n) && |Taken(calls, k)| <= maxBytes < |Taken(calls, n + 1)|
    ensures Outcome(calls, context, maxBytes, k) == Err(ErrBodyTooLarge)
    decreases n - k
  {
    if |Taken(calls, k + 1)| <= maxBytes { Overflows(calls, context, maxBytes, k + 1, n); }
  }

  /** A body longer than the limit is refused, unless the context, the reader or the close fails first. */
  lemma TooLong(calls: nat -> Call, context: nat -> Option<Error>, maxBytes: int, n: nat)
    requires EndsAt(calls, context, n) && maxBytes > 0 && |Taken(calls, n + 1)| > maxBytes
    ensures Outcome(calls, context, maxBytes, 0) == Err(ErrBodyTooLarge)
  {
    Overflows(calls, context, maxBytes, 0, n);
  }
}
