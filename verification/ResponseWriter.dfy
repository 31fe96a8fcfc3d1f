/**
  The response writer that hashes what a handler writes and keeps the response
  signable in its trailers (body_integration.go:719-761, 796-950;
  http_integration.go:510-512).

  What the handler does is a sequence of operations; what net/http answers to the
  calls below, and what the header checks find in the mutable header map at that
  moment, is part of each operation.
 */
module ResponseWriter {
  import opened Basics
  import opened StreamingBody

  /** A status net/http accepts; it panics on any other. */
  type Status = s: int | 100 <= s <= 999 witness 200

  const OK_STATUS: Status := 200
  const SWITCHING_PROTOCOLS: Status := 101
  const NO_CONTENT: Status := 204
  const RESET_CONTENT: Status := 205
  const NOT_MODIFIED: Status := 304
  const INTERNAL_SERVER_ERROR: Status := 500
  const NOT_IMPLEMENTED: Status := 501

  /** One call on the wrapped writer. */
  datatype Call = Header(status: Status) | Bytes(accepted: seq<byte>) | Flush

  /** How the wrapped writer answers a flush. */
  datatype FlushReply = Flushed | NotSupported | FlushFailed

  datatype FlushResult = FlushOk | FlushUnsupported | FlushRefused(error: Error)

  /** The request the response belongs to: is its method CONNECT, is it HEAD? */
  datatype Verb = Connect | Head | Other

  /** The writer; `hashed` is what the digest writer of every algorithm has been fed, `below` the calls made so far. */
  datatype Writer = Writer(verb: Verb, maxBytes: int, algorithms: seq<string>, status: int, failure: Option<Error>,
                           failureStatus: int, hashed: seq<byte>, below: seq<Call>)

  /** One operation of the handler, with the answers it meets. */
  datatype Op =
    | DoWriteHeader(status: Status, check: Option<Error>)
    | DoWrite(content: seq<byte>, check: Option<Error>, count: int, failed: bool)
    | DoFlush(check: Option<Error>, reply: FlushReply)
    | DoHijack
    | DoEnableFullDuplex

  function Start(verb: Verb, maxBytes: int, algorithms: seq<string>): Writer {
    Writer(verb, maxBytes, algorithms, 0, None, 0, [], [])
  }

  /** responseBodyAllowed */
  predicate BodyAllowed(status: int) {
    status >= 200 && status != NO_CONTENT && status != RESET_CONTENT && status != NOT_MODIFIED
  }

  /** The body of this response is hashed. */
  predicate Bearing(w: Writer) {
    w.verb != Head && BodyAllowed(w.status)
  }

  predicate Informational(status: int) {
    100 <= status <= 199 && status != SWITCHING_PROTOCOLS
  }

  /** WriteHeader; `check` is the error of normalizing and inspecting the header map. */
  function WriteHeader(w: Writer, status: Status, check: Option<Error>): Writer {
    if w.failure.Some? || w.status != 0 then w
    else if status == SWITCHING_PROTOCOLS then
      w.(failure := Some(ErrInvalidBodyIntegration), failureStatus := NOT_IMPLEMENTED)
    else if w.verb == Connect && 200 <= status <= 299 then
      w.(failure := Some(ErrInvalidBodyIntegration), status := NOT_IMPLEMENTED, below := w.below + [Header(NOT_IMPLEMENTED)])
    else if status == NO_CONTENT || status == RESET_CONTENT || status == NOT_MODIFIED then
      w.(failure := Some(ErrInvalidBodyIntegration), failureStatus := NOT_IMPLEMENTED)
    else if check.Some? then w.(failure := check)
    else
      w.(below := w.below + [Header(status)], status := if Informational(status) then w.status else status)
  }

  /** The implicit 200 of Write and FlushError. */
  function Commit(w: Writer, check: Option<Error>): Writer {
    if w.status == 0 then WriteHeader(w, OK_STATUS, check) else w
  }

  /** The delegated part of Write. */
  function Deliver(w: Writer, content: seq<byte>, count: int, failed: bool): (Writer, nat, Option<Error>) {
    if Bearing(w) && |content| > w.maxBytes - |w.hashed| then (w.(failure := Some(ErrBodyTooLarge)), 0, Some(ErrBodyTooLarge))
    else if count < 0 || count > |content| then
      (w.(failure := Some(ErrBodyRead), below := w.below + [Bytes([])]), 0, Some(ErrBodyRead))
    else
      var next := w.(below := w.below + [Bytes(content[..count])],
                     hashed := if Bearing(w) then w.hashed + content[..count] else w.hashed);
      if failed || count != |content| then (next.(failure := Some(ErrBodyRead)), count, Some(ErrBodyRead))
      else (next, count, None)
  }

  /** Write */
  function Write(w: Writer, content: seq<byte>, check: Option<Error>, count: int, failed: bool): (Writer, nat, Option<Error>) {
    if w.failure.Some? then (w, 0, w.failure)
    else
      var next := Commit(w, check);
      if next.failure.Some? then (next, 0, next.failure) else Deliver(next, content, count, failed)
  }

  /** FlushError */
  function FlushError(w: Writer, check: Option<Error>, reply: FlushReply): (Writer, FlushResult) {
    if w.failure.Some? then (w, FlushRefused(w.failure.value))
    else
      var next := Commit(w, check);
      if next.failure.Some? then (next, FlushRefused(next.failure.value))
      else
        var flushed := next.(below := next.below + [Flush]);
        match reply
        case Flushed => (flushed, FlushOk)
        case NotSupported => (flushed, FlushUnsupported)
        case FlushFailed => (flushed.(failure := Some(ErrBodyRead)), FlushRefused(ErrBodyRead))
  }

  /** rejectProtocolBypass, for Hijack and EnableFullDuplex. */
  function RejectBypass(w: Writer): Writer {
    if w.failure.None? then w.(failure := Some(ErrInvalidBodyIntegration)) else w
  }

  function Step(w: Writer, op: Op): Writer {
    match op
    case DoWriteHeader(status, check) => WriteHeader(w, status, check)
    case DoWrite(content, check, count, failed) => Write(w, content, check, count, failed).0
    case DoFlush(check, reply) => FlushError(w, check, reply).0
    case DoHijack => RejectBypass(w)
    case DoEnableFullDuplex => RejectBypass(w)
  }

  function Run(w: Writer, ops: seq<Op>): Writer
    decreases |ops|
  {
    if ops == [] then w else Run(Step(w, ops[0]), ops[1..])
  }

  // ----- the class -------------------------------------------------------------------------

  class TrailerResponseWriter {
    const verb: Verb
    const maxBytes: int
    const algorithms: seq<string>
    var status: int
    var written: int
    var writers: seq<DigestWriter>
    var failure: Option<Error>
    var failureStatus: int
    ghost var hashed: seq<byte>
    ghost var below: seq<Call>

    ghost function Snapshot(): Writer
      reads this
    {
      Writer(verb, maxBytes, algorithms, status, failure, failureStatus, hashed, below)
    }

    ghost predicate Valid()
      reads this
    {
      written == |hashed| && writers == Writers(algorithms, hashed)
    }

    constructor (verb: Verb, maxBytes: int, algorithms: seq<string>)
      ensures Valid() && Snapshot() == Start(verb, maxBytes, algorithms)
    {
      this.verb, this.maxBytes, this.algorithms := verb, maxBytes, algorithms;
      status, written, failure, failureStatus := 0, 0, None, 0;
      writers := Writers(algorithms, []);
      hashed, below := [], [];
    }

    method WriteHeaderNow(code: Status, check: Option<Error>)
      requires Valid()
      modifies this`status, this`failure, this`failureStatus, this`below
      ensures Valid() && Snapshot() == WriteHeader(old(Snapshot()), code, check)
    {
      if failure.Some? || status != 0 {
        return;
      }
      if code == SWITCHING_PROTOCOLS {
        failure := Some(ErrInvalidBodyIntegration);
        failureStatus := NOT_IMPLEMENTED;
        return;
      }
      if verb == Connect && code >= 200 && code <= 299 {
        failure := Some(ErrInvalidBodyIntegration);
        below := below + [Header(NOT_IMPLEMENTED)];
        status := NOT_IMPLEMENTED;
        return;
      }
      if code == NO_CONTENT || code == RESET_CONTENT || code == NOT_MODIFIED {
        failure := Some(ErrInvalidBodyIntegration);
        failureStatus := NOT_IMPLEMENTED;
        return;
      }
      if check.Some? {
        failure := check;
        return;
      }
      below := below + [Header(code)];
      if code < 100 || code > 199 || code == SWITCHING_PROTOCOLS {
        status := code;
      }
    }

    method WriteContent(content: seq<byte>, check: Option<Error>, accepted: int, failed: bool)
      returns (count: nat, error: Option<Error>)
      requires Valid()
      modifies this
      ensures Valid() && (Snapshot(), count, error) == Write(old(Snapshot()), content, check, accepted, failed)
    {
      hide Writers;
      if failure.Some? {
        return 0, failure;
      }
      if status == 0 {
        WriteHeaderNow(OK_STATUS, check);
      }
      if failure.Some? {
        return 0, failure;
      }
      if verb != Head && BodyAllowed(status) && |content| > maxBytes - written {
        failure := Some(ErrBodyTooLarge);
        return 0, failure;
      }
      if accepted < 0 || accepted > |content| {
        below := below + [Bytes([])];
        failure := Some(ErrBodyRead);
        return 0, failure;
      }
      below := below + [Bytes(content[..accepted])];
      if verb != Head && BodyAllowed(status) {
        written := written + accepted;
        writers := Feed(writers, content[..accepted], algorithms, hashed);
        hashed := hashed + content[..accepted];
      }
      if failed || accepted != |content| {
        failure := Some(ErrBodyRead);
        return accepted, failure;
      }
      return accepted, None;
    }

    method FlushNow(check: Option<Error>, reply: FlushReply) returns (r: FlushResult)
      requires Valid()
      modifies this`status, this`failure, this`failureStatus, this`below
      ensures Valid() && (Snapshot(), r) == FlushError(old(Snapshot()), check, reply)
    {
      if failure.Some? {
        return FlushRefused(failure.value);
      }
      if status == 0 {
        WriteHeaderNow(OK_STATUS, check);
      }
      if failure.Some? {
        return FlushRefused(failure.value);
      }
      below := below + [Flush];
      if reply == Flushed {
        return FlushOk;
      }
      if reply == NotSupported {
        return FlushUnsupported;
      }
      failure := Some(ErrBodyRead);
      return FlushRefused(failure.value);
    }

    method RejectProtocolBypass()
      requires Valid()
      modifies this`failure
      ensures Valid() && Snapshot() == RejectBypass(old(Snapshot()))
    {
      if failure.None? {
        failure := Some(ErrInvalidBodyIntegration);
      }
    }
  }

  // ----- every sequence of operations ---------------------------------------------------------

  /** The bytes the wrapped writer accepted. */
  function Accepted(below: seq<Call>): seq<byte> {
    if below == [] then []
    else Accepted(below[..|below| - 1]) + if below[|below| - 1].Bytes? then below[|below| - 1].accepted else []
  }

  /** The bytes the handler asked to write. */
  function Contents(ops: seq<Op>): seq<byte> {
    if ops == [] then []
    else (if ops[0].DoWrite? then ops[0].content else []) + Contents(ops[1..])
  }

  /** Only informational headers went below. */
  predicate Early(below: seq<Call>) {
    forall i :: 0 <= i < |below| ==> below[i].Header? && Informational(below[i].status)
  }

  predicate Split(below: seq<Call>, status: int, k: nat)
    requires k < |below|
  {
    && Early(below[..k])
    && below[k].Header? && below[k].status == status
    && (forall i :: k < i < |below| ==> !below[i].Header?)
  }

  /** Informational headers, then the one final header with `status`, then no header. */
  predicate Committed(below: seq<Call>, status: int) {
    exists k :: 0 <= k < |below| && Split(below, status, k)
  }

  predicate Inv(w: Writer) {
    && (if w.status == 0 then Early(w.below) && w.hashed == [] else 200 <= w.status && Committed(w.below, w.status))
    && w.hashed == (if Bearing(w) then Accepted(w.below) else [])
    && |w.hashed| <= w.maxBytes
  }

  lemma {:induction false} EarlyNothing(below: seq<Call>)
    requires Early(below)
    ensures Accepted(below) == []
    decreases |below|
  {
    if below != [] { EarlyNothing(below[..|below| - 1]); }
  }

  lemma AcceptedMore(below: seq<Call>, call: Call)
    ensures Accepted(below + [call]) == Accepted(below) + if call.Bytes? then call.accepted else []
  {
    assert (below + [call])[..|below|] == below;
  }

  lemma CommittedMore(below: seq<Call>, call: Call, status: int)
    requires Committed(below, status) && !call.Header?
    ensures Committed(below + [call], status)
  {
    var k :| 0 <= k < |below| && Split(below, status, k);
    assert (below + [call])[..k] == below[..k];
    assert Split(below + [call], status, k);
  }

  lemma HeaderCommits(below: seq<Call>, status: Status)
    requires Early(below)
    ensures Committed(below + [Header(status)], status)
  {
    assert (below + [Header(status)])[..|below|] == below;
    assert Split(below + [Header(status)], status, |below|);
  }

  lemma FinalHeaderKeeps(w: Writer, status: Status, failure: Option<Error>)
    requires Inv(w) && w.status == 0 && status >= 200
    ensures Inv(w.(failure := failure, status := status, below := w.below + [Header(status)]))
  {
    EarlyNothing(w.below);
    AcceptedMore(w.below, Header(status));
    HeaderCommits(w.below, status);
    hide Committed, Accepted, Early;
  }

  lemma EarlyHeaderKeeps(w: Writer, status: Status)
    requires Inv(w) && w.status == 0 && Informational(status)
    ensures Inv(w.(below := w.below + [Header(status)]))
  {
    hide Committed, Accepted;
  }

  lemma FailureKeeps(w: Writer, failure: Option<Error>, failureStatus: int)
    requires Inv(w)
    ensures Inv(w.(failure := failure, failureStatus := failureStatus))
  {
    hide Committed, Accepted, Early;
  }

  lemma WriteHeaderKeeps(w: Writer, status: Status, check: Option<Error>)
    requires Inv(w)
    ensures Inv(WriteHeader(w, status, check))
  {
    hide Inv;
    FailureKeeps(w, Some(ErrInvalidBodyIntegration), NOT_IMPLEMENTED);
    FailureKeeps(w, check, w.failureStatus);
    if w.status == 0 {
      FinalHeaderKeeps(w, NOT_IMPLEMENTED, Some(ErrInvalidBodyIntegration));
      if Informational(status) {
        EarlyHeaderKeeps(w, status);
      } else if status >= 200 {
        FinalHeaderKeeps(w, status, w.failure);
      }
    }
  }

  lemma DeliverKeeps(w: Writer, content: seq<byte>, count: int, failed: bool)
    requires Inv(w) && w.status != 0
    ensures Inv(Deliver(w, content, count, failed).0)
  {
    hide Committed, Accepted, Early;
    var accepted := if count < 0 || count > |content| then [] else content[..count];
    AcceptedMore(w.below, Bytes(accepted));
    CommittedMore(w.below, Bytes(accepted), w.status);
    assert Accepted(w.below) + [] == Accepted(w.below);
  }

  lemma FlushKeeps(w: Writer)
    requires Inv(w) && w.status != 0
    ensures Inv(w.(below := w.below + [Flush]))
  {
    AcceptedMore(w.below, Flush);
    assert Accepted(w.below) + [] == Accepted(w.below);
    CommittedMore(w.below, Flush, w.status);
    hide Committed, Accepted, Early;
  }

  lemma StepKeeps(w: Writer, op: Op)
    requires Inv(w)
    ensures Inv(Step(w, op))
  {
    match op
    case DoWriteHeader(status, check) => WriteHeaderKeeps(w, status, check); hide Inv, WriteHeader;
    case DoWrite(content, check, count, failed) =>
      WriteHeaderKeeps(w, OK_STATUS, check);
      var next := Commit(w, check);
      if next.failure == None { DeliverKeeps(next, content, count, failed); }
      hide Inv, Deliver;
    case DoFlush(check, reply) =>
      WriteHeaderKeeps(w, OK_STATUS, check);
      var next := Commit(w, check);
      if next.failure == None {
        FlushKeeps(next);
      }
      hide Committed, Accepted, Early, WriteHeader;
    case _ =>
  }

  /** What an operation never takes back: a status, a failure and, after a failure, anything at all. */
  predicate Latched(w: Writer, v: Writer) {
    && (w.status != 0 ==> v.status == w.status)
    && (w.failure.Some? ==> v == w)
    && w.below <= v.below && w.hashed <= v.hashed
    && (v.verb, v.maxBytes, v.algorithms) == (w.verb, w.maxBytes, w.algorithms)
  }

  lemma StepLatches(w: Writer, op: Op)
    ensures Latched(w, Step(w, op))
  {
  }

  /** The invariant and the latches hold over every sequence of operations. */
  lemma {:induction false} RunKeeps(w: Writer, ops: seq<Op>)
    requires Inv(w)
    ensures Inv(Run(w, ops)) && Latched(w, Run(w, ops))
    decreases |ops|
  {
    if ops != [] {
      StepKeeps(w, ops[0]);
      StepLatches(w, ops[0]);
      hide Inv, Step;
      RunKeeps(Step(w, ops[0]), ops[1..]);
    }
  }

  /** Committing the header passes no body byte below. */
  lemma CommitNothing(w: Writer, status: Status, check: Option<Error>)
    ensures Accepted(WriteHeader(w, status, check).below) == Accepted(w.below)
    ensures w.failure.Some? ==> WriteHeader(w, status, check) == w
  {
    AcceptedMore(w.below, Header(status));
    AcceptedMore(w.below, Header(NOT_IMPLEMENTED));
    assert Accepted(w.below) + [] == Accepted(w.below);
    hide Accepted;
  }

  lemma DeliverAll(w: Writer, content: seq<byte>, count: int, failed: bool)
    requires Deliver(w, content, count, failed).0.failure == None
    ensures w.failure == None && Accepted(Deliver(w, content, count, failed).0.below) == Accepted(w.below) + content
  {
    AcceptedMore(w.below, Bytes(content));
    assert content[..|content|] == content;
    hide Accepted;
  }

  /** A failure-free operation passes everything it was given to the wrapped writer. */
  lemma StepComplete(w: Writer, op: Op)
    requires Step(w, op).failure == None
    ensures w.failure == None
    ensures Accepted(Step(w, op).below) == Accepted(w.below) + if op.DoWrite? then op.content else []
  {
    assert Accepted(w.below) + [] == Accepted(w.below);
    CommitNothing(w, OK_STATUS, if op.DoWrite? || op.DoFlush? then op.check else None);
    match op
    case DoWriteHeader(status, check) =>
      CommitNothing(w, status, check);
      hide Accepted, WriteHeader;
      StepLatches(w, op);
    case DoWrite(content, check, count, failed) =>
      hide Accepted, WriteHeader, Deliver;
      StepLatches(w, op);
      DeliverAll(Commit(w, check), content, count, failed);
    case DoFlush(check, reply) =>
      AcceptedMore(Commit(w, check).below, Flush);
      hide Accepted, WriteHeader;
      StepLatches(w, op);
    case _ =>
      hide Accepted;
  }

  /** Once a failure is latched, no later operation reaches the wrapped writer or changes anything. */
  lemma FailureSilences(w: Writer, ops: seq<Op>)
    requires w.failure.Some?
    ensures Run(w, ops) == w
    decreases |ops|
  {
    if ops != [] {
      StepLatches(w, ops[0]);
      FailureSilences(Step(w, ops[0]), ops[1..]);
    }
  }

  lemma {:induction false} RunComplete(w: Writer, ops: seq<Op>)
    requires Run(w, ops).failure == None
    ensures Accepted(Run(w, ops).below) == Accepted(w.below) + Contents(ops)
    decreases |ops|
  {
    if ops == [] {
      assert Accepted(w.below) + [] == Accepted(w.below);
    } else {
      var v := Step(w, ops[0]);
      if v.failure.Some? { FailureSilences(v, ops[1..]); }
      RunComplete(v, ops[1..]);
      StepComplete(w, ops[0]);
      hide Step, Accepted;
      Associate(Accepted(w.below), if ops[0].DoWrite? then ops[0].content else [], Contents(ops[1..]));
    }
  }

  lemma Fresh(verb: Verb, maxBytes: nat, algorithms: seq<string>)
    ensures var w := Start(verb, maxBytes, algorithms);
      && Inv(w) && Accepted(w.below) == [] && w.failureStatus == 0
      && w.verb == verb && w.maxBytes == maxBytes && w.algorithms == algorithms
  {
  }

  /**
    Over every sequence of operations: the status is written below once, the
    hashed bytes are exactly the accepted ones and within the limit, and without a
    failure they are everything the handler wrote.
   */
  lemma DigestCoversBody(verb: Verb, maxBytes: nat, algorithms: seq<string>, ops: seq<Op>)
    ensures var w := Run(Start(verb, maxBytes, algorithms), ops);
      && (w.status == 0 ==> Early(w.below))
      && (w.status != 0 ==> Committed(w.below, w.status))
      && (Bearing(w) ==> w.hashed == Accepted(w.below) && |Accepted(w.below)| <= maxBytes)
      && (w.failure == None ==> Accepted(w.below) == Contents(ops))
  {
    hide Committed, Early, Run, Accepted, Contents, Step;
    var w := Start(verb, maxBytes, algorithms);
    Fresh(verb, maxBytes, algorithms);
    RunKeeps(w, ops);
    assert [] + Contents(ops) == Contents(ops);
    if Run(w, ops).failure == None { RunComplete(w, ops); }
  }

  // ----- the end of the handler ----------------------------------------------------------------

  /** What the middleware does with the stream after the handler has returned. */
  datatype Ending =
    | Rejected(status: int, error: Error)               // nothing committed: an error response
    | Reported(error: Error)                            // committed: the trailers are removed
    | Signed(status: int, entries: seq<DigestWriter>)   // the trailers are signed over these digests

  /**
    What the checks after the handler find: `header` is the error of the header map,
    `trailers` that of assembling trailers with the given digests, `sign` that of
    signing a response with this status and these digests.
   */
  datatype Checks = Checks(
    header: Option<Error>, trailers: seq<DigestWriter> -> Option<Error>, sign: (int, seq<DigestWriter>) -> Option<Error>)

  /** The header written when the handler wrote none. */
  function Concluded(w: Writer, check: Option<Error>): Writer {
    if w.status == 0 && w.failure == None then WriteHeader(w, OK_STATUS, check) else w
  }

  function Finish(w: Writer, check: Option<Error>, late: Checks): (Writer, Ending) {
    var v := Concluded(w, check);
    match v.failure
    case Some(error) =>
      if v.status == 0 then (v, Rejected(if v.failureStatus != 0 then v.failureStatus else INTERNAL_SERVER_ERROR, error))
      else (v, Reported(error))
    case None =>
      var entries := Writers(v.algorithms, v.hashed);
      if late.header.Some? then (v, Reported(late.header.value))
      else if late.trailers(entries).Some? then (v, Reported(late.trailers(entries).value))
      else if late.sign(v.status, entries).Some? then (v, Reported(late.sign(v.status, entries).value))
      else (v, Signed(v.status, entries))
  }

  /** The failure status is unset or 501. */
  lemma {:induction false} FailureStatusKept(w: Writer, ops: seq<Op>)
    requires w.failureStatus == 0 || w.failureStatus == NOT_IMPLEMENTED
    ensures var v := Run(w, ops); v.failureStatus == 0 || v.failureStatus == NOT_IMPLEMENTED
    decreases |ops|
  {
    if ops != [] { FailureStatusKept(Step(w, ops[0]), ops[1..]); }
  }

  lemma FinishKeeps(w: Writer, check: Option<Error>, late: Checks)
    requires Inv(w) && (w.failureStatus == 0 || w.failureStatus == NOT_IMPLEMENTED)
    ensures var (v, ending) := Finish(w, check, late);
      && v == Concluded(w, check) && Inv(v) && Accepted(v.below) == Accepted(w.below)
      && (v.verb, v.maxBytes, v.algorithms) == (w.verb, w.maxBytes, w.algorithms)
      && (ending.Signed? ==> ending == Signed(v.status, Writers(v.algorithms, v.hashed)))
      && (v.failure == None ==> w.failure == None && v.status != 0)
      && (ending.Rejected? ==> v.status == 0 && (ending.status == NOT_IMPLEMENTED || ending.status == INTERNAL_SERVER_ERROR))
      && (ending.Reported? ==> v.status != 0)
  {
    hide Inv, Accepted;
    WriteHeaderKeeps(w, OK_STATUS, check);
    CommitNothing(w, OK_STATUS, check);
  }

  /**
    Whatever the handler did, trailers are signed exactly when nothing failed and the
    checks after it pass, and only over digests of exactly the bytes it wrote, which
    are exactly the bytes the wrapped writer accepted; an error response replaces
    the stream only while no status and no byte is out.
   */
  lemma SignedDigests(verb: Verb, maxBytes: nat, algorithms: seq<string>, ops: seq<Op>, check: Option<Error>, late: Checks)
    ensures var (v, ending) := Finish(Run(Start(verb, maxBytes, algorithms), ops), check, late);
      && v.algorithms == algorithms
      && (ending.Signed? ==> Committed(v.below, ending.status) && Accepted(v.below) == Contents(ops))
      && (ending.Signed? && verb != Head && BodyAllowed(ending.status) ==>
            ending.entries == Writers(algorithms, Contents(ops)) && |Contents(ops)| <= maxBytes)
      && (ending.Rejected? ==> Early(v.below) && (ending.status == NOT_IMPLEMENTED || ending.status == INTERNAL_SERVER_ERROR))
      && (ending.Reported? ==> Committed(v.below, v.status))
    ensures var (v, ending) := Finish(Run(Start(verb, maxBytes, algorithms), ops), check, late);
      var entries := Writers(algorithms, v.hashed);
      ending.Signed? <==> v.failure == None && late.header == late.trailers(entries) == late.sign(v.status, entries) == None
  {
    var start := Start(verb, maxBytes, algorithms);
    var w := Run(start, ops);
    hide Committed, Early, Run, Accepted, Contents, Step, Concluded, Writers, Start;
    Fresh(verb, maxBytes, algorithms);
    RunKeeps(start, ops);
    FailureStatusKept(start, ops);
    FinishKeeps(w, check, late);
    if w.failure == None { DigestCoversBody(verb, maxBytes, algorithms, ops); }
  }
}
