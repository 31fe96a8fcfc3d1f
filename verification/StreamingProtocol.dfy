/**
  One reader, any number of closers and the round trip that waits for them
  (body_integration.go:373-415, 445-558).

  A step is one locked section of the body, or one call that runs without the
  lock.  Events that the current state does not allow change nothing, so that
  every sequence of events is an interleaving.
 */
module StreamingProtocol {
  import opened Basics
  import opened StreamingBody

  /** Where the reading goroutine stands. */
  datatype Reader =
    | Outside
    | Checked                                                  // passed the first section, still to ask the context
    | Refusing(error: Error)                                   // context over or impossible count: about to complete
    | Holding(chunk: seq<byte>, end: End)                      // the wrapped reader returned
    | Finalizing(chunk: seq<byte>)                             // end observed, finalizer not yet called
    | Finalized(chunk: seq<byte>, outcome: Option<Error>)      // finalizer returned, about to complete
    | Returning(chunk: seq<byte>)                              // Read is about to return these bytes

  /** The sync.Once around closing the wrapped body. */
  datatype Closing = Unclosed | Running | Finished(failed: bool)

  /** RoundTrip: before and after completion(), after its select, after its decision. */
  datatype Client = Starting | Waiting | Observed | Released | Refused(error: Error)

  datatype Finalization = Finalization(entries: seq<DigestWriter>, outcome: Option<Error>)

  datatype World = World(
    body: Body, reader: Reader, closing: Closing, client: Client,
    sourced: seq<byte>,               // everything the wrapped reader has returned
    delivered: seq<byte>,             // everything finished Read calls have returned
    finalized: seq<Finalization>,     // every call of the finalizer
    doneCloses: nat,                  // how often the completion channel was closed
    bodyCloses: nat)                  // how often the wrapped body was closed

  datatype Event =
    | ReadBegins | ContextEnds(error: Error) | ReadImpossible | SourceReturns(chunk: seq<byte>, end: End)
    | ReadRefuses | ReadAdmits | Finalizes(outcome: Option<Error>) | ReadCompletes | ReadReturns
    | CloseBegins | CloseEnds(failed: bool) | CloseFinishes
    | Watches | TransportAnswers | Decides

  /** completeLocked, counting what it does to the channel. */
  function Completed(w: World, body: Body): World {
    w.(body := body, doneCloses := w.doneCloses + if !w.body.terminal && body.terminal && w.body.done != Absent then 1 else 0)
  }

  function Read(w: World, e: Event): World {
    match (w.reader, e)
    case (Outside, ReadBegins) => if w.body.terminal then w else w.(reader := Checked)
    case (Checked, ContextEnds(error)) => w.(reader := Refusing(error))
    case (Checked, ReadImpossible) => w.(reader := Refusing(ErrBodyRead))
    case (Checked, SourceReturns(chunk, end)) => w.(reader := Holding(chunk, end), sourced := w.sourced + chunk)
    case (Refusing(error), ReadRefuses) => Completed(w, Complete(w.body, Some(error))).(reader := Outside)
    case (Holding(chunk, end), ReadAdmits) =>
      var (body, reply) := Admit(w.body, chunk, end);
      Completed(w, body).(reader :=
        if reply.MustFinalize? then Finalizing(chunk) else Returning(if reply.count == 0 then [] else chunk))
    case (Finalizing(chunk), Finalizes(outcome)) =>
      w.(reader := Finalized(chunk, outcome),
         finalized := w.finalized + [Finalization(Writers(w.body.algorithms, w.body.hashed), outcome)])
    case (Finalized(chunk, outcome), ReadCompletes) => Completed(w, Complete(w.body, outcome)).(reader := Returning(chunk))
    case (Returning(chunk), ReadReturns) => w.(reader := Outside, delivered := w.delivered + chunk)
    case _ => w
  }

  function Close(w: World, e: Event): World {
    match (w.closing, e)
    case (Unclosed, CloseBegins) => w.(closing := Running, bodyCloses := w.bodyCloses + 1)
    case (Running, CloseEnds(failed)) => w.(closing := Finished(failed))
    case (Finished(failed), CloseFinishes) => Completed(w, FinishClose(w.body, failed))
    case _ => w
  }

  function RoundTrip(w: World, e: Event): World {
    match (w.client, e)
    case (Starting, Watches) => w.(client := Waiting, body := Observe(w.body))
    case (Waiting, TransportAnswers) => w.(client := if w.body.done == Closed then Observed else Refused(ErrBodyRead))
    case (Observed, Decides) => w.(client := match w.body.result case None => Released case Some(error) => Refused(error))
    case _ => w
  }

  function Step(w: World, e: Event): World {
    match e
    case CloseBegins | CloseEnds(_) | CloseFinishes => Close(w, e)
    case Watches | TransportAnswers | Decides => RoundTrip(w, e)
    case _ => Read(w, e)
  }

  function Run(w: World, events: seq<Event>): World
    decreases |events|
  {
    if events == [] then w else Run(Step(w, events[0]), events[1..])
  }

  function Start(maxBytes: nat, algorithms: seq<string>): World {
    World(Fresh(maxBytes, algorithms), Outside, Unclosed, Starting, [], [], [], 0, 0)
  }

  /** The bytes a Read call in progress has hashed and is about to return. */
  function Pending(reader: Reader): seq<byte> {
    if reader.Finalizing? || reader.Finalized? || reader.Returning? then reader.chunk else []
  }

  /** The bytes the reader holds but has not been admitted with. */
  function InHand(reader: Reader): seq<byte> {
    if reader.Holding? then reader.chunk else []
  }

  /** How the bytes, the channel and the client hang together. */
  predicate Bytes(w: World) {
    && Sound(w.body)
    && w.doneCloses == (if w.body.done == Closed then 1 else 0)
    && w.bodyCloses == (if w.closing == Unclosed then 0 else 1)
    && w.body.hashed == w.delivered + Pending(w.reader)
    && (w.body.result == None ==> w.sourced == w.body.hashed + InHand(w.reader))
    && (w.client == Waiting ==> w.body.done != Absent)
    && (w.client == Observed ==> w.body.done == Closed)
    && (w.client == Released ==> w.body.terminal && w.body.result == None)
  }

  /** How the end of the body, the finalizer and the terminal result hang together. */
  predicate Finish(w: World) {
    && (w.reader.Finalizing? ==> w.body.eofObserved && w.finalized == [])
    && (w.reader.Finalized? ==> w.finalized == [Finalization(Writers(w.body.algorithms, w.body.hashed), w.reader.outcome)])
    && (w.finalized != [] ==> |w.finalized| == 1 && w.body.eofObserved)
    && (w.finalized != [] ==> w.finalized[0].entries == Writers(w.body.algorithms, w.body.hashed))
    && (w.finalized != [] && !w.reader.Finalized? ==> w.body.terminal && (w.reader.Outside? || w.reader.Returning?))
    && (w.body.eofObserved && w.finalized == [] ==> w.reader.Finalizing?)
    && (w.body.terminal && w.body.result == None ==> w.finalized != [] && w.finalized[0].outcome == None)
  }

  predicate Inv(w: World) {
    Bytes(w) && Finish(w)
  }

  lemma ReadKeepsBytes(w: World, e: Event)
    requires Inv(w)
    ensures Bytes(Read(w, e))
  {
    var v := Read(w, e);
    assert w.delivered + [] == w.delivered && v.delivered + [] == v.delivered;
    assert w.body.hashed + [] == w.body.hashed && v.body.hashed + [] == v.body.hashed;
    hide Finish;
  }

  lemma ReadKeepsFinish(w: World, e: Event)
    requires Inv(w)
    ensures Finish(Read(w, e))
  {
  }

  lemma ReadKeeps(w: World, e: Event)
    requires Inv(w)
    ensures Inv(Read(w, e))
  {
    ReadKeepsBytes(w, e);
    ReadKeepsFinish(w, e);
    hide Bytes, Finish, Read;
  }

  lemma CloseKeeps(w: World, e: Event)
    requires Inv(w)
    ensures Inv(Close(w, e))
  {
  }

  lemma RoundTripKeeps(w: World, e: Event)
    requires Inv(w)
    ensures Inv(RoundTrip(w, e))
  {
  }

  /** The invariant holds after every interleaving of any length. */
  lemma {:induction false} RunKeeps(w: World, events: seq<Event>)
    requires Inv(w)
    ensures Inv(Run(w, events))
    decreases |events|
  {
    if events != [] {
      ReadKeeps(w, events[0]);
      CloseKeeps(w, events[0]);
      RoundTripKeeps(w, events[0]);
      hide Inv, Read, Close, RoundTrip;
      RunKeeps(Step(w, events[0]), events[1..]);
    }
  }

  /** What no later step takes back: the result, what was hashed by then, the client's decision. */
  predicate Latched(w: World, v: World) {
    && (w.body.terminal ==> v.body.terminal && v.body.result == w.body.result && v.body.hashed == w.body.hashed)
    && (w.body.eofObserved ==> v.body.eofObserved && v.body.hashed == w.body.hashed)
    && (w.client.Released? || w.client.Refused? ==> v.client == w.client)
    && w.finalized <= v.finalized && w.delivered <= v.delivered && w.sourced <= v.sourced
    && v.body.algorithms == w.body.algorithms && v.body.maxBytes == w.body.maxBytes
  }

  lemma ReadLatches(w: World, e: Event)
    requires Inv(w)
    ensures Latched(w, Read(w, e))
  {
  }

  lemma OthersLatch(w: World, e: Event)
    requires Inv(w)
    ensures Latched(w, Close(w, e)) && Latched(w, RoundTrip(w, e))
  {
  }

  lemma {:induction false} RunLatches(w: World, events: seq<Event>)
    requires Inv(w)
    ensures Latched(w, Run(w, events))
    decreases |events|
  {
    if events != [] {
      RunKeeps(w, events[..1]);
      assert Run(w, events[..1]) == Step(w, events[0]);
      ReadLatches(w, events[0]);
      OthersLatch(w, events[0]);
      hide Inv, Read, Close, RoundTrip;
      RunLatches(Step(w, events[0]), events[1..]);
    }
  }

  /**
    A response is released only when the finalizer was called exactly once and
    succeeded, on the digests of exactly the bytes that Read calls return, which
    are all the bytes of the wrapped body and at most maxBytes.
   */
  lemma ReleaseSafe(maxBytes: nat, algorithms: seq<string>, events: seq<Event>)
    ensures var w := Run(Start(maxBytes, algorithms), events);
      w.client == Released ==>
        && w.finalized == [Finalization(Writers(algorithms, w.delivered + Pending(w.reader)), None)]
        && w.sourced == w.delivered + Pending(w.reader)
        && |w.sourced| <= maxBytes
  {
    RunKeeps(Start(maxBytes, algorithms), events);
    RunLatches(Start(maxBytes, algorithms), events);
  }

  /**
    In every interleaving: hashed bytes are the delivered ones and within the limit,
    the finalizer runs at most once, the channel and the wrapped body are closed at
    most once.
   */
  lemma AlwaysBounded(maxBytes: nat, algorithms: seq<string>, events: seq<Event>)
    ensures var w := Run(Start(maxBytes, algorithms), events);
      && w.body.hashed == w.delivered + Pending(w.reader) && |w.body.hashed| <= maxBytes
      && |w.finalized| <= 1 && w.doneCloses <= 1 && w.bodyCloses <= 1
  {
    RunKeeps(Start(maxBytes, algorithms), events);
    RunLatches(Start(maxBytes, algorithms), events);
  }

  lemma Answered(w: World)
    requires w.client == Waiting
    ensures var v := RoundTrip(w, TransportAnswers);
      v.body == w.body && v.client == if w.body.done == Closed then Observed else Refused(ErrBodyRead)
  {
  }

  lemma Decided(w: World)
    requires w.client == Observed || w.client.Refused?
    ensures Run(w, [Decides]).client == Released <==> w.client == Observed && w.body.result == None
  {
    assert Run(w, [Decides]) == Step(w, Decides);
  }

  lemma {:induction false} Undecided(w: World, events: seq<Event>)
    requires forall i :: 0 <= i < |events| ==> !events[i].Decides?
    requires w.client == Observed
    ensures Run(w, events).client == Observed
    decreases |events|
  {
    if events != [] { Undecided(Step(w, events[0]), events[1..]); }
  }

  /** The select releases exactly the exchanges whose body has ended with success by then. */
  lemma ReleaseExactly(w: World, between: seq<Event>)
    requires Inv(w) && w.client == Waiting
    requires forall i :: 0 <= i < |between| ==> !between[i].Decides?
    ensures Run(Run(Step(w, TransportAnswers), between), [Decides]).client == Released
      <==> w.body.result == None && w.body.done == Closed
  {
    assert w.body.done == Closed ==> w.body.terminal;
    hide Inv, Run, Read, Close, RoundTrip;
    var v := Step(w, TransportAnswers);
    Answered(w);
    RoundTripKeeps(w, TransportAnswers);
    var u := Run(v, between);
    if v.client == Observed { Undecided(v, between); }
    RunLatches(v, between);
    Decided(u);
  }

  /** Once the body has failed, a response not yet released never is. */
  lemma FailureFinal(w: World, events: seq<Event>)
    requires Inv(w) && w.body.result.Some? && w.client != Released
    ensures Run(w, events).client != Released
  {
    RunLatches(w, events);
    RunKeeps(w, events);
  }

  // ----- the undisturbed exchange ------------------------------------------------------------

  function Chunk(chunk: seq<byte>): seq<Event> {
    [ReadBegins, SourceReturns(chunk, More), ReadAdmits, ReadReturns]
  }

  function Chunks(chunks: seq<seq<byte>>): seq<Event> {
    if chunks == [] then [] else Chunk(chunks[0]) + Chunks(chunks[1..])
  }

  function Concat(chunks: seq<seq<byte>>): seq<byte> {
    if chunks == [] then [] else chunks[0] + Concat(chunks[1..])
  }

  const ENDING := [ReadBegins, SourceReturns([], EndOfFile), ReadAdmits, Finalizes(None),
                   ReadCompletes, TransportAnswers, Decides, ReadReturns]

  lemma {:induction false} RunBoth(w: World, a: seq<Event>, b: seq<Event>)
    ensures Run(w, a + b) == Run(Run(w, a), b)
    decreases |a|
  {
    if a == [] {
      assert a + b == b;
    } else {
      assert (a + b)[1..] == a[1..] + b;
      hide Step;
      RunBoth(Step(w, a[0]), a[1..], b);
    }
  }

  /** Between two Read calls of an exchange that nothing has disturbed. */
  predicate Calm(w: World) {
    && w.reader == Outside && w.client == Waiting && w.finalized == []
    && !w.body.terminal && !w.body.eofObserved && w.body.done == Open
  }

  lemma ChunkSteps(w: World, chunk: seq<byte>)
    requires Calm(w) && chunk != [] && |w.body.hashed| + |chunk| <= w.body.maxBytes
    ensures var v := Step(Step(Step(Step(w, ReadBegins), SourceReturns(chunk, More)), ReadAdmits), ReadReturns);
      Calm(v) && v.delivered == w.delivered + chunk && v.body.maxBytes == w.body.maxBytes
  {
    var w2 := Step(Step(w, ReadBegins), SourceReturns(chunk, More));
    assert w2.reader == Holding(chunk, More) && w2.body == w.body && w2.delivered == w.delivered;
    var w3 := Step(w2, ReadAdmits);
    assert w3.reader == Returning(chunk) && w3.body == w.body.(hashed := w.body.hashed + chunk);
  }

  lemma CalmHashed(w: World)
    requires Inv(w) && Calm(w)
    ensures w.body.hashed == w.delivered
  {
    assert w.delivered + [] == w.delivered;
  }

  lemma RunFour(w: World, a: Event, b: Event, c: Event, d: Event)
    ensures Run(w, [a, b, c, d]) == Step(Step(Step(Step(w, a), b), c), d)
  {
    hide Step;
    var x, y, z := Step(w, a), Step(Step(w, a), b), Step(Step(Step(w, a), b), c);
    assert [a, b, c, d][1..] == [b, c, d] && [b, c, d][1..] == [c, d] && [c, d][1..] == [d] && [d][1..] == [];
    assert Run(w, [a, b, c, d]) == Run(x, [b, c, d]) && Run(x, [b, c, d]) == Run(y, [c, d]);
    assert Run(y, [c, d]) == Run(z, [d]) && Run(z, [d]) == Step(z, d);
  }

  lemma OneChunk(w: World, chunk: seq<byte>)
    requires Inv(w) && Calm(w) && chunk != [] && |w.delivered| + |chunk| <= w.body.maxBytes
    ensures var v := Run(w, Chunk(chunk));
      Inv(v) && Calm(v) && v.delivered == w.delivered + chunk && v.body.maxBytes == w.body.maxBytes
  {
    hide Step, Inv, Calm, Run;
    CalmHashed(w);
    ChunkSteps(w, chunk);
    RunFour(w, ReadBegins, SourceReturns(chunk, More), ReadAdmits, ReadReturns);
    RunKeeps(w, Chunk(chunk));
  }

  lemma {:induction false} AllChunks(w: World, chunks: seq<seq<byte>>)
    requires Inv(w) && Calm(w) && |w.delivered| + |Concat(chunks)| <= w.body.maxBytes
    requires forall i :: 0 <= i < |chunks| ==> chunks[i] != []
    ensures var v := Run(w, Chunks(chunks));
      Inv(v) && Calm(v) && v.delivered == w.delivered + Concat(chunks) && v.body.maxBytes == w.body.maxBytes
    decreases |chunks|
  {
    if chunks == [] {
      assert w.delivered + [] == w.delivered;
    } else {
      OneChunk(w, chunks[0]);
      hide Inv, Calm, Step, Chunk;
      var v := Run(w, Chunk(chunks[0]));
      AllChunks(v, chunks[1..]);
      RunBoth(w, Chunk(chunks[0]), Chunks(chunks[1..]));
      Associate(w.delivered, chunks[0], Concat(chunks[1..]));
    }
  }

  lemma Watching(maxBytes: nat, algorithms: seq<string>)
    ensures var v := Run(Start(maxBytes, algorithms), [Watches]);
      Inv(v) && Calm(v) && v.delivered == [] && v.body.maxBytes == maxBytes
  {
    var w := Start(maxBytes, algorithms);
    assert Run(w, [Watches]) == Run(Step(w, Watches), []);
  }

  /** The state after the last Read of a calm exchange has called the finalizer. */
  lemma EndRead(w: World)
    requires Inv(w) && Calm(w)
    ensures var v := Step(Step(Step(Step(w, ReadBegins), SourceReturns([], EndOfFile)), ReadAdmits), Finalizes(None));
      && v.reader == Finalized([], None) && v.client == Waiting && !v.body.terminal && v.body.done == Open
      && v.body.result == None && v.delivered == w.delivered
  {
    var w1 := Step(w, ReadBegins);
    var w2 := Step(w1, SourceReturns([], EndOfFile));
    assert w2.reader == Holding([], EndOfFile) && w2.body == w.body;
    var w3 := Step(w2, ReadAdmits);
    assert w3.reader == Finalizing([]);
  }

  lemma EndDecide(v: World)
    requires v.reader == Finalized([], None) && v.client == Waiting
    requires !v.body.terminal && v.body.done == Open && v.body.result == None
    ensures var u := Step(Step(Step(Step(v, ReadCompletes), TransportAnswers), Decides), ReadReturns);
      u.client == Released && u.delivered == v.delivered
  {
    var v1 := Step(v, ReadCompletes);
    assert v1.body.done == Closed && v1.reader == Returning([]) && v1.client == Waiting && v1.body.result == None;
    var v2 := Step(v1, TransportAnswers);
    var v3 := Step(v2, Decides);
    assert v3.client == Released && v3.reader == Returning([]) && v3.delivered == v.delivered;
    assert v.delivered + [] == v.delivered;
  }

  lemma Ending(w: World)
    requires Inv(w) && Calm(w)
    ensures Run(w, ENDING).client == Released && Run(w, ENDING).delivered == w.delivered
  {
    hide Step, Inv, Calm;
    EndRead(w);
    var first, second := [ReadBegins, SourceReturns([], EndOfFile), ReadAdmits, Finalizes(None)],
      [ReadCompletes, TransportAnswers, Decides, ReadReturns];
    assert ENDING == first + second;
    RunBoth(w, first, second);
    RunFour(w, ReadBegins, SourceReturns([], EndOfFile), ReadAdmits, Finalizes(None));
    var v := Run(w, first);
    RunFour(v, ReadCompletes, TransportAnswers, Decides, ReadReturns);
    EndDecide(v);
  }

  /** A body within the limit that nothing disturbs is read whole and its response released. */
  lemma UndisturbedReleases(maxBytes: nat, algorithms: seq<string>, chunks: seq<seq<byte>>)
    requires |Concat(chunks)| <= maxBytes && forall i :: 0 <= i < |chunks| ==> chunks[i] != []
    ensures var w := Run(Start(maxBytes, algorithms), [Watches] + (Chunks(chunks) + ENDING));
      w.client == Released && w.delivered == Concat(chunks)
  {
    var w := Start(maxBytes, algorithms);
    var v := Run(w, [Watches]);
    Watching(maxBytes, algorithms);
    hide Step, Inv, Calm, Run, Chunks, Concat, Start;
    RunBoth(w, [Watches], Chunks(chunks) + ENDING);
    assert [] + Concat(chunks) == Concat(chunks);
    AllChunks(v, chunks);
    RunBoth(v, Chunks(chunks), ENDING);
    var u := Run(v, Chunks(chunks));
    Ending(u);
  }

  // ----- one Read without interruption ----------------------------------------------------------

  /** The steps of one Read call; steps that do not arise in a case change nothing. */
  function ReadEvents(b: Body, context: Option<Error>, read: Option<(seq<byte>, End)>,
                      finalize: seq<DigestWriter> -> Option<Error>): seq<Event>
  {
    var second := if context.Some? then ContextEnds(context.value)
                  else if read.None? then ReadImpossible else SourceReturns(read.value.0, read.value.1);
    var third := if context.Some? || read.None? then ReadRefuses else ReadAdmits;
    var hashed := if read.Some? then b.hashed + read.value.0 else b.hashed;
    [ReadBegins, second, third, Finalizes(finalize(Writers(b.algorithms, hashed))), ReadCompletes, ReadReturns]
  }

  lemma RunSix(w: World, a: Event, b: Event, c: Event, d: Event, e: Event, f: Event)
    ensures Run(w, [a, b, c, d, e, f]) == Step(Step(Step(Step(Step(Step(w, a), b), c), d), e), f)
  {
    hide Step;
    assert [a, b, c, d, e, f] == [a, b, c, d] + [e, f];
    RunBoth(w, [a, b, c, d], [e, f]);
    RunFour(w, a, b, c, d);
    var x := Run(w, [a, b, c, d]);
    assert [e, f][1..] == [f] && [f][1..] == [];
    assert Run(x, [e, f]) == Run(Step(x, e), [f]) && Run(Step(x, e), [f]) == Step(Step(x, e), f);
  }

  /** From the return of the wrapped reader to the return of Read. */
  lemma AdmitSteps(w: World, outcome: Option<Error>)
    requires w.reader.Holding?
    ensures var v := Step(Step(Step(Step(w, ReadAdmits), Finalizes(outcome)), ReadCompletes), ReadReturns);
      var (body, reply) := Admit(w.body, w.reader.chunk, w.reader.end);
      && v.reader == Outside && v.body == (if reply.MustFinalize? then Complete(body, outcome) else body)
      && v.delivered == w.delivered + (if reply.count == 0 then [] else w.reader.chunk)
      && (reply.count > 0 ==> reply.count == |w.reader.chunk|)
      && (reply.MustFinalize? ==> body.hashed == w.body.hashed + w.reader.chunk && reply.count == |w.reader.chunk|)
  {
    var w1 := Step(w, ReadAdmits);
    var (body, reply) := Admit(w.body, w.reader.chunk, w.reader.end);
    assert w1.delivered == w.delivered && w1.body == body;
    if reply.MustFinalize? {
      assert w1.reader == Finalizing(w.reader.chunk);
    } else {
      assert w1.reader == Returning(if reply.count == 0 then [] else w.reader.chunk);
    }
    hide Admit;
  }

  /** The method Read is the run of its own steps: same fields, and it delivers the bytes it counts. */
  lemma UninterruptedRead(w: World, context: Option<Error>, read: Option<(seq<byte>, End)>,
                          finalize: seq<DigestWriter> -> Option<Error>)
    requires w.reader == Outside
    ensures var v := Run(w, ReadEvents(w.body, context, read, finalize));
      var (body, count, _) := ReadAlone(w.body, context, read, finalize);
      && v.reader == Outside && v.body == body
      && v.delivered == w.delivered + (if count == 0 then [] else read.value.0)
      && (count > 0 ==> read.Some? && count == |read.value.0|)
  {
    var events := ReadEvents(w.body, context, read, finalize);
    RunSix(w, events[0], events[1], events[2], events[3], events[4], events[5]);
    assert events == [events[0], events[1], events[2], events[3], events[4], events[5]];
    hide Run;
    assert w.delivered + [] == w.delivered;
    var w1 := Step(w, events[0]);
    var w2 := Step(w1, events[1]);
    var w3 := Step(w2, events[2]);
    var w4 := Step(w3, events[3]);
    var w5 := Step(w4, events[4]);
    if w.body.terminal {
      assert w5 == w;
    } else if context.Some? || read.None? {
      assert w3.reader == Outside && w3.delivered == w.delivered;
    } else {
      assert w2.reader == Holding(read.value.0, read.value.1) && w2.body == w.body && w2.delivered == w.delivered;
      AdmitSteps(w2, events[3].outcome);
    }
  }
}
