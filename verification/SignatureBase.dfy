/**
  The signature base (message.go:104-188, section 2.5 of RFC 9421).
 */
module SignatureBase {
  import opened Basics
  import opened StructuredFields
  import opened Identifiers
  import opened SizeLimits
  import opened ComponentValues

  datatype BaseError = Invalid | LimitExceeded

  datatype BaseLine = BaseLine(identifier: string, value: string)

  const DEFAULT_MAX_BYTES: int := 1048576

  const PARAMETER_PREFIX: string := "\"@signature-params\": "

  /** validDerivedValue */
  predicate ValidDerivedValue(value: string) {
    && value != "" && !Whitespace.Blank(value[0]) && !Whitespace.Blank(value[|value| - 1])
    && forall i :: 0 <= i < |value| ==> Printable(value[i])
  }

  function LineText(line: BaseLine): string {
    line.identifier + (": " + (line.value + "\n"))
  }

  function LinesText(lines: seq<BaseLine>): string {
    if lines == [] then "" else LinesText(lines[..|lines| - 1]) + LineText(lines[|lines| - 1])
  }

  /** The state of the loop over the covered components. */
  datatype Progress = Progress(lines: seq<BaseLine>, remaining: int, seen: set<string>)

  function KeyText(c: Component): string {
    match ComparisonKey(c) case Some(key) => key case None => ""
  }

  /** One iteration (message.go:129-173). */
  function Cover(m: Message, c: Component, p: Progress): Result<Progress, BaseError> {
    if Capped(ItemSize(c)) > p.remaining then Err(LimitExceeded)
    else match SerializeComponent(c)
      case None => Err(Invalid)
      case Some(identifier) =>
        if KeyText(c) in p.seen then Err(Invalid)
        else
          var fixedBytes := SaturatingAdd(Len(identifier), 3);
          if fixedBytes > p.remaining then Err(LimitExceeded)
          else match Resolve(m, c, p.remaining - fixedBytes)
            case TooLarge => Err(LimitExceeded)
            case Failure => Err(Invalid)
            case Value(value) =>
              if c.name[0] == '@' && c.name != "@query-param" && !ValidDerivedValue(value) then Err(Invalid)
              else Ok(Progress(p.lines + [BaseLine(identifier, value)], p.remaining - fixedBytes - |value|,
                               p.seen + {KeyText(c)}))
  }

  function CoverAll(m: Message, cs: seq<Component>, limit: int): Result<Progress, BaseError> {
    if cs == [] then Ok(Progress([], limit, {}))
    else match CoverAll(m, cs[..|cs| - 1], limit)
      case Err(e) => Err(e)
      case Ok(p) => Cover(m, cs[|cs| - 1], p)
  }

  function Limit(m: Message): int {
    if m.maxSignatureBaseBytes == 0 then DEFAULT_MAX_BYTES else m.maxSignatureBaseBytes
  }

  predicate ValidContext(m: Message) {
    m.request != m.response && m.transport <= 2 && (m.request ==> m.transport == 0)
  }

  function Base(m: Message, input: SignatureInput): Result<string, BaseError> {
    if !ValidContext(m) then Err(Invalid)
    else if Limit(m) < 0 then Err(LimitExceeded)
    else match CoverAll(m, input.components, Limit(m))
      case Err(e) => Err(e)
      case Ok(p) =>
        if |PARAMETER_PREFIX| > p.remaining || InputSize(input) > p.remaining - |PARAMETER_PREFIX| then Err(LimitExceeded)
        else match SerializeParameters(input)
          case None => Err(Invalid)
          case Some(parameters) => Ok(LinesText(p.lines) + (PARAMETER_PREFIX + parameters))
  }

  // ----- the implementation ---------------------------------------------------------

  lemma {:induction false} CoverStop(m: Message, cs: seq<Component>, limit: int, i: nat)
    requires i <= |cs| && CoverAll(m, cs[..i], limit).Err?
    ensures CoverAll(m, cs, limit) == CoverAll(m, cs[..i], limit)
    decreases |cs|
  {
    hide Cover;
    if i == |cs| {
      assert cs[..i] == cs;
    } else {
      assert cs[..|cs| - 1][..i] == cs[..i];
      CoverStop(m, cs[..|cs| - 1], limit, i);
    }
  }

  lemma CoverNone(m: Message, cs: seq<Component>, limit: int)
    ensures CoverAll(m, cs[..0], limit) == Ok(Progress([], limit, {}))
  {
    hide Cover;
  }

  lemma CoverNext(m: Message, cs: seq<Component>, limit: int, i: nat, p: Progress)
    requires i < |cs| && CoverAll(m, cs[..i], limit) == Ok(p)
    ensures CoverAll(m, cs[..i + 1], limit) == Cover(m, cs[i], p)
  {
    hide Cover;
    assert cs[..i + 1][..i] == cs[..i];
  }

  lemma CoverNegative(m: Message, c: Component, p: Progress)
    requires p.remaining < 0
    ensures Cover(m, c, p) == Err(LimitExceeded)
  {
    hide ItemSize, SerializeComponent, KeyText, Resolve, ValidDerivedValue;
  }

  lemma NamedComponent(c: Component)
    requires SerializeComponent(c).Some?
    ensures c.name != ""
  {
  }

  /** The body of the loop; the error of a failed iteration is the result. */
  method CoverComponent(m: Message, c: Component, p: Progress) returns (r: Result<Progress, BaseError>)
    requires p.remaining <= MAX_INT
    ensures r == Cover(m, c, p)
    ensures r.Ok? ==> r.value.remaining <= MAX_INT
  {
    hide ItemSize, SerializeComponent, KeyText, Resolve;
    var bound := StructuredItemUpperBound(c.name, c.parameters);
    assert Component(c.name, c.parameters) == c;
    if bound > p.remaining {
      return Err(LimitExceeded);
    }
    var identifier := SerializeComponent(c);
    if identifier.None? {
      return Err(Invalid);
    }
    NamedComponent(c);
    var comparisonKey := KeyText(c);
    if comparisonKey in p.seen {
      return Err(Invalid);
    }
    var fixedBytes := SaturatingAdd(Len(identifier.value), 3);
    var ok, remaining := ConsumeSize(p.remaining, fixedBytes);
    if !ok {
      return Err(LimitExceeded);
    }
    var resolved := ResolveComponent(m, c, remaining);
    match resolved {
      case TooLarge => return Err(LimitExceeded);
      case Failure => return Err(Invalid);
      case Value(value) =>
        if c.name[0] == '@' && c.name != "@query-param" && !ValidDerivedValue(value) {
          return Err(Invalid);
        }
        return Ok(Progress(p.lines + [BaseLine(identifier.value, value)], remaining - |value|, p.seen + {comparisonKey}));
    }
  }

  lemma LinesTextEmpty()
    ensures LinesText([]) == ""
  {
  }

  lemma LinesTextMore(lines: seq<BaseLine>, line: BaseLine)
    ensures LinesText(lines + [line]) == LinesText(lines) + line.identifier + ": " + line.value + "\n"
  {
    assert (lines + [line])[..|lines|] == lines;
    var before := LinesText(lines);
    assert before + LineText(line) == before + line.identifier + ": " + line.value + "\n";
  }

  /** The line an iteration adds. */
  function CoveredLine(m: Message, c: Component, p: Progress, p': Progress): (line: BaseLine)
    requires Cover(m, c, p) == Ok(p')
    ensures p'.lines == p.lines + [line]
  {
    p'.lines[|p.lines|]
  }

  /** CreateSignatureBase */
  method CreateSignatureBase(m: Message, input: SignatureInput) returns (r: Result<string, BaseError>)
    requires m.maxSignatureBaseBytes <= MAX_INT
    ensures r == Base(m, input)
  {
    if m.request == m.response {
      return Err(Invalid);
    }
    if m.transport > 2 || (m.request && m.transport != 0) {
      return Err(Invalid);
    }
    var limit := m.maxSignatureBaseBytes;
    if limit == 0 {
      limit := DEFAULT_MAX_BYTES;
    }
    if limit < 0 {
      return Err(LimitExceeded);
    }
    hide Cover, CoverAll, LinesText, SerializeParameters, InputSize;
    var builder := "";
    var p := Progress([], limit, {});
    LinesTextEmpty();
    CoverNone(m, input.components, limit);
    for i := 0 to |input.components|
      invariant CoverAll(m, input.components[..i], limit) == Ok(p)
      invariant builder == LinesText(p.lines) && p.remaining <= MAX_INT
    {
      CoverNext(m, input.components, limit, i, p);
      var next := CoverComponent(m, input.components[i], p);
      if next.Err? {
        CoverStop(m, input.components, limit, i + 1);
        return Err(next.error);
      }
      var line := CoveredLine(m, input.components[i], p, next.value);
      LinesTextMore(p.lines, line);
      p := next.value;
      builder := builder + line.identifier;
      builder := builder + ": ";
      builder := builder + line.value;
      builder := builder + "\n";
    }
    assert input.components[..|input.components|] == input.components;
    var ok, remaining := ConsumeSize(p.remaining, |PARAMETER_PREFIX|);
    if !ok {
      return Err(LimitExceeded);
    }
    var fit := SignatureParametersFit(input, remaining);
    if !fit {
      return Err(LimitExceeded);
    }
    var parameters := SerializeParameters(input);
    if parameters.None? {
      return Err(Invalid);
    }
    Associate(builder, PARAMETER_PREFIX, parameters.value);
    builder := builder + PARAMETER_PREFIX;
    builder := builder + parameters.value;
    return Ok(builder);
  }

  // ----- the output bound ---------------------------------------------------------------

  lemma CoverCost(m: Message, c: Component, p: Progress, p': Progress)
    requires Cover(m, c, p) == Ok(p') && p.remaining < MAX_INT
    ensures |LinesText(p'.lines)| - |LinesText(p.lines)| == p.remaining - p'.remaining
  {
    var line := CoveredLine(m, c, p, p');
    LinesTextMore(p.lines, line);
    hide LinesText, ItemSize, SerializeComponent, KeyText, Resolve, ValidDerivedValue;
  }

  lemma CoverAllStep(m: Message, cs: seq<Component>, limit: int) returns (p: Progress, p': Progress)
    requires cs != [] && CoverAll(m, cs, limit).Ok?
    ensures CoverAll(m, cs[..|cs| - 1], limit) == Ok(p) && CoverAll(m, cs, limit) == Ok(p')
    ensures Cover(m, cs[|cs| - 1], p) == Ok(p')
  {
    hide Cover;
    p, p' := CoverAll(m, cs[..|cs| - 1], limit).value, CoverAll(m, cs, limit).value;
  }

  lemma {:induction false} CoverBudget(m: Message, cs: seq<Component>, limit: int)
    requires limit < MAX_INT && CoverAll(m, cs, limit).Ok?
    ensures var p := CoverAll(m, cs, limit).value; |LinesText(p.lines)| + p.remaining == limit
  {
    if cs != [] {
      var p, p' := CoverAllStep(m, cs, limit);
      hide Cover, CoverAll;
      CoverBudget(m, cs[..|cs| - 1], limit);
      CoverCost(m, cs[|cs| - 1], p, p');
    }
  }

  /**
    A base that is returned is never longer than the effective limit; for the
    largest limit that is the range of Go's own lengths.
   */
  lemma OutputBound(m: Message, input: SignatureInput)
    requires Limit(m) <= MAX_INT && Base(m, input).Ok?
    ensures Capped(|Base(m, input).value|) <= Limit(m)
    ensures Limit(m) < MAX_INT ==> |Base(m, input).value| <= Limit(m)
  {
    if Limit(m) < MAX_INT { CoverBudget(m, input.components, Limit(m)); }
    InputSizeExact(input);
    hide LinesText, CoverAll, ValidInput, InputText, InputSize;
  }

  /**
    A budget that has gone negative, because a resolved value was longer than
    what was left, is always refused with the limit error.
   */
  lemma NegativeBudget(m: Message, input: SignatureInput, i: nat)
    requires ValidContext(m) && Limit(m) >= 0 && i <= |input.components|
    requires CoverAll(m, input.components[..i], Limit(m)).Ok?
    requires CoverAll(m, input.components[..i], Limit(m)).value.remaining < 0
    ensures Base(m, input) == Err(LimitExceeded)
  {
    hide Cover, CoverAll, LinesText, SerializeParameters, InputSize;
    var cs, limit := input.components, Limit(m);
    var p := CoverAll(m, cs[..i], limit).value;
    if i < |cs| {
      CoverNext(m, cs, limit, i, p);
      CoverNegative(m, cs[i], p);
      CoverStop(m, cs, limit, i + 1);
    } else {
      assert cs[..i] == cs;
    }
  }

  // ----- the limit only refuses -------------------------------------------------------------

  lemma FieldMore(m: Message, name: string, flags: Flags, a: int, b: int)
    requires a <= b && Field(m, name, flags, a).Value?
    ensures Field(m, name, flags, b) == Field(m, name, flags, a)
  {
    hide EachLine, Join, Prepared, Find, MarshalMember, Marshal, ValuesSize;
  }

  lemma RequestedMore(request: Request, name: string, flags: Flags, a: int, b: int)
    requires 0 <= a <= b && Requested(request, name, flags, a).Value?
    ensures Requested(request, name, flags, b) == Requested(request, name, flags, a)
  {
    if SourceFits(request.sources, name, a) { FitsMore(request.sources, name, a, b); }
    hide FormCodec.Matches, FormCodec.Split, SourceFits;
    assert a / 3 <= b / 3;
  }

  /** Resolution does not look at the limit of the message, only at its budget. */
  lemma ResolveUnlimited(m: Message, limit: int, c: Component, maxBytes: int)
    requires c.name != ""
    ensures Resolve(m.(maxSignatureBaseBytes := limit), c, maxBytes) == Resolve(m, c, maxBytes)
  {
    var n, flags := m.(maxSignatureBaseBytes := limit), FlagsOf(c.parameters);
    hide FlagsOf, Requested, Digits, EachLine, Prepared, Join, Find;
    if flags.Some? {
      assert Derived(n, c.name, flags.value, maxBytes) == Derived(m, c.name, flags.value, maxBytes);
      assert Field(n, c.name, flags.value, maxBytes) == Field(m, c.name, flags.value, maxBytes);
    }
    hide Derived, Field;
  }

  /** What is resolved under a budget is resolved to the same under a larger one. */
  lemma ResolveMore(m: Message, c: Component, a: int, b: int)
    requires 0 <= a <= b && c.name != "" && Resolve(m, c, a).Value?
    ensures Resolve(m, c, b) == Resolve(m, c, a)
  {
    var flags := FlagsOf(c.parameters);
    hide FlagsOf, Requested, Digits;
    if flags.Some? && c.name[0] == '@' {
      if m.requestOf(flags.value.req).Some? && Requested(m.requestOf(flags.value.req).value, c.name, flags.value, a).Value? {
        RequestedMore(m.requestOf(flags.value.req).value, c.name, flags.value, a, b);
      }
    } else if flags.Some? {
      FieldMore(m, c.name, flags.value, a, b);
    }
    hide Field;
  }

  // ----- two messages with one base -----------------------------------------------------------

  /** What `m` resolves a component to under a budget, `n` resolves it to under that budget and every larger one. */
  ghost predicate ResolvesFor(m: Message, n: Message, c: Component) {
    c.name != "" ==> forall a: int, b: int :: 0 <= a <= b && Resolve(m, c, a).Value? ==> Resolve(n, c, b) == Resolve(m, c, a)
  }

  ghost predicate Reads(m: Message, n: Message, cs: seq<Component>) {
    forall i :: 0 <= i < |cs| ==> ResolvesFor(m, n, cs[i])
  }

  function Raised(p: Progress, extra: int): Progress {
    p.(remaining := p.remaining + extra)
  }

  lemma CoverTransfers(m: Message, n: Message, c: Component, p: Progress, extra: int)
    requires ResolvesFor(m, n, c) && extra >= 0 && Cover(m, c, p).Ok?
    ensures Cover(n, c, Raised(p, extra)) == Ok(Raised(Cover(m, c, p).value, extra))
  {
    hide ItemSize, SerializeComponent, KeyText, Resolve, ValidDerivedValue;
    var spent := SaturatingAdd(Len(SerializeComponent(c).value), 3);
    NamedComponent(c);
    assert 0 <= p.remaining - spent && Resolve(m, c, p.remaining - spent).Value?;
    assert Resolve(n, c, p.remaining + extra - spent) == Resolve(m, c, p.remaining - spent);
  }

  lemma {:induction false} CoverAllTransfers(m: Message, n: Message, cs: seq<Component>, limit: int, extra: int)
    requires Reads(m, n, cs) && extra >= 0 && CoverAll(m, cs, limit).Ok?
    ensures CoverAll(n, cs, limit + extra) == Ok(Raised(CoverAll(m, cs, limit).value, extra))
  {
    hide Cover, ResolvesFor;
    if cs != [] {
      var last := |cs| - 1;
      CoverAllTransfers(m, n, cs[..last], limit, extra);
      CoverTransfers(m, n, cs[last], CoverAll(m, cs[..last], limit).value, extra);
    }
  }

  /**
    What one message gives as base, every message gives that resolves the covered
    components to the same values, under no smaller limit.
   */
  lemma BaseTransfers(m: Message, n: Message, input: SignatureInput)
    requires Base(m, input).Ok? && ValidContext(n) && Limit(m) <= Limit(n) && Reads(m, n, input.components)
    ensures Base(n, input) == Base(m, input)
  {
    hide Cover, CoverAll, LinesText, InputSize, SerializeParameters, Reads;
    CoverAllTransfers(m, n, input.components, Limit(m), Limit(n) - Limit(m));
  }

  lemma LimitReads(m: Message, larger: int, c: Component)
    ensures ResolvesFor(m, m.(maxSignatureBaseBytes := larger), c)
  {
    hide Resolve;
    if c.name != "" {
      forall a: int, b: int | 0 <= a <= b && Resolve(m, c, a).Value?
        ensures Resolve(m.(maxSignatureBaseBytes := larger), c, b) == Resolve(m, c, a)
      {
        ResolveMore(m, c, a, b);
        ResolveUnlimited(m, larger, c, b);
      }
    }
  }

  /** The limit only refuses: a base that is returned is the same under every larger limit. */
  lemma LargerLimit(m: Message, larger: int, input: SignatureInput)
    requires Base(m, input).Ok? && Limit(m) <= Limit(m.(maxSignatureBaseBytes := larger))
    ensures Base(m.(maxSignatureBaseBytes := larger), input) == Base(m, input)
  {
    var n := m.(maxSignatureBaseBytes := larger);
    assert ValidContext(m) && ValidContext(n);
    hide Base, ResolvesFor, ValidContext;
    forall i | 0 <= i < |input.components| ensures ResolvesFor(m, n, input.components[i]) {
      LimitReads(m, larger, input.components[i]);
    }
    BaseTransfers(m, n, input);
  }

  // ----- messages that agree, and messages received -------------------------------------------

  /** Two messages resolve a component alike, errors included, under every budget a base leaves. */
  ghost predicate AlikeFor(m: Message, n: Message, c: Component) {
    c.name != "" ==> forall maxBytes: int :: maxBytes >= 0 ==> Resolve(m, c, maxBytes) == Resolve(n, c, maxBytes)
  }

  ghost predicate Alike(m: Message, n: Message, cs: seq<Component>) {
    forall i :: 0 <= i < |cs| ==> AlikeFor(m, n, cs[i])
  }

  lemma CoverAlike(m: Message, n: Message, c: Component, p: Progress)
    requires AlikeFor(m, n, c)
    ensures Cover(m, c, p) == Cover(n, c, p)
  {
    hide ItemSize, SerializeComponent, KeyText, Resolve, ValidDerivedValue;
    if SerializeComponent(c).Some? {
      NamedComponent(c);
      var maxBytes := p.remaining - SaturatingAdd(Len(SerializeComponent(c).value), 3);
      assert maxBytes >= 0 ==> Resolve(m, c, maxBytes) == Resolve(n, c, maxBytes);
      hide AlikeFor;
    }
  }

  lemma {:induction false} CoverAllAlike(m: Message, n: Message, cs: seq<Component>, limit: int)
    requires Alike(m, n, cs)
    ensures CoverAll(m, cs, limit) == CoverAll(n, cs, limit)
  {
    hide Cover, AlikeFor;
    if cs != [] {
      var last := |cs| - 1;
      CoverAllAlike(m, n, cs[..last], limit);
      var p := CoverAll(m, cs[..last], limit);
      if p.Ok? { CoverAlike(m, n, cs[last], p.value); }
    }
  }

  /** Messages that resolve the covered components alike have one base, or fail alike. */
  lemma BaseAlike(m: Message, n: Message, input: SignatureInput)
    requires ValidContext(m) && ValidContext(n) && Limit(m) == Limit(n) && Alike(m, n, input.components)
    ensures Base(m, input) == Base(n, input)
  {
    CoverAllAlike(m, n, input.components, Limit(m));
    hide CoverAll, Alike, LinesText, InputSize, SerializeParameters;
  }

  lemma AlikeReads(m: Message, n: Message, c: Component)
    requires AlikeFor(m, n, c)
    ensures ResolvesFor(m, n, c)
  {
    hide Resolve;
    if c.name != "" {
      forall a: int, b: int | 0 <= a <= b && Resolve(m, c, a).Value? ensures Resolve(n, c, b) == Resolve(m, c, a) {
        ResolveMore(m, c, a, b);
      }
    }
  }

  lemma SameLinesAlike(m: Message, n: Message, c: Component)
    requires n == m.(fieldLines := n.fieldLines, maxSignatureBaseBytes := n.maxSignatureBaseBytes)
    requires forall flags :: m.fieldLines(c.name, flags) == n.fieldLines(c.name, flags)
    ensures AlikeFor(m, n, c)
  {
    hide FlagsOf, Requested, Digits, EachLine, Prepared, Join, Find;
    var flags := FlagsOf(c.parameters);
    if c.name != "" && flags.Some? {
      forall maxBytes: int ensures Resolve(m, c, maxBytes) == Resolve(n, c, maxBytes) {
        assert Derived(n, c.name, flags.value, maxBytes) == Derived(m, c.name, flags.value, maxBytes);
        assert Field(n, c.name, flags.value, maxBytes) == Field(m, c.name, flags.value, maxBytes);
      }
    }
    hide Derived, Field;
  }

  /** Fields that are not covered, such as the signature fields themselves, do not matter. */
  lemma UncoveredFields(m: Message, n: Message, cs: seq<Component>)
    requires n == m.(fieldLines := n.fieldLines, maxSignatureBaseBytes := n.maxSignatureBaseBytes)
    requires forall i, flags :: 0 <= i < |cs| ==> m.fieldLines(cs[i].name, flags) == n.fieldLines(cs[i].name, flags)
    ensures Alike(m, n, cs) && Reads(m, n, cs)
  {
    forall i | 0 <= i < |cs| ensures AlikeFor(m, n, cs[i]) && ResolvesFor(m, n, cs[i]) {
      SameLinesAlike(m, n, cs[i]);
      AlikeReads(m, n, cs[i]);
    }
    hide AlikeFor, ResolvesFor;
  }

  /** A request as it arrives: same method and parts, sources measured no larger. */
  predicate Arrives(sent: Request, received: Request) {
    && received.verb == sent.verb && received.parts == sent.parts && (received.sources.hasURL ==> sent.sources.hasURL)
    && SchemeSize(received.sources) <= SchemeSize(sent.sources)
    && AuthoritySize(received.sources) <= AuthoritySize(sent.sources)
    && TargetSize(received.sources) <= TargetSize(sent.sources)
  }

  /** A message as it arrives, as far as a component is concerned. */
  ghost predicate Received(m: Message, n: Message, c: Component) {
    && n.status == m.status && n.parse == m.parse && n.fieldTypes == m.fieldTypes && n.httpMajor == m.httpMajor
    && (forall flags :: n.fieldLines(c.name, flags) == m.fieldLines(c.name, flags))
    && (forall req :: m.requestOf(req).Some? ==>
          n.requestOf(req).Some? && Arrives(m.requestOf(req).value, n.requestOf(req).value))
  }

  lemma RequestArrives(sent: Request, received: Request, name: string, flags: Flags, a: int, b: int)
    requires Arrives(sent, received) && 0 <= a <= b && Requested(sent, name, flags, a).Value?
    ensures Requested(received, name, flags, b) == Requested(sent, name, flags, a)
  {
    assert SourceFits(sent.sources, name, a) ==> SourceFits(received.sources, name, a) by {
      hide SchemeSize, AuthoritySize, TargetSize;
    }
    hide SourceFits, SchemeSize, AuthoritySize, TargetSize, FormCodec.Lookup, PartText, ValidToken;
    assert Requested(received, name, flags, a) == Requested(sent, name, flags, a);
    RequestedMore(received, name, flags, a, b);
  }

  /** A message as it arrives resolves a component to what was sent. */
  lemma ReceivedReads(m: Message, n: Message, c: Component)
    requires Received(m, n, c)
    ensures ResolvesFor(m, n, c)
  {
    hide FlagsOf, Requested, Arrives, Digits, EachLine, Prepared, Join, Find, Marshal, MarshalMember, ValuesSize;
    var flags := FlagsOf(c.parameters);
    if c.name != "" && flags.Some? {
      forall a: int, b: int | 0 <= a <= b && Resolve(m, c, a).Value? ensures Resolve(n, c, b) == Resolve(m, c, a) {
        var req := flags.value.req;
        if c.name[0] != '@' {
          FieldMore(m, c.name, flags.value, a, b);
          assert Field(n, c.name, flags.value, b) == Field(m, c.name, flags.value, b);
        } else if m.requestOf(req).Some? && Requested(m.requestOf(req).value, c.name, flags.value, a).Value? {
          RequestArrives(m.requestOf(req).value, n.requestOf(req).value, c.name, flags.value, a, b);
        }
      }
    }
    hide Field, Derived;
  }

  lemma MessageReceived(m: Message, n: Message, cs: seq<Component>)
    requires forall i :: 0 <= i < |cs| ==> Received(m, n, cs[i])
    ensures Reads(m, n, cs)
  {
    hide Received, ResolvesFor;
    forall i | 0 <= i < |cs| ensures ResolvesFor(m, n, cs[i]) {
      ReceivedReads(m, n, cs[i]);
    }
  }

  /**
    The sizes of a client request and of what its server holds: the client bounds the
    target by the encodings it may choose, the server has the target itself.
   */
  lemma ServerSources(client: Sources, server: Sources, escapedPath: nat, query: nat)
    requires client.external == server.external == None && client.requestURI == 0 && client.opaqueText == 0
    requires escapedPath <= 3 * client.path + client.rawPath && query <= client.rawQuery + 1
    requires server.requestURI == escapedPath + query > 0
    requires server.host == (if client.host != 0 then client.host else client.urlHost) != 0
    requires server.scheme == 0 && client.scheme == if server.tls then 5 else 4
    ensures SchemeSize(server) == SchemeSize(client) && AuthoritySize(server) == AuthoritySize(client)
    ensures TargetSize(server) <= TargetSize(client)
  {
  }

  // ----- newline-free parts ---------------------------------------------------------------

  predicate Clean(s: string) {
    Free(s, '\n')
  }

  lemma {:induction false} DigitsClean(n: nat)
    ensures Clean(Digits(n))
  {
    if n >= 10 { DigitsClean(n / 10); }
  }

  lemma {:induction false} EscapedClean(s: string)
    requires forall i :: 0 <= i < |s| ==> Printable(s[i])
    ensures Clean(Escaped(s))
  {
    if s != "" { EscapedClean(s[1..]); }
  }

  lemma EncodedClean(octets: seq<byte>)
    ensures Clean(Base64.Encode(octets))
  {
    Base64.RawSize(octets);
    hide Base64.RawEncode;
  }

  lemma BareClean(v: BareItem)
    requires Serializable(v)
    ensures Clean(BareText(v))
  {
    hide Escaped, Digits, Fraction, Base64.Encode;
    match v
    case Text(chars) => EscapedClean(chars);
    case Integer(n) => DigitsClean(Abs(n));
    case Decimal(t) => DigitsClean(Abs(t) / 1000); FractionShape(Abs(t) % 1000);
    case Binary(octets) => EncodedClean(octets);
    case _ =>
  }

  lemma {:induction false} ParametersClean(ps: seq<Parameter>)
    requires ValidParameters(ps)
    ensures Clean(ParametersText(ps))
  {
    if ps != [] {
      BareClean(ps[0].value);
      ParametersClean(ps[1..]);
      hide BareText;
    }
  }

  lemma ItemClean(item: Item)
    requires ValidItem(item)
    ensures Clean(ItemText(item))
  {
    BareClean(item.value);
    ParametersClean(item.parameters);
    hide BareText, ParametersText;
  }

  lemma {:induction false} ItemsClean(items: seq<Item>)
    requires ValidItems(items)
    ensures Clean(ItemsText(items))
  {
    if items != [] {
      ItemClean(items[0]);
      hide ItemText;
      ItemsClean(items[1..]);
    }
  }

  lemma ListClean(items: seq<Item>, ps: seq<Parameter>)
    requires ValidItems(items) && ValidParameters(ps)
    ensures Clean(ListText(items, ps))
  {
    ItemsClean(items);
    ParametersClean(ps);
    hide ItemsText, ParametersText;
  }

  lemma MemberClean(m: Member)
    requires ValidMember(m)
    ensures Clean(MemberText(m))
  {
    match m
    case Single(item) => ItemClean(item);
    case InnerList(items, ps) => ListClean(items, ps);
  }

  lemma EntryClean(e: Entry)
    requires ValidEntry(e)
    ensures Clean(EntryText(e))
  {
    MemberClean(e.member);
    if e.member.Single? { ParametersClean(e.member.item.parameters); }
    hide MemberText, ParametersText;
  }

  lemma {:induction false} JoinClean(parts: seq<string>)
    requires forall i :: 0 <= i < |parts| ==> Clean(parts[i])
    ensures Clean(Join(parts, ", "))
  {
    if |parts| > 1 { JoinClean(parts[1..]); }
  }

  lemma LineClean(value: string, binary: bool)
    requires Line(value, binary).Some?
    ensures Clean(Line(value, binary).value)
  {
    if binary {
      EncodedClean(Octets(NormalizeBytes(value).value));
      hide Base64.Encode;
    }
  }

  lemma {:induction false} LinesClean(values: seq<string>, binary: bool)
    requires EachLine(values, binary).Some?
    ensures forall i :: 0 <= i < |EachLine(values, binary).value| ==> Clean(EachLine(values, binary).value[i])
  {
    if values != [] {
      var n := |values| - 1;
      LinesClean(values[..n], binary);
      LineClean(values[n], binary);
      hide Line;
    }
  }

  lemma MarshalClean(v: FieldValue)
    requires Marshal(v).Some?
    ensures Clean(Marshal(v).value)
  {
    match v {
      case DictionaryValue(entries) =>
        forall i | 0 <= i < |entries| ensures Clean(EntryTexts(entries)[i]) { EntryClean(entries[i]); }
        hide EntryText;
        JoinClean(EntryTexts(entries));
      case ListValue(members) =>
        forall i | 0 <= i < |members| ensures Clean(MemberTexts(members)[i]) { MemberClean(members[i]); }
        hide MemberText;
        JoinClean(MemberTexts(members));
      case ItemValue(item) => ItemClean(item);
    }
  }

  lemma FieldClean(m: Message, name: string, flags: Flags, maxBytes: int)
    requires Field(m, name, flags, maxBytes).Value?
    ensures Clean(Field(m, name, flags, maxBytes).text)
  {
    var values := m.fieldLines(name, flags).value;
    var lines := EachLine(values, flags.bs).value;
    LinesClean(values, flags.bs);
    JoinClean(lines);
    hide EachLine, Prepared, Find;
    if flags.key.Some? && !flags.bs {
      var entries := m.parse(Prepared(lines), DictionaryType).value.entries;
      var member := Find(entries, flags.key.value).value;
      MarshalMemberText(member);
      MemberClean(member);
      hide MarshalMember;
    } else if flags.sf && !flags.bs {
      MarshalClean(m.parse(Prepared(Whitespace.RewriteEach(lines)), m.fieldTypes[name]).value);
      hide Marshal;
    }
  }

  lemma {:induction false} PercentEncodedClean(s: seq<byte>)
    ensures Clean(FormCodec.PercentEncode(s))
  {
    if s != [] { PercentEncodedClean(s[1..]); }
  }

  lemma QueryClean(raw: string, name: string, maxBytes: int)
    requires FormCodec.Lookup(raw, name, maxBytes).Ok?
    ensures Clean(FormCodec.Lookup(raw, name, maxBytes).value)
  {
    var fields := FormCodec.Split(raw, '&');
    var i := FormCodec.MatchOrigin(fields, name, 0);
    PercentEncodedClean(FormCodec.Decoded(FormCodec.Cut(fields[i]).1));
    hide FormCodec.Split, FormCodec.Matches, FormCodec.Cut, FormCodec.Decoded, FormCodec.PercentEncode;
  }

  lemma CoverParts(m: Message, c: Component, p: Progress, p': Progress) returns (maxBytes: int)
    requires Cover(m, c, p) == Ok(p')
    ensures ValidComponent(c) && Resolve(m, c, maxBytes).Value?
    ensures CoveredLine(m, c, p, p') == BaseLine(ItemText(ItemOf(c)), Resolve(m, c, maxBytes).text)
    ensures c.name[0] == '@' && c.name != "@query-param" ==> ValidDerivedValue(Resolve(m, c, maxBytes).text)
  {
    hide ItemText, ItemSize, KeyText, Resolve, ValidComponent, ValidDerivedValue;
    maxBytes := p.remaining - SaturatingAdd(Len(SerializeComponent(c).value), 3);
  }

  lemma ValueClean(m: Message, c: Component, maxBytes: int)
    requires c.name != "" && Resolve(m, c, maxBytes).Value?
    requires c.name[0] == '@' && c.name != "@query-param" ==> ValidDerivedValue(Resolve(m, c, maxBytes).text)
    ensures Clean(Resolve(m, c, maxBytes).text)
  {
    var flags := FlagsOf(c.parameters).value;
    if c.name[0] != '@' {
      FieldClean(m, c.name, flags, maxBytes);
      hide Field;
    } else if c.name == "@query-param" {
      QueryClean(m.requestOf(flags.req).value.parts.value.rawQuery, flags.name.value, maxBytes);
      hide FormCodec.Lookup;
    }
  }

  /** A line of the base holds exactly one newline, at its end. */
  lemma CoveredLineClean(m: Message, c: Component, p: Progress, p': Progress)
    requires Cover(m, c, p) == Ok(p')
    ensures var line := CoveredLine(m, c, p, p');
      line.identifier == ItemText(ItemOf(c)) && ValidComponent(c) && Clean(line.identifier) && Clean(line.value)
  {
    var maxBytes := CoverParts(m, c, p, p');
    hide Cover, CoveredLine, Resolve, ItemText, ValidDerivedValue;
    ItemClean(ItemOf(c));
    ValueClean(m, c, maxBytes);
  }

  // ----- injectivity --------------------------------------------------------------------------

  ghost predicate CleanLines(lines: seq<BaseLine>) {
    forall i :: 0 <= i < |lines| ==> Clean(lines[i].identifier) && Clean(lines[i].value)
  }

  ghost predicate LinesFor(lines: seq<BaseLine>, cs: seq<Component>) {
    && |lines| == |cs|
    && forall i :: 0 <= i < |cs| ==> ValidComponent(cs[i]) && lines[i].identifier == ItemText(ItemOf(cs[i]))
  }

  lemma LinesForMore(lines: seq<BaseLine>, cs: seq<Component>, line: BaseLine, c: Component)
    requires CleanLines(lines) && LinesFor(lines, cs)
    requires Clean(line.identifier) && Clean(line.value) && ValidComponent(c) && line.identifier == ItemText(ItemOf(c))
    ensures CleanLines(lines + [line]) && LinesFor(lines + [line], cs + [c])
  {
    hide Clean, ItemText, ItemOf, ValidComponent;
  }

  /** Every covered component has one newline-free line with its serialized identifier, in order. */
  lemma {:induction false} CoverAllLines(m: Message, cs: seq<Component>, limit: int)
    requires CoverAll(m, cs, limit).Ok?
    ensures CleanLines(CoverAll(m, cs, limit).value.lines) && LinesFor(CoverAll(m, cs, limit).value.lines, cs)
  {
    hide Cover, CoveredLine, Clean, ItemText, ItemOf, ValidComponent;
    if cs != [] {
      hide CoverAll, CleanLines, LinesFor;
      var n := |cs| - 1;
      var p, p' := CoverAllStep(m, cs, limit);
      CoverAllLines(m, cs[..n], limit);
      CoveredLineClean(m, cs[n], p, p');
      LinesForMore(p.lines, cs[..n], CoveredLine(m, cs[n], p, p'), cs[n]);
      assert cs == cs[..n] + [cs[n]];
    }
  }

  predicate NotNewline(c: char) {
    c != '\n'
  }

  lemma {:induction false} LinesTextCons(lines: seq<BaseLine>)
    requires lines != []
    ensures LinesText(lines) == LineText(lines[0]) + LinesText(lines[1..])
  {
    hide LineText;
    var n := |lines| - 1;
    if n > 0 {
      LinesTextCons(lines[..n]);
      assert lines[..n][1..] == lines[1..][..n - 1];
      Associate(LineText(lines[0]), LinesText(lines[1..n]), LineText(lines[n]));
    } else {
      assert lines[..0] == [];
    }
  }

  function Framed(line: BaseLine): string {
    line.identifier + (": " + line.value)
  }

  lemma LineFramed(line: BaseLine, rest: string)
    ensures LineText(line) + rest == Framed(line) + ("\n" + rest)
  {
    assert LineText(line) == Framed(line) + "\n";
    Associate(Framed(line), "\n", rest);
  }

  ghost predicate SameFrames(xs: seq<BaseLine>, ys: seq<BaseLine>) {
    |xs| == |ys| && forall i :: 0 <= i < |xs| ==> Framed(xs[i]) == Framed(ys[i])
  }

  lemma SameFramesCons(xs: seq<BaseLine>, ys: seq<BaseLine>)
    requires xs != [] && ys != [] && Framed(xs[0]) == Framed(ys[0]) && SameFrames(xs[1..], ys[1..])
    ensures SameFrames(xs, ys)
  {
    hide Framed;
    assert xs == [xs[0]] + xs[1..] && ys == [ys[0]] + ys[1..];
  }

  /** How many characters precede the first newline, and whether there is one. */
  lemma FirstLine(xs: seq<BaseLine>, r: string)
    requires CleanLines(xs) && Clean(r)
    ensures xs == [] ==> LinesText(xs) + r == r && Run(NotNewline, LinesText(xs) + r) == |LinesText(xs) + r|
    ensures xs != [] ==>
      && LinesText(xs) + r == Framed(xs[0]) + ("\n" + (LinesText(xs[1..]) + r))
      && AllIn(NotNewline, Framed(xs[0]))
      && Run(NotNewline, LinesText(xs) + r) < |LinesText(xs) + r|
  {
    if xs == [] {
      assert LinesText(xs) + r == r && r + "" == r;
      RunLength(NotNewline, r, "");
    } else {
      LinesTextCons(xs);
      var rest := LinesText(xs[1..]) + r;
      Associate(LineText(xs[0]), LinesText(xs[1..]), r);
      LineFramed(xs[0], rest);
      RunLength(NotNewline, Framed(xs[0]), "\n" + rest);
    }
  }

  lemma FirstLinesUnique(xs: seq<BaseLine>, r: string, ys: seq<BaseLine>, t: string)
    requires xs != [] && ys != [] && CleanLines(xs) && CleanLines(ys) && Clean(r) && Clean(t)
    requires LinesText(xs) + r == LinesText(ys) + t
    ensures Framed(xs[0]) == Framed(ys[0]) && LinesText(xs[1..]) + r == LinesText(ys[1..]) + t
  {
    FirstLine(xs, r);
    FirstLine(ys, t);
    hide LinesText, Framed, CleanLines;
    var a, b := LinesText(xs[1..]) + r, LinesText(ys[1..]) + t;
    MaximalRunUnique(NotNewline, Framed(xs[0]), "\n" + a, Framed(ys[0]), "\n" + b);
    Cancel("\n", a, b);
  }

  lemma RunsDiffer(xs: seq<BaseLine>, r: string, ys: seq<BaseLine>, t: string)
    requires LinesText(xs) + r == LinesText(ys) + t && (xs == [] || ys == [])
    requires (xs == []) == (Run(NotNewline, LinesText(xs) + r) == |LinesText(xs) + r|)
    requires (ys == []) == (Run(NotNewline, LinesText(ys) + t) == |LinesText(ys) + t|)
    ensures xs == [] && ys == []
  {
  }

  /** Text whose lines are newline-free is uniquely split into its lines. */
  lemma {:induction false} LinesUnique(xs: seq<BaseLine>, r: string, ys: seq<BaseLine>, t: string)
    requires CleanLines(xs) && CleanLines(ys) && Clean(r) && Clean(t)
    requires LinesText(xs) + r == LinesText(ys) + t
    ensures SameFrames(xs, ys) && r == t
    decreases |xs|
  {
    if xs == [] || ys == [] {
      FirstLine(xs, r);
      FirstLine(ys, t);
      hide LinesText, CleanLines;
      RunsDiffer(xs, r, ys, t);
    } else {
      FirstLinesUnique(xs, r, ys, t);
      hide LinesText, Framed, SameFrames;
      LinesUnique(xs[1..], r, ys[1..], t);
      SameFramesCons(xs, ys);
    }
  }

  /** The lines of the base of a message and input. */
  function LinesOf(m: Message, input: SignatureInput): seq<BaseLine>
    requires Base(m, input).Ok?
  {
    CoverAll(m, input.components, Limit(m)).value.lines
  }

  /** What the covered components resolved to, in order. */
  function ValuesOf(m: Message, input: SignatureInput): seq<string>
    requires Base(m, input).Ok?
  {
    var lines := LinesOf(m, input);
    seq(|lines|, i requires 0 <= i < |lines| => lines[i].value)
  }

  lemma ValidInputParts(input: SignatureInput)
    requires ValidInput(input)
    ensures ValidItems(ItemsOf(input.components)) && ValidParameters(Merge(input.parameters))
  {
    hide ValidItem, Merge, ValidShapes;
  }

  lemma CleanConcat(a: string, b: string)
    requires Clean(a) && Clean(b)
    ensures Clean(a + b)
  {
  }

  lemma PrefixClean()
    ensures Clean(PARAMETER_PREFIX)
  {
  }

  lemma InputClean(input: SignatureInput)
    requires ValidInput(input)
    ensures Clean(PARAMETER_PREFIX + InputText(input))
  {
    ValidInputParts(input);
    hide ValidInput, ListText, Merge, ItemsOf, ValidItems, ValidParameters, Clean;
    ListClean(ItemsOf(input.components), Merge(input.parameters));
    PrefixClean();
    CleanConcat(PARAMETER_PREFIX, InputText(input));
  }

  lemma SameValues(xs: seq<BaseLine>, ys: seq<BaseLine>, cs: seq<Component>, ds: seq<Component>)
    requires LinesFor(xs, cs) && LinesFor(ys, ds) && ItemsOf(cs) == ItemsOf(ds) && SameFrames(xs, ys)
    ensures xs == ys
  {
    hide ItemText, ItemOf, ValidComponent;
    forall i | 0 <= i < |xs| ensures xs[i] == ys[i] {
      assert ItemsOf(cs)[i] == ItemOf(cs[i]) && ItemsOf(ds)[i] == ItemOf(ds[i]);
      assert xs[i].identifier == ys[i].identifier;
      Cancel(xs[i].identifier, ": " + xs[i].value, ": " + ys[i].value);
      Cancel(": ", xs[i].value, ys[i].value);
    }
  }

  /** A returned base is its lines, the prefix and the serialized parameters. */
  lemma BaseParts(m: Message, input: SignatureInput)
    requires Base(m, input).Ok?
    ensures ValidInput(input)
    ensures Base(m, input).value == LinesText(LinesOf(m, input)) + (PARAMETER_PREFIX + InputText(input))
  {
    hide CoverAll, LinesText, InputText, ValidInput, InputSize;
  }

  lemma SameBase(m: Message, x: SignatureInput, n: Message, y: SignatureInput)
    requires Base(m, x).Ok? && Base(n, y).Ok? && Base(m, x).value == Base(n, y).value
    requires LinesFor(LinesOf(m, x), x.components) && LinesFor(LinesOf(n, y), y.components)
    requires CleanLines(LinesOf(m, x)) && CleanLines(LinesOf(n, y))
    requires Clean(PARAMETER_PREFIX + InputText(x)) && Clean(PARAMETER_PREFIX + InputText(y))
    ensures ItemsOf(x.components) == ItemsOf(y.components) && Merge(x.parameters) == Merge(y.parameters)
    ensures ValuesOf(m, x) == ValuesOf(n, y)
  {
    var xs, ys := LinesOf(m, x), LinesOf(n, y);
    BaseParts(m, x);
    BaseParts(n, y);
    hide Base, LinesText, InputText, CoverAll, CleanLines, Clean, ValidInput, SameFrames, LinesFor, Merge, ItemsOf;
    LinesUnique(xs, PARAMETER_PREFIX + InputText(x), ys, PARAMETER_PREFIX + InputText(y));
    Cancel(PARAMETER_PREFIX, InputText(x), InputText(y));
    InputTextUnique(x, y);
    SameValues(xs, ys, x.components, y.components);
  }

  lemma SameLines(m: Message, x: SignatureInput, n: Message, y: SignatureInput)
    requires Base(m, x).Ok? && Base(n, y).Ok?
    requires LinesFor(LinesOf(m, x), x.components) && LinesFor(LinesOf(n, y), y.components)
    requires ItemsOf(x.components) == ItemsOf(y.components) && Merge(x.parameters) == Merge(y.parameters)
    requires ValuesOf(m, x) == ValuesOf(n, y)
    ensures Base(m, x).value == Base(n, y).value
  {
    var xs, ys := LinesOf(m, x), LinesOf(n, y);
    assert |ValuesOf(m, x)| == |xs| && |ValuesOf(n, y)| == |ys|;
    forall i | 0 <= i < |xs| ensures xs[i] == ys[i] {
      assert ValuesOf(m, x)[i] == xs[i].value && ValuesOf(n, y)[i] == ys[i].value;
      assert ItemsOf(x.components)[i] == ItemOf(x.components[i]) && ItemsOf(y.components)[i] == ItemOf(y.components[i]);
    }
    assert xs == ys;
  }

  /**
    The base is injective: two messages have the same signature base exactly when
    they cover the same items in the same order with the same parameters, carry the
    same signature parameters, and resolve every component to the same value.
   */
  lemma BaseInjective(m: Message, x: SignatureInput, n: Message, y: SignatureInput)
    requires Base(m, x).Ok? && Base(n, y).Ok?
    ensures Base(m, x).value == Base(n, y).value <==>
      && ItemsOf(x.components) == ItemsOf(y.components)
      && Merge(x.parameters) == Merge(y.parameters)
      && ValuesOf(m, x) == ValuesOf(n, y)
  {
    CoverAllLines(m, x.components, Limit(m));
    CoverAllLines(n, y.components, Limit(n));
    InputClean(x);
    InputClean(y);
    if Base(m, x).value == Base(n, y).value {
      SameBase(m, x, n, y);
    } else {
      hide LinesText, CoverAll, InputText, ItemText, CleanLines;
      if ItemsOf(x.components) == ItemsOf(y.components) && Merge(x.parameters) == Merge(y.parameters)
        && ValuesOf(m, x) == ValuesOf(n, y) {
        SameLines(m, x, n, y);
      }
    }
  }

  /**
    Where no parameter name is repeated, one base has one meaning: the covered
    components, the signature parameters and the resolved values are determined.
   */
  lemma BaseDetermines(m: Message, x: SignatureInput, n: Message, y: SignatureInput)
    requires Base(m, x).Ok? && Base(n, y).Ok? && Base(m, x).value == Base(n, y).value
    requires AllDistinct(x) && AllDistinct(y)
    ensures x.components == y.components && x.parameters == y.parameters && ValuesOf(m, x) == ValuesOf(n, y)
  {
    BaseInjective(m, x, n, y);
    hide Base, Merge, ValuesOf;
    MergeDistinct(x.parameters);
    MergeDistinct(y.parameters);
    forall i | 0 <= i < |x.components| ensures |y.components| == |x.components| && x.components[i] == y.components[i] {
      MergeDistinct(x.components[i].parameters);
      MergeDistinct(y.components[i].parameters);
      assert ItemsOf(x.components)[i] == ItemsOf(y.components)[i];
    }
    assert |ItemsOf(x.components)| == |ItemsOf(y.components)|;
  }

  // ----- no component is covered twice ----------------------------------------------------

  lemma {:induction false} CoverKeys(m: Message, cs: seq<Component>, limit: int)
    requires CoverAll(m, cs, limit).Ok?
    ensures forall i :: 0 <= i < |cs| ==> KeyText(cs[i]) in CoverAll(m, cs, limit).value.seen
    ensures forall i, j :: 0 <= i < j < |cs| ==> KeyText(cs[i]) != KeyText(cs[j])
  {
    hide KeyText, Resolve, SerializeComponent, ItemSize;
    if cs != [] { CoverKeys(m, cs[..|cs| - 1], limit); }
  }

  lemma SerializesValid(c: Component)
    ensures SerializeComponent(c).Some? <==> ValidComponent(c)
  {
  }

  lemma KeyTextIs(c: Component)
    ensures KeyOf(c.name, Sorted(c.parameters)).Some? ==> KeyOf(c.name, Sorted(c.parameters)) == Some(KeyText(c))
  {
    hide SerializeComponent, Sorted;
  }

  lemma KeyTextCanonical(c: Component, d: Component)
    requires ValidComponent(c) && ValidComponent(d) && Distinct(c.parameters) && Distinct(d.parameters)
    ensures KeyText(c) == KeyText(d) <==> c.name == d.name && multiset(c.parameters) == multiset(d.parameters)
  {
    SerializesValid(c);
    SerializesValid(d);
    SortedSorts(c.parameters);
    SortedSorts(d.parameters);
    hide SortOf, ValidComponent, SerializeComponent, Sorted, Distinct, KeyOf, KeyText;
    KeyCanonical(c, d, Sorted(c.parameters), Sorted(d.parameters));
    KeyCanonical(d, c, Sorted(d.parameters), Sorted(c.parameters));
    KeyTextIs(c);
    KeyTextIs(d);
  }

  /** Two covered identifiers never differ by at most the order of their parameters. */
  lemma CoveredOnce(m: Message, input: SignatureInput, i: nat, j: nat)
    requires Base(m, input).Ok? && i < j < |input.components|
    ensures var c, d := input.components[i], input.components[j];
      Distinct(c.parameters) && Distinct(d.parameters)
      ==> c.name != d.name || multiset(c.parameters) != multiset(d.parameters)
  {
    var cs := input.components;
    CoverKeys(m, cs, Limit(m));
    CoverAllLines(m, cs, Limit(m));
    hide Base, CoverAll, KeyText, ValidComponent;
    if Distinct(cs[i].parameters) && Distinct(cs[j].parameters) {
      KeyTextCanonical(cs[i], cs[j]);
    }
  }
}
