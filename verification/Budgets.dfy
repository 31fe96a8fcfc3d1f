/**
  Which resolved values respect the byte budget they are resolved under
  (message.go:163-166): the promise made there, and exactly where it fails.
 */
module Budgets {
  import opened Basics
  import opened StructuredFields
  import opened Identifiers
  import opened SizeLimits
  import opened Whitespace
  import opened ComponentValues
  import Base64
  import BinaryNormalizer
  import FormCodec

  // ----- lines are not longer than what was measured -------------------------------------

  lemma {:induction false} TrailingShorter(s: string)
    ensures |DropTrailingBlanks(s)| <= |s|
  {
    if s != "" && Blank(s[|s| - 1]) { TrailingShorter(s[..|s| - 1]); }
  }

  lemma {:induction false} UnfoldedShorter(s: string)
    ensures |Unfolded(s)| <= |s|
    decreases |s|
  {
    hide Blank;
    if s != "" {
      UnfoldedShorter(s[1..]);
      if |s| >= 3 { UnfoldedShorter(DropBlanks(s[3..])); }
    }
  }

  lemma LineShorter(value: string, binary: bool)
    requires Line(value, binary).Some?
    ensures |Line(value, binary).value| <= ValueSize(value, binary)
  {
    hide Base64.Encode, Unfolded, DropTrailingBlanks, DropBlanks;
    var t := DropTrailingBlanks(DropBlanks(value));
    TrailingShorter(DropBlanks(value));
    UnfoldedShorter(t);
    Base64.EncodedSize(Octets(Unfolded(t)));
  }

  lemma {:induction false} JoinLast(parts: seq<string>, part: string, separator: string)
    ensures |Join(parts + [part], separator)| == |Join(parts, separator)| + |part| + if parts == [] then 0 else |separator|
  {
    if |parts| > 0 {
      assert (parts + [part])[1..] == parts[1..] + [part];
      JoinLast(parts[1..], part, separator);
    } else {
      assert parts + [part] == [part];
    }
  }

  lemma JoinNothing()
    ensures Join([], ", ") == ""
  {
  }

  lemma {:induction false} LinesFit(values: seq<string>, binary: bool)
    requires EachLine(values, binary).Some?
    ensures |EachLine(values, binary).value| == |values|
    ensures |Join(EachLine(values, binary).value, ", ")| <= ValuesSize(values, binary)
  {
    hide Line, Join;
    if values == [] {
      JoinNothing();
    } else {
      var n := |values| - 1;
      LinesFit(values[..n], binary);
      LineShorter(values[n], binary);
      JoinLast(EachLine(values[..n], binary).value, Line(values[n], binary).value, ", ");
    }
  }

  // ----- lines that normalization and preparation leave alone ------------------------------

  lemma {:induction false} UnfoldedPlain(s: string)
    requires Free(s, '\r')
    ensures Unfolded(s) == s
  {
    if s != "" { UnfoldedPlain(s[1..]); }
  }

  /** A line that normalization and preparation leave as it is. */
  predicate Plain(s: string) {
    && s != "" && !Blank(s[0]) && !Blank(s[|s| - 1]) && Ascii(s)
    && Free(s, '\r') && Free(s, '\n') && Free(s, '\t') && Free(s, ':')
  }

  lemma PlainLine(s: string)
    requires Plain(s)
    ensures Line(s, false) == Some(s)
  {
    UnfoldedPlain(s);
    hide Unfolded;
  }

  lemma PlainPrepared(s: string)
    requires Plain(s)
    ensures Prepared([s]) == [s] && Prepared(RewriteEach([s])) == [s]
  {
    assert Rewritten(s) == s;
    BinaryNormalizer.ColonFree(s, BinaryNormalizer.Plain(true));
    hide Rewritten, BinaryNormalizer.Normalized, Plain;
    assert RewriteEach([s]) == [s] && CombineLines([s]) == [s];
  }

  lemma OneLine(s: string)
    requires Line(s, false) == Some(s)
    ensures EachLine([s], false) == Some([s]) && ValuesSize([s], false) == |s|
  {
    hide Line;
    assert [s][..0] == [] && EachLine([s][..0], false) == Some([]) && [] + [s] == [s];
  }

  lemma PlainField(s: string)
    requires Plain(s)
    ensures EachLine([s], false) == Some([s]) && ValuesSize([s], false) == |s|
    ensures Prepared([s]) == [s] && Prepared(RewriteEach([s])) == [s]
  {
    hide Plain, Line, EachLine, ValuesSize, Prepared, RewriteEach;
    PlainLine(s);
    OneLine(s);
    PlainPrepared(s);
  }

  // ----- where the promise holds ------------------------------------------------------

  /** The status, and fields read through the structured field serializer. */
  predicate CanExceed(c: Component)
    requires c.name != ""
  {
    && c.name != "@signature-params" && FlagsOf(c.parameters).Some?
    && var flags := FlagsOf(c.parameters).value;
       if c.name[0] == '@' then c.name == "@status" && flags == NO_FLAGS
       else flags.name.None? && (flags.sf || flags.key.Some?)
  }

  /** A derived component read from the parts of a request. */
  predicate PartComponent(c: Component) {
    && PartName(c.name) && FlagsOf(c.parameters).Some?
    && var flags := FlagsOf(c.parameters).value; flags == NO_FLAGS.(req := flags.req)
  }

  /** The parts of a request are no longer than what was measured for them. */
  ghost predicate Frugal(m: Message) {
    forall req, name :: PartName(name) && m.requestOf(req).Some? && m.requestOf(req).value.parts.Some? ==>
      var request := m.requestOf(req).value;
      request.sources.hasURL && |PartText(request.parts.value, name)| <= Measured(request.sources, name)
  }

  lemma RequestedFits(request: Request, name: string, flags: Flags, maxBytes: int)
    requires maxBytes >= 0 && Requested(request, name, flags, maxBytes).Value?
    requires PartName(name) ==>
      request.sources.hasURL && |PartText(request.parts.value, name)| <= Measured(request.sources, name)
    ensures |Requested(request, name, flags, maxBytes).text| <= maxBytes
  {
    hide FormCodec.Matches, FormCodec.Split, PartText, Measured, TargetSize, ValidToken;
  }

  lemma DerivedFits(m: Message, name: string, flags: Flags, maxBytes: int)
    requires maxBytes >= 0 && Derived(m, name, flags, maxBytes).Value?
    requires name != "@status" || flags != NO_FLAGS
    requires PartName(name) ==> Frugal(m)
    ensures |Derived(m, name, flags, maxBytes).text| <= maxBytes
  {
    hide PartText, Measured, FormCodec.Lookup, SourceFits;
    if name != "@status" {
      RequestedFits(m.requestOf(flags.req).value, name, flags, maxBytes);
    }
  }

  lemma FieldFits(m: Message, name: string, flags: Flags, maxBytes: int)
    requires Field(m, name, flags, maxBytes).Value? && !flags.sf && flags.key.None?
    ensures |Field(m, name, flags, maxBytes).text| <= maxBytes
  {
    hide MarshalMember, Marshal, EachLine, Join, Prepared, ValuesSize, Find;
    LinesFit(m.fieldLines(name, flags).value, flags.bs);
  }

  /** Every other component keeps to its budget, the parts of a request if they are no longer than their sources. */
  lemma ResolvedFits(m: Message, c: Component, maxBytes: int)
    requires c.name != "" && !CanExceed(c) && (PartComponent(c) ==> Frugal(m))
    requires maxBytes >= 0 && Resolve(m, c, maxBytes).Value?
    ensures |Resolve(m, c, maxBytes).text| <= maxBytes
  {
    var flags := FlagsOf(c.parameters).value;
    if c.name[0] == '@' {
      DerivedFits(m, c.name, flags, maxBytes);
    } else if flags.name.None? {
      FieldFits(m, c.name, flags, maxBytes);
    }
    hide FlagsOf, Requested, Frugal, Field;
  }

  // ----- where it fails ------------------------------------------------------------------

  /** A message with one field line `a`, status 200, and a parser that always answers `parsed`. */
  function Sample(name: string, parsed: FieldValue): Message {
    Message(false, true, 0, _ => None, Some(200), (_, _) => Some(["a"]), _ => 1, (_, _) => Some(parsed), map[name := ItemType], 0)
  }

  const TRUTH := Item(Boolean(true), [])

  lemma TruthText()
    ensures ValidMember(Single(TRUTH)) && MemberText(Single(TRUTH)) == "?1" && Marshal(ItemValue(TRUTH)) == Some("?1")
  {
    assert "?1" + "" == "?1";
  }

  /** The line `a` resolves to `?1` through either path, under a budget of 1. */
  lemma FieldExceeds(name: string, flags: Flags, parsed: FieldValue)
    requires flags.name.None? && !flags.bs && (flags.sf || flags.key.Some?)
    requires parsed == if flags.key.Some? then DictionaryValue([Entry(flags.key.value, Single(TRUTH))]) else ItemValue(TRUTH)
    ensures Field(Sample(name, parsed), name, flags, 1) == Value("?1")
  {
    PlainField("a");
    MarshalMemberText(Single(TRUTH));
    TruthText();
    hide Prepared, MarshalMember, Marshal, MemberText, EachLine, ValuesSize, RewriteEach, NormalizeBytes, FlagsOf;
  }

  lemma FlagsConflict(ps: seq<Parameter>)
    requires FlagsOf(ps).Some?
    ensures var flags := FlagsOf(ps).value; flags.bs ==> !flags.sf && flags.key.None?
  {
    hide AllFlags;
  }

  lemma StatusDigits(n: nat)
    requires 100 <= n <= 999
    ensures |Digits(n)| == 3
  {
    assert |Digits(n / 10 / 10)| == 1;
    assert |Digits(n / 10)| == 2;
  }

  lemma Exceeds(c: Component) returns (m: Message, maxBytes: int)
    requires c.name != "" && CanExceed(c)
    ensures Frugal(m) && maxBytes >= 0 && Resolve(m, c, maxBytes).Value? && |Resolve(m, c, maxBytes).text| > maxBytes
  {
    var flags := FlagsOf(c.parameters).value;
    var parsed := if flags.key.Some? then DictionaryValue([Entry(flags.key.value, Single(TRUTH))]) else ItemValue(TRUTH);
    m := Sample(c.name, parsed);
    if c.name[0] == '@' {
      maxBytes := 2;
      StatusDigits(200);
      hide Digits, FlagsOf;
    } else {
      maxBytes := 1;
      FlagsConflict(c.parameters);
      FieldExceeds(c.name, flags, parsed);
      hide Field, FlagsOf;
    }
  }

  /**
    For one request: a part respects every budget exactly when it is no longer than
    what was measured for it.
   */
  lemma PartExact(m: Message, c: Component, request: Request)
    requires PartComponent(c) && m.requestOf(FlagsOf(c.parameters).value.req) == Some(request)
    requires request.sources.hasURL && request.parts.Some?
    ensures (forall maxBytes: int :: maxBytes >= 0 && Resolve(m, c, maxBytes).Value? ==> |Resolve(m, c, maxBytes).text| <= maxBytes)
      <==> |PartText(request.parts.value, c.name)| <= Measured(request.sources, c.name)
  {
    hide FlagsOf, PartText, Measured, FormCodec.Lookup;
    var text, measured := PartText(request.parts.value, c.name), Measured(request.sources, c.name);
    assert Resolve(m, c, measured) == Value(text);
    forall maxBytes: int | maxBytes >= 0 && Resolve(m, c, maxBytes).Value?
      ensures Resolve(m, c, maxBytes).text == text && measured <= maxBytes
    {
    }
  }

  lemma PartExceeds(c: Component) returns (m: Message, maxBytes: int)
    requires PartComponent(c)
    ensures maxBytes >= 0 && Resolve(m, c, maxBytes).Value? && |Resolve(m, c, maxBytes).text| > maxBytes
  {
    var long := "0123456789";
    var request := Request("GET", Sources(true, false, 4, 4, 0, 4, 0, 0, 0, 0, None), Some(Parts(long, long, long, long, long, long)));
    m := Sample(c.name, ItemValue(TRUTH)).(requestOf := _ => Some(request));
    PartExact(m, c, request);
    hide Resolve;
    maxBytes :| maxBytes >= 0 && Resolve(m, c, maxBytes).Value? && |Resolve(m, c, maxBytes).text| > maxBytes;
  }

  /** A component resolves within every budget, in every message. */
  ghost predicate Respects(c: Component)
    requires c.name != ""
  {
    forall m, maxBytes: int :: maxBytes >= 0 && Resolve(m, c, maxBytes).Value? ==> |Resolve(m, c, maxBytes).text| <= maxBytes
  }

  /** The same, in every message whose request parts are no longer than their sources. */
  ghost predicate RespectsSources(c: Component)
    requires c.name != ""
  {
    forall m, maxBytes: int :: Frugal(m) && maxBytes >= 0 && Resolve(m, c, maxBytes).Value? ==>
      |Resolve(m, c, maxBytes).text| <= maxBytes
  }

  /**
    The budget is respected in every message exactly by the components that are
    neither the status, nor a field read through `sf` or `key`, nor a part of a
    request; and by the parts of a request too where those are no longer than
    their sources.
   */
  lemma BudgetExact(c: Component)
    requires c.name != ""
    ensures Respects(c) <==> !CanExceed(c) && !PartComponent(c)
    ensures RespectsSources(c) <==> !CanExceed(c)
  {
    hide Frugal, Resolve, CanExceed, PartComponent;
    if CanExceed(c) {
      var m, maxBytes := Exceeds(c);
    } else {
      forall m, maxBytes: int | maxBytes >= 0 && Resolve(m, c, maxBytes).Value? && (PartComponent(c) ==> Frugal(m))
        ensures |Resolve(m, c, maxBytes).text| <= maxBytes
      {
        ResolvedFits(m, c, maxBytes);
      }
      if PartComponent(c) {
        var m, maxBytes := PartExceeds(c);
      }
    }
  }

  // ----- one field of each kind, with what a parser makes of it ---------------------------------

  lemma OneFlag(p: Parameter)
    ensures FlagsOf([p]) == match AddFlag(NO_FLAGS, p)
                            case None => None
                            case Some(flags) => if flags.bs && (flags.sf || flags.key.Some?) then None else Some(flags)
  {
    assert [p][..0] == [];
    assert AllFlags([p]) == AddFlag(NO_FLAGS, p);
    hide AddFlag;
  }

  /** The bare member `a` is covered by key as `?1`. */
  lemma MemberCanExceedBudget(m: Message, c: Component)
    requires c == Component("x", [Parameter("key", Text("a"))]) && m.httpMajor(false) == 1
    requires m.fieldLines("x", NO_FLAGS.(key := Some("a"))) == Some(["a"])
    requires m.parse(["a"], DictionaryType) == Some(DictionaryValue([Entry("a", Single(TRUTH))]))
    ensures Resolve(m, c, 1) == Value("?1")
  {
    OneFlag(c.parameters[0]);
    assert "key"[0] != "req"[0];
    PlainField("a");
    MarshalMemberText(Single(TRUTH));
    TruthText();
    hide Prepared, MarshalMember, MemberText, FlagsOf, EachLine, ValuesSize, RewriteEach, NormalizeBytes;
  }

  lemma TwoTokens()
    ensures Marshal(ListValue([Single(Item(Token("a"), [])), Single(Item(Token("b"), []))])) == Some("a, b")
  {
    var members := [Single(Item(Token("a"), [])), Single(Item(Token("b"), []))];
    assert "a" + "" == "a" && MemberText(members[0]) == "a" && "b" + "" == "b" && MemberText(members[1]) == "b";
    assert MemberTexts(members) == ["a", "b"] && ["a", "b"][1..] == ["b"];
    assert Join(["a", "b"], ", ") == "a, b";
    hide Join;
  }

  /** The list `a,b` is covered by sf as `a, b`. */
  lemma ListCanExceedBudget(m: Message, c: Component)
    requires c == Component("x", [Parameter("sf", Boolean(true))]) && m.httpMajor(false) == 1
    requires m.fieldLines("x", NO_FLAGS.(sf := true)) == Some(["a,b"]) && "x" in m.fieldTypes && m.fieldTypes["x"] == ListType
    requires m.parse(["a,b"], ListType) == Some(ListValue([Single(Item(Token("a"), [])), Single(Item(Token("b"), []))]))
    ensures Resolve(m, c, 3) == Value("a, b")
  {
    OneFlag(c.parameters[0]);
    PlainField("a,b");
    TwoTokens();
    hide Prepared, Marshal, FlagsOf, EachLine, ValuesSize, RewriteEach, NormalizeBytes;
  }

  /** The status has three digits under any budget. */
  lemma StatusCanExceedBudget(m: Message, c: Component, maxBytes: int)
    requires c == Component("@status", []) && m.status.Some? && 100 <= m.status.value <= 599
    ensures Resolve(m, c, maxBytes) == Value(Digits(m.status.value)) && |Digits(m.status.value)| == 3
  {
    assert AllFlags([]) == Some(NO_FLAGS);
    StatusDigits(m.status.value);
    hide FlagsOf, Digits;
  }

  /** The path of the request target `/a"b`, four bytes, is escaped to six. */
  lemma PathCanExceedBudget(m: Message, c: Component, request: Request)
    requires c == Component("@path", []) && m.requestOf(false) == Some(request)
    requires request.sources == Sources(true, false, 0, 1, 0, 4, 4, 0, 0, 0, None)
    requires request.parts.Some? && request.parts.value.path == "/a%22b"
    ensures Resolve(m, c, 4) == Value("/a%22b")
  {
    assert AllFlags([]) == Some(NO_FLAGS);
    assert c.name[1] == 'p' && "@path"[1..] != "@query"[1..];
    hide FlagsOf, FormCodec.Lookup;
  }
}
