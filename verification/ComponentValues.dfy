/**
  Resolution of one covered component (message.go:190-416, 1152-1280).

  What net/http and net/url supply is given as a `Message`: resolved derived
  values, raw field lines and the structured field parser.
 */
module ComponentValues {
  import opened Basics
  import opened StructuredFields
  import opened Identifiers
  import opened SizeLimits
  import opened Whitespace
  import Base64
  import BinaryNormalizer
  import FormCodec

  datatype Resolution = Value(text: string) | TooLarge | Failure

  datatype FieldType = DictionaryType | ListType | ItemType

  datatype FieldValue =
    | DictionaryValue(entries: seq<Entry>)
    | ListValue(members: seq<Member>)
    | ItemValue(item: Item)

  /** componentParameters */
  datatype Flags = Flags(bs: bool, sf: bool, tr: bool, req: bool, key: Option<string>, name: Option<string>)

  const NO_FLAGS := Flags(false, false, false, false, None, None)

  /** normalizedRequestParts */
  datatype Parts = Parts(
    scheme: string, authority: string, requestTarget: string, originTarget: string, path: string, rawQuery: string)

  /** A request: its method, the sizes of its sources, and what requestParts makes of them. */
  datatype Request = Request(verb: string, sources: Sources, parts: Option<Parts>)

  /**
    `requestOf` is the request that a component reads, by req flag, if there is one.
    `fieldLines` gives the lines of a field that pass the transport and cookie
    rules (message.go:333-362), `parse` the structured field parser.
   */
  datatype Message = Message(
    request: bool,
    response: bool,
    transport: nat,
    requestOf: bool -> Option<Request>,
    status: Option<int>,
    fieldLines: (string, Flags) -> Option<seq<string>>,
    httpMajor: bool -> int,
    parse: (seq<string>, FieldType) -> Option<FieldValue>,
    fieldTypes: map<string, FieldType>,
    maxSignatureBaseBytes: int)

  // ----- component parameters -----------------------------------------------------

  /** One iteration of the loop of componentParameterSet. */
  function AddFlag(flags: Flags, p: Parameter): Option<Flags> {
    if p.name == "bs" then (if p.value == Boolean(true) then Some(flags.(bs := true)) else None)
    else if p.name == "sf" then (if p.value == Boolean(true) then Some(flags.(sf := true)) else None)
    else if p.name == "tr" then (if p.value == Boolean(true) then Some(flags.(tr := true)) else None)
    else if p.name == "req" then (if p.value == Boolean(true) then Some(flags.(req := true)) else None)
    else if p.name == "key" then (if p.value.Text? then Some(flags.(key := Some(p.value.chars))) else None)
    else if p.name == "name" then (if p.value.Text? then Some(flags.(name := Some(p.value.chars))) else None)
    else None
  }

  function AllFlags(ps: seq<Parameter>): Option<Flags> {
    if ps == [] then Some(NO_FLAGS)
    else match AllFlags(ps[..|ps| - 1])
      case None => None
      case Some(flags) => AddFlag(flags, ps[|ps| - 1])
  }

  /** componentParameterSet */
  function FlagsOf(ps: seq<Parameter>): Option<Flags> {
    match AllFlags(ps)
    case None => None
    case Some(flags) => if flags.bs && (flags.sf || flags.key.Some?) then None else Some(flags)
  }

  // ----- field values -------------------------------------------------------------

  function DropTrailingBlanks(s: string): string {
    if s != "" && Blank(s[|s| - 1]) then DropTrailingBlanks(s[..|s| - 1]) else s
  }

  /** obsoleteLineFolding.ReplaceAllString(value, " ") */
  function Unfolded(s: string): string
    decreases |s|
  {
    if s == "" then ""
    else if |s| >= 3 && s[0] == '\r' && s[1] == '\n' && Blank(s[2]) then " " + Unfolded(DropBlanks(s[3..]))
    else [s[0]] + Unfolded(s[1..])
  }

  /** normalizeFieldBytes */
  function NormalizeBytes(value: string): Option<string> {
    var text := Unfolded(DropTrailingBlanks(DropBlanks(value)));
    if Free(text, '\r') && Free(text, '\n') then Some(text) else None
  }

  /** normalizeFieldValue */
  function NormalizeValue(value: string): Option<string> {
    match NormalizeBytes(value)
    case None => None
    case Some(text) => if Ascii(text) then Some(text) else None
  }

  /** One line of a field as a byte sequence. */
  function Wrap(value: string): Option<string> {
    match NormalizeBytes(value)
    case None => None
    case Some(text) => Some(":" + (Base64.Encode(Octets(text)) + ":"))
  }

  function Line(value: string, binary: bool): Option<string> {
    if binary then Wrap(value) else NormalizeValue(value)
  }

  function EachLine(values: seq<string>, binary: bool): Option<seq<string>> {
    if values == [] then Some([])
    else match EachLine(values[..|values| - 1], binary)
      case None => None
      case Some(lines) =>
        match Line(values[|values| - 1], binary)
        case None => None
        case Some(line) => Some(lines + [line])
  }

  /** What unmarshalStructuredField hands to the parser (structured_field_safe.go:41-42). */
  function Prepared(lines: seq<string>): seq<string> {
    var rewritten := RewriteEach(CombineLines(lines));
    seq(|rewritten|, i requires 0 <= i < |rewritten| =>
      BinaryNormalizer.Normalized(rewritten[i], BinaryNormalizer.Plain(true)))
  }

  /** normalizeStructuredFieldOWS before unmarshalStructuredField changes nothing. */
  lemma PreparedTwice(lines: seq<string>)
    ensures Prepared(RewriteEach(lines)) == Prepared(lines)
  {
    RewriteThenCombine(lines);
  }

  /** marshalRFC8941 on a parsed field. */
  function Marshal(v: FieldValue): Option<string> {
    match v
    case DictionaryValue(entries) =>
      if ValidEntries(entries) then Some(Join(EntryTexts(entries), ", ")) else None
    case ListValue(members) =>
      if ValidMembers(members) then Some(Join(MemberTexts(members), ", ")) else None
    case ItemValue(item) =>
      if ValidItem(item) then Some(ItemText(item)) else None
  }

  /** marshalMember: the member is serialized in a dictionary of one and cut out again. */
  function MarshalMember(m: Member): Option<string> {
    if !ValidMember(m) then None
    else
      var serialized := EntryText(Entry("x", m));
      if "x=" <= serialized then Some(serialized[2..]) else Some("?1" + serialized[1..])
  }

  lemma SemicolonFirst(ps: seq<Parameter>)
    ensures ParametersText(ps) == "" || ParametersText(ps)[0] == ';'
  {
    hide BareText;
  }

  lemma CutBare(t: string)
    requires t == "" || t[0] == ';'
    ensures !("x=" <= "x" + t) && ("x" + t)[1..] == t
  {
    assert |"x" + t| > 1 ==> ("x" + t)[1] == t[0];
  }

  lemma CutAssigned(t: string)
    ensures "x=" <= "x" + ("=" + t) && ("x" + ("=" + t))[2..] == t
  {
  }

  /** Cutting the member out of the dictionary gives its own canonical text. */
  lemma MarshalMemberText(m: Member)
    requires ValidMember(m)
    ensures MarshalMember(m) == Some(MemberText(m))
  {
    if m.Single? && m.item.value == Boolean(true) {
      SemicolonFirst(m.item.parameters);
      CutBare(ParametersText(m.item.parameters));
      hide ParametersText, ValidMember;
    } else {
      hide MemberText, ValidMember;
      CutAssigned(MemberText(m));
    }
  }

  /** dictionary.Get */
  function Find(entries: seq<Entry>, key: string): Option<Member> {
    if entries == [] then None else if entries[0].key == key then Some(entries[0].member) else Find(entries[1..], key)
  }

  function Marshaled(text: Option<string>): Resolution {
    match text case None => Failure case Some(t) => Value(t)
  }

  /** resolveField from line 363 on. */
  function Field(m: Message, name: string, flags: Flags, maxBytes: int): Resolution {
    if flags.name.Some? then Failure
    else match m.fieldLines(name, flags)
      case None => Failure
      case Some(values) =>
        if values == [] then Failure
        else if ValuesSize(values, flags.bs) > maxBytes then TooLarge
        else if m.httpMajor(flags.req) != 1 && exists i :: 0 <= i < |values| && !(Free(values[i], '\r') && Free(values[i], '\n'))
        then Failure
        else match EachLine(values, flags.bs)
          case None => Failure
          case Some(lines) =>
            if flags.bs then Value(Join(lines, ", "))
            else if flags.key.Some? then
              match m.parse(Prepared(lines), DictionaryType)
              case Some(DictionaryValue(entries)) =>
                (match Find(entries, flags.key.value)
                 case None => Failure
                 case Some(member) => Marshaled(MarshalMember(member)))
              case _ => Failure
            else if flags.sf then
              if name !in m.fieldTypes then Failure
              else match m.parse(Prepared(RewriteEach(lines)), m.fieldTypes[name])
                case None => Failure
                case Some(v) => Marshaled(Marshal(v))
            else Value(Join(lines, ", "))
  }

  // ----- derived components -----------------------------------------------------------

  /** validHTTPToken */
  predicate ValidToken(value: string) {
    value != "" && forall i :: 0 <= i < |value| ==> FieldNameCharacter(value[i]) || 'A' <= value[i] <= 'Z'
  }

  /** The derived components read from the parts of a request. */
  predicate PartName(name: string) {
    || name == "@target-uri" || name == "@authority" || name == "@scheme"
    || name == "@request-target" || name == "@path" || name == "@query"
  }

  function PartText(parts: Parts, name: string): string
    requires PartName(name)
  {
    if name == "@target-uri" then parts.scheme + "://" + parts.authority + parts.originTarget
    else if name == "@authority" then parts.authority
    else if name == "@scheme" then parts.scheme
    else if name == "@request-target" then parts.requestTarget
    else if name == "@path" then parts.path
    else "?" + parts.rawQuery
  }

  /** The part of resolveDerived that reads a request. */
  function Requested(request: Request, name: string, flags: Flags, maxBytes: int): Resolution {
    if name == "@method" then
      var verb := request.verb;
      if |verb| > maxBytes then TooLarge else if ValidToken(verb) then Value(verb) else Failure
    else if !PartName(name) && name != "@query-param" then Failure
    else if !SourceFits(request.sources, name, maxBytes) then TooLarge
    else if request.parts.None? then Failure
    else if PartName(name) then Value(PartText(request.parts.value, name))
    else if flags.name.None? then Failure
    else
      match FormCodec.Lookup(request.parts.value.rawQuery, flags.name.value, maxBytes)
      case Ok(text) => Value(text)
      case Err(Absent) => Failure
      case Err(LimitExceeded) => TooLarge
  }

  /** resolveDerived */
  function Derived(m: Message, name: string, flags: Flags, maxBytes: int): Resolution {
    if flags.bs || flags.sf || flags.tr || flags.key.Some? then Failure
    else if name != "@query-param" && flags.name.Some? then Failure
    else if name == "@status" then
      if flags.req || m.status.None? || m.status.value < 100 || m.status.value > 599 then Failure
      else Value(Digits(m.status.value))
    else if m.requestOf(flags.req).None? then Failure
    else Requested(m.requestOf(flags.req).value, name, flags, maxBytes)
  }

  /** resolveComponent */
  function Resolve(m: Message, c: Component, maxBytes: int): Resolution
    requires c.name != ""
  {
    if c.name == "@signature-params" then Failure
    else match FlagsOf(c.parameters)
      case None => Failure
      case Some(flags) =>
        if c.name[0] == '@' then Derived(m, c.name, flags, maxBytes) else Field(m, c.name, flags, maxBytes)
  }

  // ----- implementations ------------------------------------------------------------

  lemma {:induction false} FlagsStop(ps: seq<Parameter>, i: nat)
    requires i <= |ps| && AllFlags(ps[..i]).None?
    ensures AllFlags(ps).None?
    decreases |ps|
  {
    if i == |ps| {
      assert ps[..i] == ps;
    } else {
      assert ps[..|ps| - 1][..i] == ps[..i];
      FlagsStop(ps[..|ps| - 1], i);
    }
  }

  /** componentParameterSet */
  method ComponentParameterSet(ps: seq<Parameter>) returns (r: Option<Flags>)
    ensures r == FlagsOf(ps)
  {
    var flags := NO_FLAGS;
    for i := 0 to |ps|
      invariant AllFlags(ps[..i]) == Some(flags)
      invariant forall k :: i <= k <= |ps| ==> (AllFlags(ps[..k]).Some? ==> AllFlags(ps[..i]).Some?)
    {
      assert ps[..i + 1][..i] == ps[..i];
      var next := AddFlag(flags, ps[i]);
      if next.None? {
        FlagsStop(ps, i + 1);
        return None;
      }
      flags := next.value;
    }
    assert ps[..|ps|] == ps;
    if flags.bs && (flags.sf || flags.key.Some?) {
      return None;
    }
    return Some(flags);
  }

  lemma {:induction false} LinesStop(values: seq<string>, binary: bool, i: nat)
    requires i <= |values| && EachLine(values[..i], binary).None?
    ensures EachLine(values, binary).None?
    decreases |values|
  {
    if i == |values| {
      assert values[..i] == values;
    } else {
      assert values[..|values| - 1][..i] == values[..i];
      LinesStop(values[..|values| - 1], binary, i);
    }
  }

  /** The loops of resolveField that wrap or normalize every line (message.go:375-393). */
  method NormalizeLines(values: seq<string>, binary: bool) returns (r: Option<seq<string>>)
    ensures r == EachLine(values, binary)
  {
    var lines := [];
    for i := 0 to |values|
      invariant EachLine(values[..i], binary) == Some(lines)
    {
      assert values[..i + 1][..i] == values[..i];
      var line := Line(values[i], binary);
      if line.None? {
        LinesStop(values, binary, i + 1);
        return None;
      }
      lines := lines + [line.value];
    }
    assert values[..|values|] == values;
    return Some(lines);
  }

  /** resolveField */
  method ResolveField(m: Message, name: string, flags: Flags, maxBytes: int) returns (r: Resolution)
    requires maxBytes < MAX_INT
    ensures r == Field(m, name, flags, maxBytes)
  {
    if flags.name.Some? {
      return Failure;
    }
    var found := m.fieldLines(name, flags);
    if found.None? || found.value == [] {
      return Failure;
    }
    var values := found.value;
    var fit := FieldValuesFit(values, flags.bs, maxBytes);
    if !fit {
      return TooLarge;
    }
    if m.httpMajor(flags.req) != 1 {
      for i := 0 to |values|
        invariant forall k :: 0 <= k < i ==> Free(values[k], '\r') && Free(values[k], '\n')
      {
        if !(Free(values[i], '\r') && Free(values[i], '\n')) {
          return Failure;
        }
      }
    }
    hide Prepared, MarshalMember, Marshal, Find, EachLine;
    var normalized := NormalizeLines(values, flags.bs);
    if normalized.None? {
      return Failure;
    }
    var lines := normalized.value;
    if flags.bs {
      return Value(Join(lines, ", "));
    }
    if flags.key.Some? {
      var dictionary := m.parse(Prepared(lines), DictionaryType);
      if dictionary.None? || !dictionary.value.DictionaryValue? {
        return Failure;
      }
      var member := Find(dictionary.value.entries, flags.key.value);
      if member.None? {
        return Failure;
      }
      return Marshaled(MarshalMember(member.value));
    }
    if flags.sf {
      if name !in m.fieldTypes {
        return Failure;
      }
      var parsed := m.parse(Prepared(RewriteEach(lines)), m.fieldTypes[name]);
      if parsed.None? {
        return Failure;
      }
      return Marshaled(Marshal(parsed.value));
    }
    return Value(Join(lines, ", "));
  }

  /** resolveDerived */
  method ResolveDerived(m: Message, name: string, flags: Flags, maxBytes: int) returns (r: Resolution)
    requires maxBytes < MAX_INT
    ensures r == Derived(m, name, flags, maxBytes)
  {
    hide FormCodec.Lookup, Digits, ValidToken, SourceFits;
    if flags.bs || flags.sf || flags.tr || flags.key.Some? {
      return Failure;
    }
    if name != "@query-param" && flags.name.Some? {
      return Failure;
    }
    var request := m.requestOf(flags.req);
    if request.None? && name != "@status" {
      return Failure;
    }
    match name {
      case "@method" =>
        if |request.value.verb| > maxBytes {
          return TooLarge;
        }
        if !ValidToken(request.value.verb) {
          return Failure;
        }
        return Value(request.value.verb);
      case "@status" =>
        if flags.req || m.status.None? || m.status.value < 100 || m.status.value > 599 {
          return Failure;
        }
        return Value(Digits(m.status.value));
      case _ =>
    }
    if !PartName(name) && name != "@query-param" {
      return Failure;
    }
    var fits := DerivedSourceFits(request.value.sources, name, maxBytes);
    if !fits {
      return TooLarge;
    }
    var parts := request.value.parts;
    if parts.None? {
      return Failure;
    }
    var p := parts.value;
    match name {
      case "@target-uri" => return Value(p.scheme + "://" + p.authority + p.originTarget);
      case "@authority" => return Value(p.authority);
      case "@scheme" => return Value(p.scheme);
      case "@request-target" => return Value(p.requestTarget);
      case "@path" => return Value(p.path);
      case "@query" => return Value("?" + p.rawQuery);
      case _ =>
    }
    if flags.name.None? {
      return Failure;
    }
    var found := FormCodec.QueryParameter(p.rawQuery, flags.name.value, maxBytes);
    match found {
      case Ok(text) => r := Value(text);
      case Err(Absent) => r := Failure;
      case Err(LimitExceeded) => r := TooLarge;
    }
  }

  /** resolveComponent */
  method ResolveComponent(m: Message, c: Component, maxBytes: int) returns (r: Resolution)
    requires c.name != "" && maxBytes < MAX_INT
    ensures r == Resolve(m, c, maxBytes)
  {
    hide Field, Derived, FlagsOf;
    if c.name == "@signature-params" {
      return Failure;
    }
    var flags := ComponentParameterSet(c.parameters);
    if flags.None? {
      return Failure;
    }
    if c.name[0] == '@' {
      r := ResolveDerived(m, c.name, flags.value, maxBytes);
    } else {
      r := ResolveField(m, c.name, flags.value, maxBytes);
    }
  }
}
