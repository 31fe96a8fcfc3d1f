/**
  Size accounting before anything is serialized (message_limits.go).

  All sizes are Go `int`s: additions and multiplications saturate at MaxInt.
  The accounting is proved against the length of the canonical text.
 */
module SizeLimits {
  import opened Basics
  import opened StructuredFields
  import opened Identifiers
  import Base64

  // ----- saturating arithmetic ----------------------------------------------------

  /** safeSizeAdd */
  function SafeAdd(left: int, right: int): Option<int> {
    if left < 0 || right < 0 || left > MAX_INT - right then None else Some(left + right)
  }

  /** safeSizeMultiply */
  function SafeMultiply(value: int, multiplier: int): Option<int> {
    if value < 0 || multiplier < 0 || (multiplier != 0 && value > MAX_INT / multiplier) then None
    else Some(value * multiplier)
  }

  /** saturatingSizeAdd */
  function SaturatingAdd(left: int, right: int): int {
    match SafeAdd(left, right) case Some(sum) => sum case None => MAX_INT
  }

  /** saturatingSizeMultiply */
  function SaturatingMultiply(value: int, multiplier: int): int {
    match SafeMultiply(value, multiplier) case Some(product) => product case None => MAX_INT
  }

  /** What a Go `int` shows of a size. */
  function Capped(n: int): int {
    Min(n, MAX_INT)
  }

  /** The built-in len. */
  function Len<T>(s: seq<T>): int {
    Capped(|s|)
  }

  lemma CappedAdd(a: int, b: int)
    requires a >= 0 && b >= 0
    ensures SaturatingAdd(Capped(a), Capped(b)) == Capped(a + b)
  {
  }

  /** base64EncodedLength */
  function Base64Length(size: int): int {
    SaturatingMultiply(SaturatingAdd(size, 2) / 3, 4)
  }

  /** Four characters for every started group of three octets, saturating. */
  lemma Base64LengthExact(octets: seq<byte>)
    ensures Base64Length(Len(octets)) == Capped(|Base64.Encode(octets)|)
  {
    Base64.EncodedSize(octets);
    hide Base64.Encode;
    var n := |octets|;
    if n >= MAX_INT - 1 {
      assert (n + 2) / 3 * 4 > MAX_INT;
    }
  }

  // ----- parameters ---------------------------------------------------------------

  /** The exact size behind parameterUpperBound: the text, or a placeholder for a decimal that has none. */
  function ParameterSize(p: Parameter): nat {
    if p.value.Decimal? && !Serializable(p.value) then |p.name| + 2 else |ParameterText(p)|
  }

  function ParametersSize(ps: seq<Parameter>): nat {
    if ps == [] then 0 else ParametersSize(ps[..|ps| - 1]) + ParameterSize(ps[|ps| - 1])
  }

  /** escapedStringLength */
  method EscapedStringLength(value: string) returns (size: int)
    ensures size == Capped(|Escaped(value)|)
  {
    size := Len(value);
    ghost var escapes := 0;
    for index := 0 to |value|
      invariant 0 <= escapes && size == Capped(|value| + escapes)
      invariant |Escaped(value[index..])| + escapes == |Escaped(value)| - index
      invariant |Escaped(value)| >= index
    {
      assert value[index..][1..] == value[index + 1..];
      if value[index] == '"' || value[index] == '\\' {
        CappedAdd(|value| + escapes, 1);
        size := SaturatingAdd(size, 1);
        escapes := escapes + 1;
      }
    }
  }

  /** parameterUpperBound */
  method ParameterUpperBound(p: Parameter) returns (size: int)
    ensures size == Capped(ParameterSize(p))
  {
    size := SaturatingAdd(1, Len(p.name));
    var valueBytes := 0;
    match p.value {
      case Boolean(flag) =>
        if !flag { valueBytes := 3; }
      case Text(chars) =>
        var escaped := EscapedStringLength(chars);
        valueBytes := SaturatingAdd(3, escaped);
      case Integer(n) =>
        valueBytes := 1 + Len(BareText(p.value));
      case Decimal(_) =>
        valueBytes := if Serializable(p.value) then SaturatingAdd(1, Len(BareText(p.value))) else 1;
      case Binary(octets) =>
        Base64LengthExact(octets);
        valueBytes := SaturatingAdd(3, Base64Length(Len(octets)));
      case Token(name) =>
        valueBytes := SaturatingAdd(1, Len(name));
      case Foreign =>
        valueBytes := 1;
    }
    size := SaturatingAdd(size, valueBytes);
  }

  // ----- items and inner lists -------------------------------------------------------

  /** The exact size behind structuredItemUpperBound. */
  function ItemSize(c: Component): nat {
    2 + |c.name| + ParametersSize(c.parameters)
  }

  /** structuredItemUpperBound */
  method StructuredItemUpperBound(name: string, parameters: seq<Parameter>) returns (size: int)
    ensures size == Capped(ItemSize(Component(name, parameters)))
  {
    size := SaturatingAdd(2, Len(name));
    for i := 0 to |parameters|
      invariant size == Capped(ItemSize(Component(name, parameters[..i])))
    {
      assert parameters[..i + 1][..i] == parameters[..i];
      var bound := ParameterUpperBound(parameters[i]);
      CappedAdd(ItemSize(Component(name, parameters[..i])), ParameterSize(parameters[i]));
      size := SaturatingAdd(size, bound);
    }
    assert parameters[..|parameters|] == parameters;
  }

  /** consumeSize; the pointer it writes through is passed in and out. */
  method ConsumeSize(remaining: int, size: int) returns (ok: bool, rest: int)
    ensures ok <==> 0 <= size <= remaining
    ensures rest == if ok then remaining - size else remaining
  {
    if size < 0 || size > remaining {
      return false, remaining;
    }
    return true, remaining - size;
  }

  /** The covered items with the spaces between them. */
  function ComponentsSize(cs: seq<Component>): nat {
    if cs == [] then 0
    else ComponentsSize(cs[..|cs| - 1]) + ItemSize(cs[|cs| - 1]) + (if |cs| == 1 then 0 else 1)
  }

  function InputSize(input: SignatureInput): nat {
    2 + ComponentsSize(input.components) + ParametersSize(input.parameters)
  }

  lemma {:induction false} SizesGrow(cs: seq<Component>, ps: seq<Parameter>, i: nat, j: nat)
    requires i <= |cs| && j <= |ps|
    ensures ComponentsSize(cs[..i]) <= ComponentsSize(cs) && ParametersSize(ps[..j]) <= ParametersSize(ps)
    decreases |cs| + |ps|
  {
    if i < |cs| {
      SizesGrow(cs[..|cs| - 1], ps, i, j);
      assert cs[..|cs| - 1][..i] == cs[..i];
    } else if j < |ps| {
      SizesGrow(cs, ps[..|ps| - 1], i, j);
      assert ps[..|ps| - 1][..j] == ps[..j];
      assert cs[..i] == cs;
    } else {
      assert cs[..i] == cs && ps[..j] == ps;
    }
  }

  /** signatureParametersFit: saturation never changes the answer. */
  method SignatureParametersFit(input: SignatureInput, budget: int) returns (fit: bool)
    requires budget <= MAX_INT
    ensures fit <==> InputSize(input) <= budget
  {
    var cs, ps := input.components, input.parameters;
    var ok, remaining := ConsumeSize(budget, 2);
    if !ok {
      return false;
    }
    for index := 0 to |cs|
      invariant 0 <= remaining == budget - 2 - ComponentsSize(cs[..index])
    {
      assert cs[..index + 1][..index] == cs[..index];
      SizesGrow(cs, ps, index + 1, 0);
      var componentSize := StructuredItemUpperBound(cs[index].name, cs[index].parameters);
      if index != 0 {
        CappedAdd(ItemSize(cs[index]), 1);
        componentSize := SaturatingAdd(componentSize, 1);
      }
      ok, remaining := ConsumeSize(remaining, componentSize);
      if !ok {
        return false;
      }
    }
    assert cs[..|cs|] == cs;
    for index := 0 to |ps|
      invariant 0 <= remaining == budget - 2 - ComponentsSize(cs) - ParametersSize(ps[..index])
    {
      assert ps[..index + 1][..index] == ps[..index];
      SizesGrow(cs, ps, 0, index + 1);
      var bound := ParameterUpperBound(ps[index]);
      ok, remaining := ConsumeSize(remaining, bound);
      if !ok {
        return false;
      }
    }
    assert ps[..|ps|] == ps;
    return true;
  }

  // ----- exactness ---------------------------------------------------------------------

  predicate AllSerializable(ps: seq<Parameter>) {
    forall i :: 0 <= i < |ps| ==> Serializable(ps[i].value)
  }

  lemma {:induction false} SizeCons(ps: seq<Parameter>)
    requires ps != []
    ensures ParametersSize(ps) == ParameterSize(ps[0]) + ParametersSize(ps[1..])
  {
    hide ParameterSize;
    var n := |ps| - 1;
    if n > 0 {
      SizeCons(ps[..n]);
      assert ps[..n][1..] == ps[1..][..n - 1];
    }
  }

  lemma {:induction false} TextLength(ps: seq<Parameter>)
    requires AllSerializable(ps)
    ensures |ParametersText(ps)| == ParametersSize(ps)
  {
    if ps != [] {
      TextLength(ps[1..]);
      SizeCons(ps);
      hide ParameterText;
    }
  }

  predicate Named(ps: seq<Parameter>, name: string) {
    ps != [] && (ps[0].name == name || Named(ps[1..], name))
  }

  lemma {:induction false} NamedIndex(ps: seq<Parameter>, name: string)
    ensures !Named(ps, name) <==> forall i :: 0 <= i < |ps| ==> ps[i].name != name
  {
    if ps != [] {
      NamedIndex(ps[1..], name);
      assert forall i :: 1 <= i < |ps| ==> ps[i] == ps[1..][i - 1];
      assert forall i :: 0 <= i < |ps| - 1 ==> ps[1..][i] == ps[i + 1];
    }
  }

  lemma {:induction false} NamedLast(ps: seq<Parameter>, p: Parameter, name: string)
    ensures Named(ps + [p], name) <==> Named(ps, name) || p.name == name
  {
    if ps == [] {
      assert [] + [p] == [p] && [p][1..] == [];
    } else {
      assert (ps + [p])[1..] == ps[1..] + [p];
      NamedLast(ps[1..], p, name);
    }
  }

  lemma SizePositive(p: Parameter)
    ensures ParameterSize(p) > 0
  {
  }

  /** Replacing a parameter never costs more than listing it again, and strictly less. */
  lemma {:induction false} PutSize(ps: seq<Parameter>, p: Parameter)
    ensures ParametersSize(Put(ps, p)) <= ParametersSize(ps) + ParameterSize(p)
    ensures ParametersSize(Put(ps, p)) == ParametersSize(ps) + ParameterSize(p) <==> !Named(ps, p.name)
  {
    if ps == [] {
      SizeCons([p]);
    } else {
      SizeCons(ps);
      SizeCons(Put(ps, p));
      SizePositive(ps[0]);
      hide ParameterSize;
      if ps[0].name != p.name {
        PutSize(ps[1..], p);
        assert ps == [ps[0]] + ps[1..];
      } else {
        assert Put(ps, p)[1..] == ps[1..];
      }
    }
  }

  lemma {:induction false} PutNames(ps: seq<Parameter>, p: Parameter, name: string)
    ensures Named(Put(ps, p), name) <==> Named(ps, name) || p.name == name
  {
    if ps == [] {
      assert [p][1..] == [];
    } else if ps[0].name == p.name {
      assert Put(ps, p)[1..] == ps[1..];
    } else {
      PutNames(ps[1..], p, name);
      assert Put(ps, p)[1..] == Put(ps[1..], p);
    }
  }

  lemma {:induction false} MergeNames(ps: seq<Parameter>, name: string)
    ensures Named(Merge(ps), name) <==> Named(ps, name)
  {
    if ps != [] {
      var n := |ps| - 1;
      MergeNames(ps[..n], name);
      PutNames(Merge(ps[..n]), ps[n], name);
      NamedLast(ps[..n], ps[n], name);
      assert ps == ps[..n] + [ps[n]];
      hide Named;
    }
  }

  lemma DistinctLast(ps: seq<Parameter>)
    requires ps != []
    ensures Distinct(ps) <==> var n := |ps| - 1; Distinct(ps[..n]) && !Named(ps[..n], ps[n].name)
  {
    NamedIndex(ps[..|ps| - 1], ps[|ps| - 1].name);
    hide Named;
  }

  /** Merging repeated names only shrinks the text, and leaves its size unchanged exactly when no name repeats. */
  lemma {:induction false} MergeSize(ps: seq<Parameter>)
    ensures ParametersSize(Merge(ps)) <= ParametersSize(ps)
    ensures ParametersSize(Merge(ps)) == ParametersSize(ps) <==> Distinct(ps)
  {
    if ps != [] {
      var n := |ps| - 1;
      MergeSize(ps[..n]);
      PutSize(Merge(ps[..n]), ps[n]);
      MergeNames(ps[..n], ps[n].name);
      hide ParameterSize;
      DistinctLast(ps);
    }
  }

  lemma {:induction false} PlainText(name: string, i: nat)
    requires i <= |name| && forall k :: 0 <= k < |name| ==> name[k] != '"' && name[k] != '\\'
    ensures Escaped(name[i..]) == name[i..]
    decreases |name| - i
  {
    if i < |name| {
      PlainText(name, i + 1);
      assert name[i..] == [name[i]] + name[i + 1..];
    }
  }

  lemma NoEscapes(name: string)
    requires ValidName(name)
    ensures Escaped(name) == name
  {
    PlainText(name, 0);
    assert name[0..] == name;
  }

  /**
    structuredItemUpperBound is an upper bound for every identifier that can be
    serialized, and the exact length precisely when no parameter name repeats.
   */
  lemma ItemSizeExact(c: Component)
    requires ValidComponent(c)
    ensures |ItemText(ItemOf(c))| <= ItemSize(c)
    ensures |ItemText(ItemOf(c))| == ItemSize(c) <==> Distinct(c.parameters)
  {
    NoEscapes(c.name);
    TextLength(Merge(c.parameters));
    MergeSize(c.parameters);
    hide ParametersText, Merge, Escaped, ParametersSize;
  }

  predicate EachDistinct(cs: seq<Component>) {
    forall i :: 0 <= i < |cs| ==> Distinct(cs[i].parameters)
  }

  predicate EachValid(cs: seq<Component>) {
    forall i :: 0 <= i < |cs| ==> ValidComponent(cs[i])
  }

  lemma EachDistinctCons(cs: seq<Component>)
    requires cs != []
    ensures EachDistinct(cs) <==> Distinct(cs[0].parameters) && EachDistinct(cs[1..])
  {
    hide Distinct;
    assert cs == [cs[0]] + cs[1..];
  }

  lemma ItemsTextCons(cs: seq<Component>)
    requires cs != []
    ensures |ItemsText(ItemsOf(cs))| == |ItemText(ItemOf(cs[0]))| + |ItemsText(ItemsOf(cs[1..]))| + (if |cs| == 1 then 0 else 1)
  {
    hide ItemText, ItemOf;
    assert ItemsOf(cs)[1..] == ItemsOf(cs[1..]);
  }

  lemma {:induction false} ComponentsCons(cs: seq<Component>)
    requires cs != []
    ensures ComponentsSize(cs) == ItemSize(cs[0]) + ComponentsSize(cs[1..]) + (if |cs| == 1 then 0 else 1)
  {
    hide ItemSize;
    var n := |cs| - 1;
    if n > 0 {
      ComponentsCons(cs[..n]);
      assert cs[..n][1..] == cs[1..][..n - 1];
    }
  }

  lemma {:induction false} ItemsLength(cs: seq<Component>)
    requires EachValid(cs)
    ensures |ItemsText(ItemsOf(cs))| <= ComponentsSize(cs)
    ensures |ItemsText(ItemsOf(cs))| == ComponentsSize(cs) <==> EachDistinct(cs)
  {
    hide ItemText, ItemSize, ItemOf, ValidComponent, Distinct;
    if cs != [] {
      ItemSizeExact(cs[0]);
      ItemsLength(cs[1..]);
      ComponentsCons(cs);
      ItemsTextCons(cs);
      EachDistinctCons(cs);
      hide EachDistinct, ItemsText, ItemsOf, ComponentsSize;
    }
  }

  predicate AllDistinct(input: SignatureInput) {
    Distinct(input.parameters) && EachDistinct(input.components)
  }

  /**
    signatureParametersFit never lets a longer text through, and it is exact, for
    every budget, precisely when no parameter name repeats.
   */
  lemma InputSizeExact(input: SignatureInput)
    requires ValidInput(input)
    ensures |InputText(input)| <= InputSize(input)
    ensures |InputText(input)| == InputSize(input) <==> AllDistinct(input)
  {
    ItemsLength(input.components);
    TextLength(Merge(input.parameters));
    MergeSize(input.parameters);
    hide ItemsText, ParametersText, Merge, ParametersSize, ComponentsSize, Distinct;
  }

  // ----- field values ---------------------------------------------------------------

  function ValueSize(value: string, binary: bool): nat {
    if binary then (|value| + 2) / 3 * 4 + 2 else |value|
  }

  function ValuesSize(values: seq<string>, binary: bool): nat {
    if values == [] then 0
    else ValuesSize(values[..|values| - 1], binary) + ValueSize(values[|values| - 1], binary) + (if |values| == 1 then 0 else 2)
  }

  /** The size of the values as a Go `int` shows each of them. */
  function ShownSize(values: seq<string>, binary: bool): nat {
    if values == [] then 0
    else
      ShownSize(values[..|values| - 1], binary) + Capped(ValueSize(values[|values| - 1], binary))
      + (if |values| == 1 then 0 else 2)
  }

  /** Below MaxInt what is shown fits exactly when the values do. */
  lemma {:induction false} ShownExact(values: seq<string>, binary: bool, budget: int)
    requires budget < MAX_INT
    ensures ShownSize(values, binary) <= budget <==> ValuesSize(values, binary) <= budget
  {
    if values != [] {
      var before, last := values[..|values| - 1], values[|values| - 1];
      ShownExact(before, binary, budget - Capped(ValueSize(last, binary)) - (if |values| == 1 then 0 else 2));
      hide ValueSize;
    }
  }

  lemma {:induction false} ShownGrow(values: seq<string>, binary: bool, i: nat)
    requires i <= |values|
    ensures ShownSize(values[..i], binary) <= ShownSize(values, binary)
  {
    if i < |values| {
      ShownGrow(values[..|values| - 1], binary, i);
      assert values[..|values| - 1][..i] == values[..i];
    } else {
      assert values[..i] == values;
    }
  }

  lemma ShownNext(values: seq<string>, binary: bool, i: nat)
    requires i < |values|
    ensures ShownSize(values[..i + 1], binary)
      == ShownSize(values[..i], binary) + Capped(ValueSize(values[i], binary)) + (if i == 0 then 0 else 2)
    ensures ShownSize(values[..i + 1], binary) <= ShownSize(values, binary)
  {
    assert values[..i + 1][..i] == values[..i];
    ShownGrow(values, binary, i + 1);
  }

  lemma Base64LengthOf(value: string)
    ensures SaturatingAdd(Base64Length(Len(value)), 2) == Capped((|value| + 2) / 3 * 4 + 2)
  {
    var n := |value|;
    if n >= MAX_INT - 1 {
      assert (n + 2) / 3 * 4 > MAX_INT;
    }
  }

  /** fieldValuesFit */
  method FieldValuesFit(values: seq<string>, binary: bool, budget: int) returns (fit: bool)
    requires budget <= MAX_INT
    ensures fit <==> ShownSize(values, binary) <= budget
    ensures budget < MAX_INT ==> (fit <==> ValuesSize(values, binary) <= budget)
  {
    if budget < MAX_INT { ShownExact(values, binary, budget); }
    if budget < 0 {
      return false;
    }
    var remaining, ok := budget, true;
    for index := 0 to |values|
      invariant 0 <= remaining == budget - ShownSize(values[..index], binary)
    {
      ShownNext(values, binary, index);
      hide ShownSize;
      if index != 0 {
        ok, remaining := ConsumeSize(remaining, 2);
        if !ok {
          return false;
        }
      }
      var valueSize := Len(values[index]);
      if binary {
        Base64LengthOf(values[index]);
        valueSize := SaturatingAdd(Base64Length(valueSize), 2);
      }
      ok, remaining := ConsumeSize(remaining, valueSize);
      if !ok {
        return false;
      }
    }
    assert values[..|values|] == values;
    return true;
  }

  // ----- the sources of derived values -------------------------------------------------

  /** The lengths of an external request context. */
  datatype External = External(scheme: nat, authority: nat, target: nat)

  /** The lengths of what a request holds its derived values in. */
  datatype Sources = Sources(
    hasURL: bool, tls: bool, scheme: nat, host: nat, urlHost: nat, requestURI: nat,
    path: nat, rawPath: nat, rawQuery: nat, opaqueText: nat, external: Option<External>)

  function SchemeSize(s: Sources): nat {
    var given := if s.external.Some? then s.external.value.scheme else s.scheme;
    if given != 0 then given else if s.tls then 5 else 4
  }

  function AuthoritySize(s: Sources): nat {
    if s.external.Some? then s.external.value.authority else if s.host != 0 then s.host else s.urlHost
  }

  /** The request target, or a bound on the one that will be built. */
  function TargetSize(s: Sources): nat {
    if s.external.Some? then s.external.value.target
    else if s.requestURI != 0 then s.requestURI
    else
      var origin := 3 * s.path + s.rawPath + 3 * s.rawQuery + 2;
      var other := s.opaqueText + s.scheme + 2 + 3 * s.rawQuery;
      if s.opaqueText != 0 && other > origin then other else origin
  }

  /** What is measured for a derived value. */
  function Measured(s: Sources, name: string): nat {
    var scheme, authority, target := SchemeSize(s), AuthoritySize(s), TargetSize(s);
    if name == "@target-uri" then scheme + 3 + authority + target
    else
      var larger := if scheme < authority then authority else scheme;
      if larger < target then target else larger
  }

  /** The sources fit a budget; negative budgets and missing URLs are left to others to refuse. */
  predicate SourceFits(s: Sources, name: string, budget: int) {
    s.hasURL && budget >= 0 ==> Measured(s, name) <= budget && (name == "@query-param" ==> TargetSize(s) <= budget / 3)
  }

  /** What fits a budget fits every larger one, from 0 up. */
  lemma FitsMore(s: Sources, name: string, a: int, b: int)
    requires 0 <= a <= b && SourceFits(s, name, a)
    ensures SourceFits(s, name, b)
  {
    assert a / 3 <= b / 3;
  }

  /** Not from below 0: the check passes there and may fail at 0. */
  lemma FitsBelowZero(s: Sources, name: string, budget: int)
    requires budget < 0
    ensures SourceFits(s, name, budget) && (SourceFits(s, name, 0) <==> !s.hasURL)
  {
  }

  lemma CappedTriple(n: nat)
    ensures SaturatingMultiply(Capped(n), 3) == Capped(3 * n)
  {
  }

  /** The size of the request target, saturating. */
  method MeasureTarget(s: Sources) returns (size: int)
    ensures size == Capped(TargetSize(s))
  {
    size := Capped(s.requestURI);
    if size == 0 {
      CappedTriple(s.path);
      CappedTriple(s.rawQuery);
      var pathBytes := SaturatingMultiply(Capped(s.path), 3);
      size := SaturatingAdd(pathBytes, Capped(s.rawPath));
      var queryBytes := SaturatingMultiply(Capped(s.rawQuery), 3);
      size := SaturatingAdd(size, queryBytes);
      size := SaturatingAdd(size, 2);
      if s.opaqueText != 0 {
        var opaqueBytes := SaturatingAdd(Capped(s.opaqueText), Capped(s.scheme));
        opaqueBytes := SaturatingAdd(opaqueBytes, 2);
        opaqueBytes := SaturatingAdd(opaqueBytes, queryBytes);
        if opaqueBytes > size {
          size := opaqueBytes;
        }
      }
    }
    if s.external.Some? {
      size := Capped(s.external.value.target);
    }
  }

  /** The size of an absolute target, saturating. */
  method MeasureAbsolute(scheme: int, authority: int, target: int, ghost a: nat, ghost b: nat, ghost c: nat) returns (size: int)
    requires scheme == Capped(a) && authority == Capped(b) && target == Capped(c)
    ensures size == Capped(a + 3 + b + c)
  {
    hide SaturatingAdd;
    CappedAdd(a, 3);
    size := SaturatingAdd(scheme, 3);
    CappedAdd(a + 3, b);
    size := SaturatingAdd(size, authority);
    CappedAdd(a + 3 + b, c);
    size := SaturatingAdd(size, target);
  }

  /** derivedSourceFits */
  method DerivedSourceFits(s: Sources, name: string, budget: int) returns (fits: bool)
    requires budget < MAX_INT
    ensures fits <==> SourceFits(s, name, budget)
  {
    if !s.hasURL || budget < 0 {
      return true;
    }
    var scheme := Capped(s.scheme);
    var authority := Capped(s.host);
    if authority == 0 {
      authority := Capped(s.urlHost);
    }
    var target := MeasureTarget(s);
    if s.external.Some? {
      scheme := Capped(s.external.value.scheme);
      authority := Capped(s.external.value.authority);
    }
    if scheme == 0 {
      scheme := 5;
      if !s.tls {
        scheme := 4;
      }
    }
    assert scheme == Capped(SchemeSize(s)) && authority == Capped(AuthoritySize(s)) && target == Capped(TargetSize(s));
    hide SchemeSize, AuthoritySize, TargetSize;
    if scheme > budget || authority > budget || target > budget {
      return false;
    }
    if name == "@scheme" {
      return scheme <= budget;
    }
    if name == "@authority" {
      return authority <= budget;
    }
    if name == "@query-param" {
      return target <= budget / 3;
    }
    if name == "@request-target" || name == "@path" || name == "@query" {
      return target <= budget;
    }
    if name == "@target-uri" {
      var size := MeasureAbsolute(scheme, authority, target, SchemeSize(s), AuthoritySize(s), TargetSize(s));
      return size <= budget;
    }
    return true;
  }
}
