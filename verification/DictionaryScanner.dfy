/**
  The raw dictionary scanner that rejects duplicate labels before the structured
  field parser could hide them (signature_fields.go:488-572).
 */
module DictionaryScanner {
  import opened Basics
  import opened StructuredFields
  import opened Whitespace
  import Base64

  // ----- strings.TrimSpace ----------------------------------------------------------

  /** One white space character, as the UTF-8 encoding of a code point with unicode.IsSpace. */
  predicate SpaceUnit(u: string) {
    || (|u| == 1 && (u[0] == ' ' || '\t' <= u[0] <= '\r'))
    || (|u| == 2 && u[0] == '\U{C2}' && (u[1] == '\U{85}' || u[1] == '\U{A0}'))
    || (|u| == 3 && u[0] == '\U{E1}' && u[1] == '\U{9A}' && u[2] == '\U{80}')
    || (|u| == 3 && u[0] == '\U{E2}' && u[1] == '\U{80}'
        && ('\U{80}' <= u[2] <= '\U{8A}' || u[2] == '\U{A8}' || u[2] == '\U{A9}' || u[2] == '\U{AF}'))
    || (|u| == 3 && u[0] == '\U{E2}' && u[1] == '\U{81}' && u[2] == '\U{9F}')
    || (|u| == 3 && u[0] == '\U{E3}' && u[1] == '\U{80}' && u[2] == '\U{80}')
  }

  /** The width of the white space character that starts `s`, or 0. */
  function Leading(s: string): (w: nat)
    ensures w <= |s| && w <= 3 && (w > 0 ==> SpaceUnit(s[..w]))
  {
    if |s| >= 1 && SpaceUnit(s[..1]) then 1
    else if |s| >= 2 && SpaceUnit(s[..2]) then 2
    else if |s| >= 3 && SpaceUnit(s[..3]) then 3
    else 0
  }

  /** The width of the white space character that ends `s`, or 0. */
  function Trailing(s: string): (w: nat)
    ensures w <= |s| && w <= 3 && (w > 0 ==> SpaceUnit(s[|s| - w..]))
  {
    if |s| >= 1 && SpaceUnit(s[|s| - 1..]) then 1
    else if |s| >= 2 && SpaceUnit(s[|s| - 2..]) then 2
    else if |s| >= 3 && SpaceUnit(s[|s| - 3..]) then 3
    else 0
  }

  function TrimLeft(s: string): string
    decreases |s|
  {
    if Leading(s) > 0 then TrimLeft(s[Leading(s)..]) else s
  }

  function TrimRight(s: string): string
    decreases |s|
  {
    if Trailing(s) > 0 then TrimRight(s[..|s| - Trailing(s)]) else s
  }

  function TrimSpace(s: string): string {
    TrimRight(TrimLeft(s))
  }

  // ----- the scanner -------------------------------------------------------------------

  datatype Mode = Mode(depth: int, quoted: bool, escaped: bool)

  const START := Mode(0, false, false)

  /** The mode after a character that does not end a member; a negative depth is an error. */
  function Next(c: char, mode: Mode): Mode {
    if mode.escaped then mode.(escaped := false)
    else if mode.quoted && c == '\\' then mode.(escaped := true)
    else if c == '"' then mode.(quoted := !mode.quoted)
    else if mode.quoted then mode
    else if c == '(' then mode.(depth := mode.depth + 1)
    else if c == ')' then mode.(depth := mode.depth - 1)
    else mode
  }

  predicate Cuts(c: char, mode: Mode) {
    c == ',' && mode == START
  }

  function Prepend(members: seq<string>, rest: Option<seq<string>>): Option<seq<string>> {
    match rest case None => None case Some(more) => Some(members + more)
  }

  /** The members of `cur + s`, when `cur` has been scanned and `mode` is the state behind it. */
  function Split(s: string, cur: string, mode: Mode): Option<seq<string>> {
    if s == "" then (if mode == START then Some([TrimSpace(cur)]) else None)
    else if Cuts(s[0], mode) then Prepend([TrimSpace(cur)], Split(s[1..], "", START))
    else if Next(s[0], mode).depth < 0 then None
    else Split(s[1..], cur + [s[0]], Next(s[0], mode))
  }

  function Members(value: string): Option<seq<string>> {
    Split(value, "", START)
  }

  /** One step of the scan, for the member that started at `start`. */
  lemma StepAt(value: string, start: nat, index: nat, mode: Mode, members: seq<string>)
    requires start <= index < |value|
    ensures var c, next, cur := value[index], Next(value[index], mode), value[start..index];
      var rest, more := Split(value[index..], cur, mode), Split(value[index + 1..], value[index + 1..index + 1], START);
      && (!Cuts(c, mode) && next.depth < 0 ==> rest == None)
      && (!Cuts(c, mode) && next.depth >= 0 ==> rest == Split(value[index + 1..], value[start..index + 1], next))
      && (Cuts(c, mode) ==> Prepend(members, rest) == Prepend(members + [TrimSpace(cur)], more))
  {
    hide TrimSpace;
    var s, cur := value[index..], value[start..index];
    assert s[0] == value[index] && s[1..] == value[index + 1..];
    assert value[start..index + 1] == cur + [value[index]];
    if Cuts(value[index], mode) {
      assert value[index + 1..index + 1] == "";
      var more := Split(s[1..], "", START);
      if more.Some? { Associate(members, [TrimSpace(cur)], more.value); }
    }
  }

  lemma PrependNothing(value: string)
    ensures Prepend([], Split(value[0..], value[0..0], START)) == Members(value)
  {
    hide Split;
    assert value[0..] == value && value[0..0] == "";
    var all := Members(value);
    if all.Some? { assert [] + all.value == all.value; }
  }

  lemma PrependNone(members: seq<string>)
    ensures Prepend(members, None) == None
  {
  }

  lemma SplitEnd(value: string, start: nat, mode: Mode, members: seq<string>)
    requires start <= |value|
    ensures Prepend(members, Split(value[|value|..], value[start..|value|], mode))
      == if mode == START then Some(members + [TrimSpace(value[start..])]) else None
  {
    hide TrimSpace;
    assert value[start..|value|] == value[start..];
  }

  /** splitDictionaryMembers */
  method SplitDictionaryMembers(value: string) returns (r: Option<seq<string>>)
    ensures r == Members(value)
  {
    hide TrimSpace, Split, Prepend;
    var members: seq<string> := [];
    var start, parentheses := 0, 0;
    var quoted, escaped := false, false;
    PrependNothing(value);
    for index := 0 to |value|
      invariant 0 <= start <= index && parentheses >= 0
      invariant Prepend(members, Split(value[index..], value[start..index], Mode(parentheses, quoted, escaped))) == Members(value)
    {
      var character := value[index];
      ghost var mode := Mode(parentheses, quoted, escaped);
      StepAt(value, start, index, mode, members);
      if escaped {
        escaped := false;
        continue;
      }
      if quoted && character == '\\' {
        escaped := true;
        continue;
      }
      if character == '"' {
        quoted := !quoted;
        continue;
      }
      if quoted {
        continue;
      }
      if character == '(' {
        parentheses := parentheses + 1;
      } else if character == ')' {
        parentheses := parentheses - 1;
        if parentheses < 0 {
          PrependNone(members);
          return None;
        }
      } else if character == ',' && parentheses == 0 {
        members := members + [TrimSpace(value[start..index])];
        start := index + 1;
      }
    }
    SplitEnd(value, start, Mode(parentheses, quoted, escaped), members);
    if quoted || escaped || parentheses != 0 {
      return None;
    }
    members := members + [TrimSpace(value[start..])];
    return Some(members);
  }

  // ----- labels -----------------------------------------------------------------------

  lemma {:induction false} RunBound(s: string)
    ensures Run(KeyCharacter, s) <= |s|
  {
    if s != "" { RunBound(s[1..]); }
  }

  /** The key that starts `s`, or the empty string. */
  function KeyRun(s: string): (key: string)
    ensures key <= s
  {
    if s == "" || !KeyStart(s[0]) then ""
    else
      RunBound(s);
      s[..Run(KeyCharacter, s)]
  }

  function KeyOf(member: string): string {
    KeyRun(DropBlanks(member))
  }

  lemma {:induction false} RunExtends(s: string, i: nat)
    requires i <= |s| && forall k :: 0 <= k < i ==> KeyCharacter(s[k])
    ensures Run(KeyCharacter, s) == i + Run(KeyCharacter, s[i..])
  {
    if i > 0 {
      RunExtends(s[1..], i - 1);
      assert s[1..][i - 1..] == s[i..];
    } else {
      assert s[0..] == s;
    }
  }

  /** dictionaryMemberKey */
  method DictionaryMemberKey(member: string) returns (key: string)
    ensures key == KeyOf(member)
  {
    var index := 0;
    assert member[0..] == member;
    while index < |member| && (member[index] == ' ' || member[index] == '\t')
      invariant 0 <= index <= |member| && DropBlanks(member[index..]) == DropBlanks(member)
    {
      index := index + 1;
    }
    var start := index;
    ghost var rest := member[start..];
    if index >= |member| || !KeyStart(member[index]) {
      return "";
    }
    index := index + 1;
    while index < |member| && KeyCharacter(member[index])
      invariant start < index <= |member|
      invariant forall k :: 0 <= k < index - start ==> KeyCharacter(rest[k])
    {
      index := index + 1;
    }
    RunExtends(rest, index - start);
    assert rest[index - start..] == member[index..];
    return member[start..index];
  }

  function Labels(members: seq<string>): seq<string> {
    seq(|members|, i requires 0 <= i < |members| => KeyOf(members[i]))
  }

  predicate DistinctLabels(labels: seq<string>) {
    && (forall i :: 0 <= i < |labels| ==> labels[i] != "")
    && (forall i, j :: 0 <= i < j < |labels| ==> labels[i] != labels[j])
  }

  /** rejectDuplicateDictionaryKeys accepts. */
  predicate Accepts(values: seq<string>) {
    var members := Members(Join(values, ","));
    members.Some? && DistinctLabels(Labels(members.value))
  }

  lemma NoLabels(labels: seq<string>)
    ensures DistinctLabels(labels[..0])
  {
  }

  /** One more label keeps the labels distinct exactly when it is new and not empty. */
  lemma LabelStep(labels: seq<string>, i: nat)
    requires i < |labels| && DistinctLabels(labels[..i])
    ensures DistinctLabels(labels[..i + 1]) <==> labels[i] != "" && forall k :: 0 <= k < i ==> labels[k] != labels[i]
    ensures DistinctLabels(labels) ==> DistinctLabels(labels[..i + 1])
  {
    var before, after := labels[..i], labels[..i + 1];
    assert after == before + [labels[i]];
    if DistinctLabels(after) {
      forall k | 0 <= k < i ensures labels[k] != labels[i] {
        assert after[k] != after[i];
      }
    }
  }

  /** rejectDuplicateDictionaryKeys */
  method RejectDuplicateDictionaryKeys(values: seq<string>) returns (accepted: bool)
    ensures accepted == Accepts(values)
  {
    hide DistinctLabels, Members, KeyOf;
    var members := SplitDictionaryMembers(Join(values, ","));
    if members.None? {
      return false;
    }
    var seen: set<string> := {};
    ghost var labels := Labels(members.value);
    NoLabels(labels);
    for i := 0 to |members.value|
      invariant forall label' :: label' in seen <==> exists k :: 0 <= k < i && labels[k] == label'
      invariant DistinctLabels(labels[..i])
    {
      var key := DictionaryMemberKey(members.value[i]);
      assert key == labels[i];
      LabelStep(labels, i);
      if key == "" {
        return false;
      }
      if key in seen {
        return false;
      }
      seen := seen + {key};
    }
    assert labels[..|labels|] == labels;
    return true;
  }

  // ----- the scanner reads what the serializer prints ---------------------------------------

  /** A character that leaves an unquoted scan as it is. */
  predicate Neutral(c: char) {
    c != '"' && c != '(' && c != ')' && c != ','
  }

  predicate AllNeutral(t: string) {
    forall i :: 0 <= i < |t| ==> Neutral(t[i])
  }

  /** Scanning moves over `t` without cutting, from and to the unquoted state at one depth. */
  ghost predicate Passes(t: string, rest: string, cur: string, depth: nat) {
    Split(t + rest, cur, Mode(depth, false, false)) == Split(rest, cur + t, Mode(depth, false, false))
  }

  lemma {:induction false} PassNeutral(t: string, rest: string, cur: string, depth: nat)
    requires AllNeutral(t)
    ensures Passes(t, rest, cur, depth)
  {
    hide TrimSpace;
    if t == "" {
      assert t + rest == rest && cur + t == cur;
    } else {
      assert (t + rest)[1..] == t[1..] + rest && cur + [t[0]] + t[1..] == cur + t;
      PassNeutral(t[1..], rest, cur + [t[0]], depth);
    }
  }

  lemma PassBoth(t: string, u: string, rest: string, cur: string, depth: nat)
    requires Passes(t, u + rest, cur, depth) && Passes(u, rest, cur + t, depth)
    ensures Passes(t + u, rest, cur, depth)
  {
    hide Split;
    Associate(t, u, rest);
    Associate(cur, t, u);
  }

  lemma PassEscapedCharacter(c: char, rest: string, cur: string, depth: nat)
    ensures var head := if c == '"' || c == '\\' then ['\\', c] else [c];
      Split(head + rest, cur, Mode(depth, true, false)) == Split(rest, cur + head, Mode(depth, true, false))
  {
    hide TrimSpace;
    if c == '"' || c == '\\' {
      var s := ['\\', c] + rest;
      assert s[1..] == [c] + rest && s[1..][1..] == rest;
      assert cur + ['\\'] + [c] == cur + ['\\', c];
    } else {
      assert ([c] + rest)[1..] == rest;
    }
  }

  lemma {:induction false} PassEscaped(chars: string, rest: string, cur: string, depth: nat)
    ensures Split(Escaped(chars) + ("\"" + rest), cur, Mode(depth, true, false))
      == Split(rest, cur + Escaped(chars) + "\"", Mode(depth, false, false))
  {
    hide TrimSpace;
    var tail := "\"" + rest;
    if chars == "" {
      assert "" + tail == tail && tail[1..] == rest && cur + "" == cur;
    } else {
      var head, more := if chars[0] == '"' || chars[0] == '\\' then ['\\', chars[0]] else [chars[0]], Escaped(chars[1..]);
      PassEscapedCharacter(chars[0], more + tail, cur, depth);
      Associate(head, more, tail);
      Associate(cur, head, more);
      PassEscaped(chars[1..], rest, cur + head, depth);
    }
  }

  lemma PassText(chars: string, rest: string, cur: string, depth: nat)
    ensures Passes("\"" + (Escaped(chars) + "\""), rest, cur, depth)
  {
    hide TrimSpace;
    var t := "\"" + (Escaped(chars) + "\"");
    Nest("\"", Escaped(chars), "\"", rest);
    assert (t + rest)[0] == '"' && (t + rest)[1..] == Escaped(chars) + ("\"" + rest);
    PassEscaped(chars, rest, cur + "\"", depth);
    assert cur + "\"" + Escaped(chars) + "\"" == cur + t;
  }

  lemma {:induction false} DigitsNeutral(n: nat)
    ensures AllNeutral(Digits(n))
  {
    if n >= 10 { DigitsNeutral(n / 10); }
  }

  lemma EncodedNeutral(octets: seq<byte>)
    ensures AllNeutral(Base64.Encode(octets))
  {
    Base64.RawSize(octets);
    hide Base64.RawEncode;
  }

  lemma BareNeutral(v: BareItem)
    requires Serializable(v) && !v.Text?
    ensures AllNeutral(BareText(v))
  {
    hide Digits, Fraction, Base64.Encode;
    match v
    case Integer(n) => DigitsNeutral(Abs(n));
    case Decimal(t) => DigitsNeutral(Abs(t) / 1000); FractionShape(Abs(t) % 1000);
    case Binary(octets) => EncodedNeutral(octets);
    case _ =>
  }

  lemma PassBare(v: BareItem, rest: string, cur: string, depth: nat)
    requires Serializable(v)
    ensures Passes(BareText(v), rest, cur, depth)
  {
    if v.Text? {
      PassText(v.chars, rest, cur, depth);
      hide Passes, Escaped;
    } else {
      BareNeutral(v);
      hide BareText;
      PassNeutral(BareText(v), rest, cur, depth);
    }
  }

  lemma PassParameter(p: Parameter, rest: string, cur: string, depth: nat)
    requires ValidParameter(p)
    ensures Passes(ParameterText(p), rest, cur, depth)
  {
    var value := if p.value == Boolean(true) then "" else "=" + BareText(p.value);
    assert AllNeutral(";" + p.name);
    hide BareText, Serializable, Passes;
    PassNeutral(";" + p.name, value + rest, cur, depth);
    if p.value == Boolean(true) {
      PassNeutral("", rest, cur + (";" + p.name), depth);
    } else {
      PassNeutral("=", BareText(p.value) + rest, cur + (";" + p.name), depth);
      PassBare(p.value, rest, cur + (";" + p.name) + "=", depth);
      PassBoth("=", BareText(p.value), rest, cur + (";" + p.name), depth);
    }
    PassBoth(";" + p.name, value, rest, cur, depth);
    Associate(";", p.name, value);
  }

  lemma {:induction false} PassParameters(ps: seq<Parameter>, rest: string, cur: string, depth: nat)
    requires ValidParameters(ps)
    ensures Passes(ParametersText(ps), rest, cur, depth)
  {
    if ps == [] {
      PassNeutral("", rest, cur, depth);
    } else {
      var head, more := ParameterText(ps[0]), ParametersText(ps[1..]);
      hide Passes, ParameterText, ValidParameter;
      PassParameter(ps[0], more + rest, cur, depth);
      PassParameters(ps[1..], rest, cur + head, depth);
      PassBoth(head, more, rest, cur, depth);
    }
  }

  lemma PassItem(item: Item, rest: string, cur: string, depth: nat)
    requires ValidItem(item)
    ensures Passes(ItemText(item), rest, cur, depth)
  {
    var head, more := BareText(item.value), ParametersText(item.parameters);
    hide Passes, BareText, ParametersText, Serializable, ValidParameters;
    PassBare(item.value, more + rest, cur, depth);
    PassParameters(item.parameters, rest, cur + head, depth);
    PassBoth(head, more, rest, cur, depth);
  }

  lemma {:induction false} PassItems(items: seq<Item>, rest: string, cur: string, depth: nat)
    requires ValidItems(items)
    ensures Passes(ItemsText(items), rest, cur, depth)
  {
    if items == [] {
      PassNeutral("", rest, cur, depth);
    } else if |items| == 1 {
      PassItem(items[0], rest, cur, depth);
    } else {
      var head, more := ItemText(items[0]), ItemsText(items[1..]);
      hide Passes, ItemText, ValidItem;
      PassItem(items[0], " " + more + rest, cur, depth);
      Associate(" ", more, rest);
      PassNeutral(" ", more + rest, cur + head, depth);
      PassItems(items[1..], rest, cur + head + " ", depth);
      PassBoth(" ", more, rest, cur + head, depth);
      PassBoth(head, " " + more, rest, cur, depth);
    }
  }

  /** A balanced inner list opens and closes one level. */
  lemma PassGroup(inner: string, rest: string, cur: string, depth: nat)
    requires Passes(inner, ")" + rest, cur + "(", depth + 1)
    ensures Passes("(" + (inner + ")"), rest, cur, depth)
  {
    hide TrimSpace;
    var t := "(" + (inner + ")");
    Nest("(", inner, ")", rest);
    assert (t + rest)[0] == '(' && (t + rest)[1..] == inner + (")" + rest);
    assert (")" + rest)[1..] == rest;
    assert cur + "(" + inner + ")" == cur + t;
  }

  lemma PassMember(m: Member, rest: string, cur: string, depth: nat)
    requires ValidMember(m)
    ensures Passes(MemberText(m), rest, cur, depth)
  {
    match m
    case Single(item) =>
      hide Passes, ItemText, ValidItem;
      PassItem(item, rest, cur, depth);
    case InnerList(items, ps) =>
      var inner, more := ItemsText(items), ParametersText(ps);
      hide Passes, ItemsText, ParametersText, ValidItems, ValidParameters;
      PassItems(items, ")" + (more + rest), cur + "(", depth + 1);
      PassGroup(inner, more + rest, cur, depth);
      PassParameters(ps, rest, cur + ("(" + (inner + ")")), depth);
      PassBoth("(" + (inner + ")"), more, rest, cur, depth);
      Nest("(", inner, ")", more);
  }

  lemma PassEntry(e: Entry, rest: string, cur: string, depth: nat)
    requires ValidEntry(e)
    ensures Passes(EntryText(e), rest, cur, depth)
  {
    assert AllNeutral(e.key);
    if e.member.Single? && e.member.item.value == Boolean(true) {
      var more := ParametersText(e.member.item.parameters);
      hide Passes, ParametersText, ValidParameters;
      PassNeutral(e.key, more + rest, cur, depth);
      PassParameters(e.member.item.parameters, rest, cur + e.key, depth);
      PassBoth(e.key, more, rest, cur, depth);
    } else {
      var more := MemberText(e.member);
      hide Passes, MemberText, ValidMember;
      PassNeutral(e.key, "=" + more + rest, cur, depth);
      Associate("=", more, rest);
      PassNeutral("=", more + rest, cur + e.key, depth);
      PassMember(e.member, rest, cur + e.key + "=", depth);
      PassBoth("=", more, rest, cur + e.key, depth);
      PassBoth(e.key, "=" + more, rest, cur, depth);
    }
  }

  // ----- printed members need no trimming and show their label -------------------------------

  predicate Visible(c: char) {
    '!' <= c <= '~'
  }

  /** Visible ends: neither the first nor the last character belongs to white space. */
  predicate Tight(t: string) {
    t != "" && Visible(t[0]) && Visible(t[|t| - 1])
  }

  predicate EndsVisible(t: string) {
    t == "" || Visible(t[|t| - 1])
  }

  lemma VisibleNoSpace(u: string)
    requires u != "" && (Visible(u[0]) || Visible(u[|u| - 1]))
    ensures !SpaceUnit(u)
  {
  }

  lemma NotLeading(t: string)
    requires t != "" && Visible(t[0])
    ensures Leading(t) == 0
  {
    hide SpaceUnit;
    VisibleNoSpace(t[..1]);
    if |t| >= 2 { VisibleNoSpace(t[..2]); }
    if |t| >= 3 { VisibleNoSpace(t[..3]); }
  }

  lemma NotTrailing(t: string)
    requires t != "" && Visible(t[|t| - 1])
    ensures Trailing(t) == 0
  {
    hide SpaceUnit;
    var n := |t|;
    VisibleNoSpace(t[n - 1..]);
    if n >= 2 { VisibleNoSpace(t[n - 2..]); }
    if n >= 3 { VisibleNoSpace(t[n - 3..]); }
  }

  lemma TightUntrimmed(t: string)
    requires Tight(t)
    ensures TrimSpace(t) == t
  {
    NotLeading(t);
    NotTrailing(t);
    hide Leading, Trailing;
  }

  /** A space before a member is trimmed away. */
  lemma SpaceTrimmed(t: string)
    ensures TrimSpace(" " + t) == TrimSpace(t) && TrimLeft(" " + t) == TrimLeft(t)
  {
    var s := " " + t;
    assert s[..1] == " " && s[1..] == t;
    assert Leading(s) == 1;
  }

  lemma {:induction false} DigitsVisible(n: nat)
    ensures Digits(n) != "" && EndsVisible(Digits(n))
  {
    if n >= 10 { DigitsVisible(n / 10); }
  }

  lemma BareEnds(v: BareItem)
    requires Serializable(v)
    ensures BareText(v) != "" && EndsVisible(BareText(v))
  {
    FirstCharacter(v);
    if v.Integer? { DigitsVisible(Abs(v.number)); }
    if v.Decimal? { FractionShape(Abs(v.thousandths) % 1000); }
    hide Digits, Fraction, Escaped, Base64.Encode;
  }

  lemma {:induction false} ParametersEnd(ps: seq<Parameter>)
    requires ValidParameters(ps)
    ensures EndsVisible(ParametersText(ps))
  {
    if ps != [] {
      ParametersEnd(ps[1..]);
      if ps[0].value != Boolean(true) { BareEnds(ps[0].value); }
      hide BareText, Serializable;
    }
  }

  lemma MemberEnd(m: Member)
    requires ValidMember(m)
    ensures MemberText(m) != "" && EndsVisible(MemberText(m))
  {
    match m
    case Single(item) => BareEnds(item.value); ParametersEnd(item.parameters); hide BareText, ParametersText;
    case InnerList(items, ps) => ParametersEnd(ps); hide ItemsText, ParametersText;
  }

  lemma EntryTight(e: Entry)
    requires ValidEntry(e)
    ensures Tight(EntryText(e))
  {
    if e.member.Single? && e.member.item.value == Boolean(true) {
      ParametersEnd(e.member.item.parameters);
      hide ParametersText;
      assert EntryText(e)[0] == e.key[0];
    } else {
      MemberEnd(e.member);
      hide MemberText;
      assert EntryText(e)[0] == e.key[0];
    }
  }

  lemma EntryTail(e: Entry)
    requires ValidEntry(e)
    ensures |e.key| <= |EntryText(e)| && EntryText(e) == e.key + EntryText(e)[|e.key|..]
    ensures Stops(KeyCharacter, EntryText(e)[|e.key|..])
  {
    if e.member.Single? && e.member.item.value == Boolean(true) {
      var more := ParametersText(e.member.item.parameters);
      assert more == "" || more[0] == ';' by { hide BareText; }
      hide ParametersText;
      assert EntryText(e)[|e.key|..] == more;
    } else {
      hide MemberText;
      assert EntryText(e)[|e.key|..] == "=" + MemberText(e.member);
    }
  }

  lemma EntryKey(e: Entry)
    requires ValidEntry(e)
    ensures KeyOf(EntryText(e)) == e.key
  {
    var more := EntryText(e)[|e.key|..];
    assert EntryText(e) == e.key + more by { EntryTail(e); }
    EntryTail(e);
    hide EntryText, ValidMember;
    RunLength(KeyCharacter, e.key, more);
    assert EntryText(e)[0] == e.key[0];
  }

  /** A printed member, with or without a space before it, becomes the current member. */
  lemma FirstMember(e: Entry, space: string, rest: string)
    requires ValidEntry(e) && (space == "" || space == " ")
    ensures Split(space + (EntryText(e) + rest), "", START) == Split(rest, space + EntryText(e), START)
    ensures TrimSpace(space + EntryText(e)) == EntryText(e)
  {
    hide EntryText, TrimSpace, ValidEntry, Split, Tight;
    var t := EntryText(e);
    EntryTight(e);
    TightUntrimmed(t);
    SpaceTrimmed(t);
    if space == "" { assert "" + t == t; }
    assert "" + space == space;
    PassNeutral(space, t + rest, "", 0);
    PassEntry(e, rest, space, 0);
  }

  lemma JoinFirst(entries: seq<Entry>)
    requires entries != []
    ensures Join(EntryTexts(entries), ", ")
      == EntryText(entries[0]) + if |entries| == 1 then "" else "," + (" " + Join(EntryTexts(entries[1..]), ", "))
  {
    hide EntryText;
    assert EntryTexts(entries)[1..] == EntryTexts(entries[1..]);
    if |entries| > 1 {
      assert ", " + Join(EntryTexts(entries[1..]), ", ") == "," + (" " + Join(EntryTexts(entries[1..]), ", "));
    }
  }

  lemma {:induction false} SplitPrinted(entries: seq<Entry>, space: string)
    requires entries != [] && ValidEntries(entries) && (space == "" || space == " ")
    ensures Split(space + Join(EntryTexts(entries), ", "), "", START) == Some(EntryTexts(entries))
    decreases |entries|
  {
    hide EntryText, TrimSpace, ValidEntry, Join;
    var t, rest := EntryText(entries[0]), if |entries| == 1 then "" else "," + (" " + Join(EntryTexts(entries[1..]), ", "));
    JoinFirst(entries);
    FirstMember(entries[0], space, rest);
    if |entries| > 1 {
      SplitPrinted(entries[1..], " ");
      assert rest[1..] == " " + Join(EntryTexts(entries[1..]), ", ");
      assert [t] + EntryTexts(entries[1..]) == EntryTexts(entries);
    } else {
      assert [t] == EntryTexts(entries);
    }
  }

  /**
    The scanner agrees with the serializer: splitting a printed dictionary gives
    exactly its members, in order, with their labels, whatever their strings hold.
   */
  lemma PrinterAgrees(entries: seq<Entry>)
    requires entries != [] && ValidEntries(entries)
    ensures Members(Join(EntryTexts(entries), ", ")) == Some(EntryTexts(entries))
    ensures forall i :: 0 <= i < |entries| ==> Labels(EntryTexts(entries))[i] == entries[i].key
  {
    SplitPrinted(entries, "");
    assert "" + Join(EntryTexts(entries), ", ") == Join(EntryTexts(entries), ", ");
    forall i | 0 <= i < |entries| ensures KeyOf(EntryText(entries[i])) == entries[i].key {
      EntryKey(entries[i]);
    }
  }

  /** A printed dictionary is accepted exactly when its labels are distinct. */
  lemma PrintedAccepted(entries: seq<Entry>)
    requires entries != [] && ValidEntries(entries)
    ensures Accepts([Join(EntryTexts(entries), ", ")])
      <==> forall i, j :: 0 <= i < j < |entries| ==> entries[i].key != entries[j].key
  {
    PrinterAgrees(entries);
    hide Members, EntryText;
    var labels := Labels(EntryTexts(entries));
    assert |labels| == |entries| && forall i :: 0 <= i < |entries| ==> labels[i] == entries[i].key;
  }

  // ----- one comma or a comma and a space between the field lines --------------------------------

  /** Two scans fail together, or find equally many members with the same labels. */
  ghost predicate SameLabels(a: Option<seq<string>>, b: Option<seq<string>>) {
    && a.Some? == b.Some?
    && (a.Some? ==> Labels(a.value) == Labels(b.value))
  }

  /** `text` holds a character that can start a string or an inner list. */
  ghost predicate Opened(text: string) {
    exists i :: 0 <= i < |text| && (text[i] == '"' || text[i] == '(')
  }

  /** The label a member will show once its white space has been trimmed. */
  function RawKey(member: string): string {
    KeyRun(TrimLeft(member))
  }

  lemma SpaceIsNoKey(u: string, i: nat)
    requires SpaceUnit(u) && i < |u|
    ensures !KeyCharacter(u[i]) && u[i] != '"' && u[i] != '('
  {
  }

  lemma {:induction false} RunStops(p: char -> bool, a: string, r: string)
    requires Stops(p, r)
    ensures Run(p, a + r) == Run(p, a)
  {
    if a == "" {
      assert a + r == r;
    } else {
      assert (a + r)[1..] == a[1..] + r;
      RunStops(p, a[1..], r);
    }
  }

  lemma KeyRunStops(a: string, r: string)
    requires Stops(KeyCharacter, r)
    ensures KeyRun(a + r) == KeyRun(a)
  {
    RunStops(KeyCharacter, a, r);
    if a == "" { assert a + r == r; }
    if a != "" && KeyStart(a[0]) {
      RunBound(a);
      assert (a + r)[..Run(KeyCharacter, a)] == a[..Run(KeyCharacter, a)];
    }
  }

  lemma {:induction false} TrimRightKey(s: string)
    ensures KeyRun(TrimRight(s)) == KeyRun(s) && TrimRight(s) <= s
    decreases |s|
  {
    var w := Trailing(s);
    if w > 0 {
      var a, u := s[..|s| - w], s[|s| - w..];
      SpaceIsNoKey(u, 0);
      assert s == a + u;
      hide KeyRun, SpaceUnit;
      KeyRunStops(a, u);
      TrimRightKey(a);
    }
  }

  lemma {:induction false} TrimLeftDone(s: string)
    ensures Leading(TrimLeft(s)) == 0
    decreases |s|
  {
    if Leading(s) > 0 { TrimLeftDone(s[Leading(s)..]); }
  }

  lemma NoBlank(t: string)
    requires Leading(t) == 0
    ensures t == "" || (t[0] != ' ' && t[0] != '\t')
  {
    if t != "" { assert t[..1] == [t[0]]; }
  }

  lemma TrimmedKey(member: string)
    ensures KeyOf(TrimSpace(member)) == RawKey(member)
  {
    var t := TrimLeft(member);
    TrimLeftDone(member);
    TrimRightKey(t);
    NoBlank(t);
    hide TrimLeft, TrimRight, KeyRun, Leading;
  }

  lemma LeadingOpened(p: string, x: string)
    requires Opened(p)
    ensures Leading(p + x) == Leading(p) && Opened(p[Leading(p)..])
  {
    var k :| 0 <= k < |p| && (p[k] == '"' || p[k] == '(');
    var s := p + x;
    forall w | 1 <= w <= 3 && w <= |s|
      ensures SpaceUnit(s[..w]) ==> w <= k && s[..w] == p[..w]
    {
      if SpaceUnit(s[..w]) && k < w { SpaceIsNoKey(s[..w], k); }
    }
    var w := Leading(p);
    if w > 0 && k < w { SpaceIsNoKey(p[..w], k); }
    forall w | 1 <= w <= |p| ensures s[..w] == p[..w] {}
    assert p[w..][k - w] == p[k];
    hide SpaceUnit;
  }

  lemma {:induction false} TrimLeftOpened(p: string, x: string)
    requires Opened(p)
    ensures TrimLeft(p + x) == TrimLeft(p) + x && Opened(TrimLeft(p))
    decreases |p|
  {
    var w := Leading(p);
    LeadingOpened(p, x);
    if w > 0 {
      assert (p + x)[w..] == p[w..] + x;
      hide Leading, Opened;
      TrimLeftOpened(p[w..], x);
    }
  }

  lemma {:induction false} KeyRunOpened(p: string, x: string)
    requires Opened(p)
    ensures KeyRun(p + x) == KeyRun(p)
  {
    var k :| 0 <= k < |p| && (p[k] == '"' || p[k] == '(');
    var a, r := p[..k], p[k..];
    assert p == a + r && p + x == a + (r + x);
    hide KeyRun;
    KeyRunStops(a, r);
    KeyRunStops(a, r + x);
  }

  /** After an opening character the label is settled. */
  lemma RawKeyOpened(p: string, x: string)
    requires Opened(p)
    ensures RawKey(p + x) == RawKey(p)
  {
    hide KeyRun, Opened;
    TrimLeftOpened(p, x);
    KeyRunOpened(TrimLeft(p), x);
  }

  /** The two current members show one label. */
  lemma TwinKeys(p: string, space: string, x: string, y: string)
    requires space == "" || space == " "
    requires Opened(p) || x == y == ""
    ensures KeyOf(TrimSpace(p + x)) == KeyOf(TrimSpace(space + (p + y)))
  {
    hide KeyOf, TrimSpace, KeyRun, TrimLeft;
    TrimmedKey(p + x);
    TrimmedKey(space + (p + y));
    SpaceTrimmed(p + y);
    if space == "" { assert space + (p + y) == p + y; }
    if Opened(p) {
      RawKeyOpened(p, x);
      RawKeyOpened(p, y);
    }
  }

  /** The lines of a field that are still to come, each after the separator. */
  function Following(lines: seq<string>, separator: string): string {
    if lines == [] then "" else separator + (lines[0] + Following(lines[1..], separator))
  }

  lemma {:induction false} JoinFollowing(lines: seq<string>, separator: string)
    requires lines != []
    ensures Join(lines, separator) == lines[0] + Following(lines[1..], separator)
  {
    if |lines| == 1 {
      assert lines[0] + "" == lines[0];
    } else {
      JoinFollowing(lines[1..], separator);
      Associate(lines[0], separator, Join(lines[1..], separator));
    }
  }

  lemma StepOf(c: char, rest: string, cur: string, mode: Mode)
    ensures Cuts(c, mode) ==> Split([c] + rest, cur, mode) == Prepend([TrimSpace(cur)], Split(rest, "", START))
    ensures !Cuts(c, mode) && Next(c, mode).depth < 0 ==> Split([c] + rest, cur, mode) == None
    ensures !Cuts(c, mode) && Next(c, mode).depth >= 0 ==> Split([c] + rest, cur, mode) == Split(rest, cur + [c], Next(c, mode))
  {
    hide TrimSpace;
    assert ([c] + rest)[1..] == rest;
  }

  lemma PrependSame(m: string, n: string, a: Option<seq<string>>, b: Option<seq<string>>)
    requires KeyOf(m) == KeyOf(n) && SameLabels(a, b)
    ensures SameLabels(Prepend([m], a), Prepend([n], b))
  {
    hide KeyOf;
    if a.Some? {
      var x, y := Labels(a.value), Labels(b.value);
      assert Labels([m] + a.value) == [KeyOf(m)] + x;
      assert Labels([n] + b.value) == [KeyOf(n)] + y;
    }
  }

  lemma OpenedMore(p: string, x: string)
    ensures Opened(p) || Opened(x) ==> Opened(p + x)
  {
    if Opened(p) {
      var k :| 0 <= k < |p| && (p[k] == '"' || p[k] == '(');
      assert (p + x)[k] == p[k];
    }
    if Opened(x) {
      var k :| 0 <= k < |x| && (x[k] == '"' || x[k] == '(');
      assert (p + x)[|p| + k] == x[k];
    }
  }

  /** How the common and the separate part of a pair of members grow by one character. */
  lemma Grow(p: string, space: string, x: string, y: string, c: char, mode: Mode)
    returns (p': string, x': string, y': string)
    requires Opened(p) || (x == y == "" && mode == START)
    requires !Cuts(c, mode) && Next(c, mode).depth >= 0
    ensures p + x + [c] == p' + x' && space + (p + y) + [c] == space + (p' + y')
    ensures Opened(p') || (x' == y' == "" && Next(c, mode) == START)
  {
    if Opened(p) {
      p', x', y' := p, x + [c], y + [c];
      Associate(p, x, [c]);
      Associate(p, y, [c]);
      Associate(space, p + y, [c]);
    } else {
      p', x', y' := p + [c], "", "";
      assert p + x == p && p + y == p && p' + x' == p' && p' + y' == p';
      Associate(space, p, [c]);
      if c == '"' || c == '(' {
        assert [c][0] == c && Opened([c]);
        OpenedMore(p, [c]);
      }
    }
  }

  lemma SplitDone(cur: string, mode: Mode)
    ensures Split("", cur, mode) == if mode == START then Some([TrimSpace(cur)]) else None
  {
    hide TrimSpace;
  }

  lemma OneSame(m: string, n: string)
    requires KeyOf(m) == KeyOf(n)
    ensures SameLabels(Some([m]), Some([n]))
  {
    hide KeyOf;
    assert Labels([m]) == [KeyOf(m)] && Labels([n]) == [KeyOf(n)];
  }

  lemma BothFail()
    ensures SameLabels(None, None)
  {
  }

  lemma TwinEnd(p: string, space: string, x: string, y: string, mode: Mode)
    requires space == "" || space == " "
    requires Opened(p) || x == y == ""
    ensures SameLabels(Split("", p + x, mode), Split("", space + (p + y), mode))
  {
    hide Split, TrimSpace, KeyOf, Opened, SameLabels, Labels;
    SplitDone(p + x, mode);
    SplitDone(space + (p + y), mode);
    TwinKeys(p, space, x, y);
    OneSame(TrimSpace(p + x), TrimSpace(space + (p + y)));
    BothFail();
  }

  /**
    The scan of a field joined by single commas and the scan of the same lines
    joined by a comma and a space.  Their current members are `p + x` and
    `space + (p + y)`; they differ only behind an opening character.
   */
  lemma {:induction false} Twin(text: string, lines: seq<string>, p: string, space: string, x: string, y: string, mode: Mode)
    requires space == "" || space == " "
    requires Opened(p) || (x == y == "" && mode == START)
    ensures SameLabels(Split(text + Following(lines, ","), p + x, mode),
                       Split(text + Following(lines, ", "), space + (p + y), mode))
    decreases |lines|, |text|
  {
    hide Split, TrimSpace, KeyOf, Opened, SameLabels, Prepend;
    if text != "" {
      TwinText(text, lines, p, space, x, y, mode);
    } else if lines != [] {
      TwinLine(lines, p, space, x, y, mode);
      assert "" + Following(lines, ",") == Following(lines, ",") && "" + Following(lines, ", ") == Following(lines, ", ");
    } else {
      TwinEnd(p, space, x, y, mode);
      assert "" + "" == "";
    }
  }

  lemma TwinText(text: string, lines: seq<string>, p: string, space: string, x: string, y: string, mode: Mode)
    requires text != "" && (space == "" || space == " ")
    requires Opened(p) || (x == y == "" && mode == START)
    ensures SameLabels(Split(text + Following(lines, ","), p + x, mode),
                       Split(text + Following(lines, ", "), space + (p + y), mode))
    decreases |lines|, |text|, 0
  {
    hide Split, TrimSpace, KeyOf, Opened, SameLabels, Prepend, Following, Next;
    var c, more := text[0], text[1..];
    var s, t := more + Following(lines, ","), more + Following(lines, ", ");
    assert text + Following(lines, ",") == [c] + s && text + Following(lines, ", ") == [c] + t;
    StepOf(c, s, p + x, mode);
    StepOf(c, t, space + (p + y), mode);
    if Cuts(c, mode) {
      TwinKeys(p, space, x, y);
      assert "" + "" == "" && "" + ("" + "") == "";
      Twin(more, lines, "", "", "", "", START);
      PrependSame(TrimSpace(p + x), TrimSpace(space + (p + y)), Split(s, "", START), Split(t, "", START));
    } else if Next(c, mode).depth < 0 {
      BothFail();
    } else {
      var p', x', y' := Grow(p, space, x, y, c, mode);
      Twin(more, lines, p', space, x', y', Next(c, mode));
    }
  }

  lemma CommaInside(mode: Mode)
    requires mode != START
    ensures !Cuts(',', mode) && Next(',', mode).depth == mode.depth
    ensures !Cuts(' ', Next(',', mode)) && Next(' ', Next(',', mode)) == Next(',', mode)
  {
  }

  lemma CommaCuts()
    ensures Cuts(',', START) && !Cuts(' ', START) && Next(' ', START) == START
  {
  }

  lemma TwinLine(lines: seq<string>, p: string, space: string, x: string, y: string, mode: Mode)
    requires lines != [] && (space == "" || space == " ")
    requires Opened(p) || (x == y == "" && mode == START)
    ensures SameLabels(Split(Following(lines, ","), p + x, mode), Split(Following(lines, ", "), space + (p + y), mode))
    decreases |lines|, 0, 1
  {
    hide Split, TrimSpace, KeyOf, Opened, SameLabels, Prepend, Next, Cuts;
    var s, t := lines[0] + Following(lines[1..], ","), lines[0] + Following(lines[1..], ", ");
    assert Following(lines, ",") == [','] + s && Following(lines, ", ") == [','] + ([' '] + t);
    var m, n := p + x, space + (p + y);
    StepOf(',', s, m, mode);
    StepOf(',', [' '] + t, n, mode);
    if mode == START {
      CommaCuts();
      StepOf(' ', t, "", START);
      TwinKeys(p, space, x, y);
      assert "" + [' '] == " " && " " + ("" + "") == " " && "" + "" == "";
      Twin(lines[0], lines[1..], "", " ", "", "", START);
      PrependSame(TrimSpace(m), TrimSpace(n), Split(s, "", START), Split([' '] + t, "", START));
    } else {
      CommaInside(mode);
      var next := Next(',', mode);
      if next.depth < 0 {
        BothFail();
      } else {
        StepOf(' ', t, n + [','], next);
        Associate(p, x, [',']);
        assert n + [','] + [' '] == space + (p + (y + ", "));
        Twin(lines[0], lines[1..], p, space, x + [','], y + ", ", next);
      }
    }
  }

  /** The duplicate check of the lines a parser would join with a comma and a space. */
  predicate AcceptsCombined(values: seq<string>) {
    var members := Members(Join(values, ", "));
    members.Some? && DistinctLabels(Labels(members.value))
  }

  /**
    The duplicate check joins the field lines with a comma, the parser with a
    comma and a space.  Both see the same labels in the same order, or both fail,
    even where a line ends inside a string or an inner list.
   */
  lemma JoinsAgree(values: seq<string>)
    ensures SameLabels(Members(Join(values, ",")), Members(Join(values, ", ")))
    ensures Accepts(values) <==> AcceptsCombined(values)
  {
    hide Split, KeyOf, DistinctLabels;
    if values != [] {
      JoinFollowing(values, ",");
      JoinFollowing(values, ", ");
      assert "" + "" == "" && "" + ("" + "") == "";
      Twin(values[0], values[1..], "", "", "", "", START);
    }
  }
}
