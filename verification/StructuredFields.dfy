/**
  Structured field values and their canonical text (section 4.1 of RFC 8941),
  which is what httpsfv.Marshal produces.  The canonical text is uniquely
  decodable: what follows a value, a parameter list or an inner list can always
  be told apart from it.
 */
module StructuredFields {
  import opened Basics
  import Base64

  /** A Go parameter value; `Foreign` stands for a value of any unsupported type. */
  datatype BareItem =
    | Boolean(flag: bool)
    | Text(chars: string)
    | Integer(number: int)
    | Decimal(thousandths: int)
    | Binary(octets: seq<byte>)
    | Token(name: string)
    | Foreign

  datatype Parameter = Parameter(name: string, value: BareItem)

  datatype Item = Item(value: BareItem, parameters: seq<Parameter>)

  datatype Member =
    | Single(item: Item)
    | InnerList(items: seq<Item>, parameters: seq<Parameter>)

  datatype Entry = Entry(key: string, member: Member)

  // ----- characters ------------------------------------------------------------

  /** isKeyStart */
  predicate KeyStart(c: char) {
    c == '*' || 'a' <= c <= 'z'
  }

  /** isKeyCharacter */
  predicate KeyCharacter(c: char) {
    KeyStart(c) || '0' <= c <= '9' || c == '_' || c == '-' || c == '.'
  }

  predicate ValidKey(name: string) {
    name != "" && KeyStart(name[0]) && forall i :: 0 <= i < |name| ==> KeyCharacter(name[i])
  }

  predicate Alpha(c: char) {
    'a' <= c <= 'z' || 'A' <= c <= 'Z'
  }

  predicate Digit(c: char) {
    '0' <= c <= '9'
  }

  predicate TokenCharacter(c: char) {
    || Alpha(c) || Digit(c) || c == '!' || c == '#' || c == '$' || c == '%' || c == '&' || c == '\'' || c == '*'
    || c == '+' || c == '-' || c == '.' || c == '^' || c == '_' || c == '`' || c == '|' || c == '~' || c == ':' || c == '/'
  }

  predicate Printable(c: char) {
    ' ' <= c <= '~'
  }

  // ----- canonical text ------------------------------------------------------------

  function DigitOf(n: nat): char
    requires n < 10
    ensures Digit(DigitOf(n))
  {
    '0' + n as char
  }

  function Digits(n: nat): string {
    if n < 10 then [DigitOf(n)] else Digits(n / 10) + [DigitOf(n % 10)]
  }

  function Abs(n: int): nat {
    if n < 0 then -n else n
  }

  function Sign(n: int): string {
    if n < 0 then "-" else ""
  }

  /** At least one and at most three decimals, without trailing zeros. */
  function Decimals(a: nat, b: nat, c: nat): string
    requires a < 10 && b < 10 && c < 10
  {
    if c > 0 then [DigitOf(a), DigitOf(b), DigitOf(c)]
    else if b > 0 then [DigitOf(a), DigitOf(b)]
    else [DigitOf(a)]
  }

  function Fraction(f: nat): string
    requires f < 1000
  {
    Decimals(f / 10 / 10, f / 10 % 10, f % 10)
  }

  function Escaped(s: string): string {
    if s == "" then ""
    else (if s[0] == '"' || s[0] == '\\' then ['\\', s[0]] else [s[0]]) + Escaped(s[1..])
  }

  function BareText(v: BareItem): string {
    match v
    case Boolean(flag) => if flag then "?1" else "?0"
    case Text(chars) => "\"" + (Escaped(chars) + "\"")
    case Integer(n) => Sign(n) + Digits(Abs(n))
    case Decimal(t) => Sign(t) + (Digits(Abs(t) / 1000) + ("." + Fraction(Abs(t) % 1000)))
    case Binary(octets) => ":" + (Base64.Encode(octets) + ":")
    case Token(name) => name
    case Foreign => ""
  }

  /** The values that section 4.1 of RFC 8941 can serialize. */
  predicate Serializable(v: BareItem) {
    match v
    case Boolean(_) => true
    case Text(chars) => forall i :: 0 <= i < |chars| ==> Printable(chars[i])
    case Integer(n) => Abs(n) <= 999_999_999_999_999
    case Decimal(t) => Abs(t) <= 999_999_999_999_999
    case Binary(_) => true
    case Token(name) =>
      name != "" && (Alpha(name[0]) || name[0] == '*') && forall i :: 0 <= i < |name| ==> TokenCharacter(name[i])
    case Foreign => false
  }

  function ParameterText(p: Parameter): string {
    ";" + (p.name + if p.value == Boolean(true) then "" else "=" + BareText(p.value))
  }

  function ParametersText(ps: seq<Parameter>): string {
    if ps == [] then "" else ParameterText(ps[0]) + ParametersText(ps[1..])
  }

  predicate ValidParameter(p: Parameter) {
    ValidKey(p.name) && Serializable(p.value)
  }

  predicate ValidParameters(ps: seq<Parameter>) {
    forall i :: 0 <= i < |ps| ==> ValidParameter(ps[i])
  }

  function ItemText(item: Item): string {
    BareText(item.value) + ParametersText(item.parameters)
  }

  predicate ValidItem(item: Item) {
    Serializable(item.value) && ValidParameters(item.parameters)
  }

  function ItemsText(items: seq<Item>): string {
    if items == [] then ""
    else if |items| == 1 then ItemText(items[0])
    else ItemText(items[0]) + (" " + ItemsText(items[1..]))
  }

  predicate ValidItems(items: seq<Item>) {
    forall i :: 0 <= i < |items| ==> ValidItem(items[i])
  }

  function ListText(items: seq<Item>, ps: seq<Parameter>): string {
    "(" + (ItemsText(items) + (")" + ParametersText(ps)))
  }

  function MemberText(m: Member): string {
    match m
    case Single(item) => ItemText(item)
    case InnerList(items, ps) => ListText(items, ps)
  }

  predicate ValidMember(m: Member) {
    match m
    case Single(item) => ValidItem(item)
    case InnerList(items, ps) => ValidItems(items) && ValidParameters(ps)
  }

  /** A dictionary member; the value of a member that is simply true is left out. */
  function EntryText(e: Entry): string {
    if e.member.Single? && e.member.item.value == Boolean(true)
    then e.key + ParametersText(e.member.item.parameters)
    else e.key + ("=" + MemberText(e.member))
  }

  predicate ValidEntry(e: Entry) {
    ValidKey(e.key) && ValidMember(e.member)
  }

  function MemberTexts(members: seq<Member>): seq<string> {
    seq(|members|, i requires 0 <= i < |members| => MemberText(members[i]))
  }

  predicate ValidMembers(members: seq<Member>) {
    forall i :: 0 <= i < |members| ==> ValidMember(members[i])
  }

  function EntryTexts(entries: seq<Entry>): seq<string> {
    seq(|entries|, i requires 0 <= i < |entries| => EntryText(entries[i]))
  }

  predicate ValidEntries(entries: seq<Entry>) {
    forall i :: 0 <= i < |entries| ==> ValidEntry(entries[i])
  }

  // ----- numbers ---------------------------------------------------------------------

  lemma {:induction false} DigitsShape(n: nat)
    ensures Digits(n) != "" && AllIn(Digit, Digits(n))
  {
    if n >= 10 { DigitsShape(n / 10); }
  }

  lemma {:induction false} DigitsInjective(a: nat, b: nat)
    requires Digits(a) == Digits(b)
    ensures a == b
  {
    var s, t := Digits(a), Digits(b);
    DigitsShape(a / 10);
    DigitsShape(b / 10);
    assert s[|s| - 1] == t[|t| - 1];
    if a >= 10 && b >= 10 {
      assert s[..|s| - 1] == Digits(a / 10) && t[..|t| - 1] == Digits(b / 10);
      DigitsInjective(a / 10, b / 10);
    }
  }

  lemma DecimalsInjective(a: nat, b: nat, c: nat, x: nat, y: nat, z: nat)
    requires a < 10 && b < 10 && c < 10 && x < 10 && y < 10 && z < 10
    requires Decimals(a, b, c) == Decimals(x, y, z)
    ensures a == x && b == y && c == z
  {
    var s, t := Decimals(a, b, c), Decimals(x, y, z);
    assert s[0] == t[0] && (|s| > 1 ==> s[1] == t[1]) && (|s| > 2 ==> s[2] == t[2]);
  }

  lemma FractionShape(f: nat)
    requires f < 1000
    ensures Fraction(f) != "" && AllIn(Digit, Fraction(f))
  {
  }

  lemma ThreeDigits(f: nat)
    ensures f == (f / 10 / 10 * 10 + f / 10 % 10) * 10 + f % 10
  {
  }

  lemma FractionInjective(f: nat, g: nat)
    requires f < 1000 && g < 1000 && Fraction(f) == Fraction(g)
    ensures f == g
  {
    hide Decimals;
    DecimalsInjective(f / 10 / 10, f / 10 % 10, f % 10, g / 10 / 10, g / 10 % 10, g % 10);
    ThreeDigits(f);
    ThreeDigits(g);
  }

  // ----- unique decodability ------------------------------------------------------------

  /** What may follow a bare item. */
  predicate Ends(rest: string) {
    rest == "" || rest[0] == ';' || rest[0] == ' ' || rest[0] == ')' || rest[0] == ','
  }

  /** What may follow a parameter list. */
  predicate EndsList(rest: string) {
    Ends(rest) && (rest == "" || rest[0] != ';')
  }

  lemma {:induction false} EscapedUnique(s: string, r: string, t: string, u: string)
    requires Escaped(s) + ("\"" + r) == Escaped(t) + ("\"" + u)
    ensures s == t && r == u
  {
    var a, b := Escaped(s) + ("\"" + r), Escaped(t) + ("\"" + u);
    if s == "" || t == "" {
      assert a[0] == b[0];
      assert a[1..] == b[1..];
      assert s == "" ==> a[1..] == r;
      assert t == "" ==> b[1..] == u;
    } else {
      var k := if s[0] == '"' || s[0] == '\\' then 2 else 1;
      assert a[0] == b[0] && (k == 2 ==> a[1] == b[1]);
      assert a[k..] == Escaped(s[1..]) + ("\"" + r) && b[k..] == Escaped(t[1..]) + ("\"" + u);
      EscapedUnique(s[1..], r, t[1..], u);
    }
  }

  lemma NumberUnique(a: nat, r: string, b: nat, t: string)
    requires Stops(Digit, r) && Stops(Digit, t) && Digits(a) + r == Digits(b) + t
    ensures a == b && r == t
  {
    DigitsShape(a);
    DigitsShape(b);
    MaximalRunUnique(Digit, Digits(a), r, Digits(b), t);
    DigitsInjective(a, b);
  }

  // A number is its sign, the digits of its whole part and the rest of its magnitude.

  function Signed(v: BareItem): int
    requires v.Integer? || v.Decimal?
  {
    if v.Integer? then v.number else v.thousandths
  }

  function Whole(v: BareItem): nat
    requires v.Integer? || v.Decimal?
  {
    if v.Integer? then Abs(v.number) else Abs(v.thousandths) / 1000
  }

  function Rest(v: BareItem): string
    requires v.Integer? || v.Decimal?
  {
    if v.Integer? then "" else "." + Fraction(Abs(v.thousandths) % 1000)
  }

  lemma NumericText(v: BareItem, r: string)
    requires v.Integer? || v.Decimal?
    ensures BareText(v) + r == Sign(Signed(v)) + (Digits(Whole(v)) + (Rest(v) + r))
  {
    hide Digits, Fraction, Sign;
    assert Digits(Whole(v)) + "" == Digits(Whole(v));
    Nest(Sign(Signed(v)), Digits(Whole(v)), Rest(v), r);
  }

  lemma SignUnique(n: int, s: string, m: int, t: string)
    requires s != "" && t != "" && Digit(s[0]) && Digit(t[0]) && Sign(n) + s == Sign(m) + t
    ensures (n < 0) == (m < 0) && s == t
  {
    assert (Sign(n) + s)[0] == (Sign(m) + t)[0];
    Cancel(Sign(n), s, t);
  }

  lemma RestUnique(v: BareItem, r: string, w: BareItem, t: string)
    requires (v.Integer? || v.Decimal?) && (w.Integer? || w.Decimal?) && Ends(r) && Ends(t)
    requires Rest(v) + r == Rest(w) + t
    ensures v.Integer? == w.Integer? && r == t
    ensures v.Decimal? && w.Decimal? ==> Abs(v.thousandths) % 1000 == Abs(w.thousandths) % 1000
  {
    hide Fraction;
    if v.Decimal? && w.Decimal? {
      var f, g := Abs(v.thousandths) % 1000, Abs(w.thousandths) % 1000;
      Associate(".", Fraction(f), r);
      Associate(".", Fraction(g), t);
      Cancel(".", Fraction(f) + r, Fraction(g) + t);
      FractionShape(f);
      FractionShape(g);
      MaximalRunUnique(Digit, Fraction(f), r, Fraction(g), t);
      FractionInjective(f, g);
    } else {
      assert v.Integer? ==> Rest(v) + r == r;
      assert w.Integer? ==> Rest(w) + t == t;
    }
  }

  lemma RestStops(v: BareItem, r: string)
    requires (v.Integer? || v.Decimal?) && Ends(r)
    ensures Stops(Digit, Rest(v) + r)
  {
    hide Fraction;
    assert v.Integer? ==> Rest(v) + r == r;
  }

  lemma NumericUnique(v: BareItem, r: string, w: BareItem, t: string)
    requires (v.Integer? || v.Decimal?) && (w.Integer? || w.Decimal?) && Ends(r) && Ends(t)
    requires BareText(v) + r == BareText(w) + t
    ensures v == w && r == t
  {
    DigitsShape(Whole(v));
    DigitsShape(Whole(w));
    NumericText(v, r);
    NumericText(w, t);
    RestStops(v, r);
    RestStops(w, t);
    hide BareText, Digits, Sign, Rest;
    SignUnique(Signed(v), Digits(Whole(v)) + (Rest(v) + r), Signed(w), Digits(Whole(w)) + (Rest(w) + t));
    NumberUnique(Whole(v), Rest(v) + r, Whole(w), Rest(w) + t);
    RestUnique(v, r, w, t);
  }

  predicate Base64Character(c: char) {
    c != ':'
  }

  lemma BinaryUnique(a: seq<byte>, r: string, b: seq<byte>, t: string)
    requires Base64.Encode(a) + (":" + r) == Base64.Encode(b) + (":" + t)
    ensures a == b && r == t
  {
    Base64.EncodeNoColon(a);
    Base64.EncodeNoColon(b);
    Base64.RoundTrip(a);
    Base64.RoundTrip(b);
    hide Base64.Encode, Base64.StdDecode;
    MaximalRunUnique(Base64Character, Base64.Encode(a), ":" + r, Base64.Encode(b), ":" + t);
    Cancel(":", r, t);
  }

  /** The kind of a value shows in its first character. */
  lemma FirstCharacter(v: BareItem)
    requires Serializable(v)
    ensures BareText(v) != ""
    ensures var c := BareText(v)[0];
      && (v.Boolean? <==> c == '?') && (v.Text? <==> c == '"') && (v.Binary? <==> c == ':')
      && (v.Token? <==> Alpha(c) || c == '*') && (v.Integer? || v.Decimal? <==> Digit(c) || c == '-')
  {
    hide Base64.Encode, Escaped, Fraction, TokenCharacter, Printable;
    if v.Integer? || v.Decimal? {
      DigitsShape(Whole(v));
      hide Digits;
      NumericText(v, "");
      assert BareText(v) + "" == BareText(v);
    }
  }

  lemma DelimitedUnique(quote: string, a: string, r: string, b: string, t: string)
    requires (quote + (a + quote)) + r == (quote + (b + quote)) + t
    ensures a + (quote + r) == b + (quote + t)
  {
    Nest(quote, a, quote, r);
    Nest(quote, b, quote, t);
    Cancel(quote, a + (quote + r), b + (quote + t));
  }

  lemma BareUnique(v: BareItem, r: string, w: BareItem, t: string)
    requires Serializable(v) && Serializable(w) && Ends(r) && Ends(t)
    requires BareText(v) + r == BareText(w) + t
    ensures v == w && r == t
  {
    FirstCharacter(v);
    FirstCharacter(w);
    assert BareText(v)[0] == (BareText(v) + r)[0] && BareText(w)[0] == (BareText(w) + t)[0];
    hide Base64.Encode, Escaped, Fraction, Digits, Printable;
    if v.Boolean? {
      assert (BareText(v) + r)[1] == (BareText(w) + t)[1];
      Cancel(BareText(v), r, t);
    } else if v.Text? {
      DelimitedUnique("\"", Escaped(v.chars), r, Escaped(w.chars), t);
      EscapedUnique(v.chars, r, w.chars, t);
    } else if v.Binary? {
      DelimitedUnique(":", Base64.Encode(v.octets), r, Base64.Encode(w.octets), t);
      BinaryUnique(v.octets, r, w.octets, t);
    } else if v.Token? {
      MaximalRunUnique(TokenCharacter, v.name, r, w.name, t);
    } else {
      NumericUnique(v, r, w, t);
    }
  }

  /** What follows the name of a parameter. */
  function Assigned(p: Parameter, r: string): string {
    if p.value == Boolean(true) then r else "=" + (BareText(p.value) + r)
  }

  lemma ParameterSplit(p: Parameter, r: string)
    ensures ParameterText(p) + r == ";" + (p.name + Assigned(p, r))
  {
    hide BareText;
    if p.value == Boolean(true) {
      assert p.name + "" == p.name;
    } else {
      Nest(";", p.name, "=" + BareText(p.value), r);
      Associate("=", BareText(p.value), r);
    }
  }

  lemma ParameterUnique(p: Parameter, r: string, q: Parameter, t: string)
    requires ValidParameter(p) && ValidParameter(q) && Ends(r) && Ends(t)
    requires ParameterText(p) + r == ParameterText(q) + t
    ensures p == q && r == t
  {
    ParameterSplit(p, r);
    ParameterSplit(q, t);
    hide BareText, ParameterText, Serializable;
    Cancel(";", p.name + Assigned(p, r), q.name + Assigned(q, t));
    MaximalRunUnique(KeyCharacter, p.name, Assigned(p, r), q.name, Assigned(q, t));
    if p.value != Boolean(true) && q.value != Boolean(true) {
      Cancel("=", BareText(p.value) + r, BareText(q.value) + t);
      BareUnique(p.value, r, q.value, t);
    }
  }

  /** Whether a parameter follows shows in the next character. */
  lemma ParametersFirst(ps: seq<Parameter>, r: string)
    requires EndsList(r)
    ensures Ends(ParametersText(ps) + r)
    ensures var s := ParametersText(ps) + r; ps != [] <==> s != "" && s[0] == ';'
  {
    hide BareText;
    if ps == [] { assert "" + r == r; }
  }

  lemma {:induction false} ParametersUnique(ps: seq<Parameter>, r: string, qs: seq<Parameter>, t: string)
    requires ValidParameters(ps) && ValidParameters(qs) && EndsList(r) && EndsList(t)
    requires ParametersText(ps) + r == ParametersText(qs) + t
    ensures ps == qs && r == t
  {
    ParametersFirst(ps, r);
    ParametersFirst(qs, t);
    if ps == [] {
      assert "" + r == r && "" + t == t;
    } else {
      var a, b := ParametersText(ps[1..]) + r, ParametersText(qs[1..]) + t;
      Associate(ParameterText(ps[0]), ParametersText(ps[1..]), r);
      Associate(ParameterText(qs[0]), ParametersText(qs[1..]), t);
      ParametersFirst(ps[1..], r);
      ParametersFirst(qs[1..], t);
      hide ParameterText, ValidParameter;
      ParameterUnique(ps[0], a, qs[0], b);
      ParametersUnique(ps[1..], r, qs[1..], t);
    }
  }

  lemma ItemUnique(x: Item, r: string, y: Item, t: string)
    requires ValidItem(x) && ValidItem(y) && EndsList(r) && EndsList(t)
    requires ItemText(x) + r == ItemText(y) + t
    ensures x == y && r == t
  {
    ParametersFirst(x.parameters, r);
    ParametersFirst(y.parameters, t);
    Associate(BareText(x.value), ParametersText(x.parameters), r);
    Associate(BareText(y.value), ParametersText(y.parameters), t);
    hide BareText, ParametersText, Serializable, ValidParameters;
    BareUnique(x.value, ParametersText(x.parameters) + r, y.value, ParametersText(y.parameters) + t);
    ParametersUnique(x.parameters, r, y.parameters, t);
  }

  /** What follows the first of several items, up to the end of the inner list. */
  function AfterItem(xs: seq<Item>, r: string): string
    requires xs != []
  {
    if |xs| == 1 then ")" + r else " " + (ItemsText(xs[1..]) + (")" + r))
  }

  lemma ItemsSplit(xs: seq<Item>, r: string)
    requires xs != []
    ensures ItemsText(xs) + (")" + r) == ItemText(xs[0]) + AfterItem(xs, r)
  {
    hide ItemText;
    if |xs| > 1 {
      Nest(ItemText(xs[0]), " ", ItemsText(xs[1..]), ")" + r);
    }
  }

  /** An inner list is empty exactly when a parenthesis comes first. */
  lemma ItemsFirst(xs: seq<Item>, r: string)
    requires ValidItems(xs)
    ensures var s := ItemsText(xs) + (")" + r); s != "" && (s[0] == ')' <==> xs == [])
  {
    if xs != [] {
      FirstCharacter(xs[0].value);
      hide BareText, Serializable, ParametersText;
    }
  }

  /** The items of an inner list, up to its closing parenthesis, are uniquely splittable. */
  lemma {:induction false} ItemsUnique(xs: seq<Item>, r: string, ys: seq<Item>, t: string)
    requires ValidItems(xs) && ValidItems(ys)
    requires ItemsText(xs) + (")" + r) == ItemsText(ys) + (")" + t)
    ensures xs == ys && r == t
  {
    ItemsFirst(xs, r);
    ItemsFirst(ys, t);
    if xs == [] {
      assert "" + (")" + r) == ")" + r && "" + (")" + t) == ")" + t;
      Cancel(")", r, t);
    } else {
      ItemsSplit(xs, r);
      ItemsSplit(ys, t);
      hide ItemText, ItemsText, ValidItem;
      ItemUnique(xs[0], AfterItem(xs, r), ys[0], AfterItem(ys, t));
      if |xs| == 1 {
        Cancel(")", r, t);
      } else {
        Cancel(" ", ItemsText(xs[1..]) + (")" + r), ItemsText(ys[1..]) + (")" + t));
        ItemsUnique(xs[1..], r, ys[1..], t);
      }
    }
  }

  lemma ListUnique(xs: seq<Item>, ps: seq<Parameter>, ys: seq<Item>, qs: seq<Parameter>)
    requires ValidItems(xs) && ValidItems(ys) && ValidParameters(ps) && ValidParameters(qs)
    requires ListText(xs, ps) == ListText(ys, qs)
    ensures xs == ys && ps == qs
  {
    hide ItemsText, ParametersText, ValidItems, ValidParameters;
    Cancel("(", ItemsText(xs) + (")" + ParametersText(ps)), ItemsText(ys) + (")" + ParametersText(qs)));
    ItemsUnique(xs, ParametersText(ps), ys, ParametersText(qs));
    assert ParametersText(ps) + "" == ParametersText(ps) && ParametersText(qs) + "" == ParametersText(qs);
    ParametersUnique(ps, "", qs, "");
  }
}
