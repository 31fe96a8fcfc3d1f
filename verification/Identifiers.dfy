/**
  Component identifiers, signature parameters and canonical comparison keys
  (message.go:1282-1312, signature_fields.go:453-486 and 590-594).
 */
module Identifiers {
  import opened Basics
  import opened StructuredFields

  datatype Component = Component(name: string, parameters: seq<Parameter>)

  /** `sigLabel` is the dictionary label of the signature. */
  datatype SignatureInput = SignatureInput(sigLabel: string, components: seq<Component>, parameters: seq<Parameter>)

  // ----- names --------------------------------------------------------------------

  /** isLowerFieldNameCharacter */
  predicate FieldNameCharacter(c: char) {
    || 'a' <= c <= 'z' || '0' <= c <= '9' || c == '!' || c == '#' || c == '$' || c == '%' || c == '&' || c == '\''
    || c == '*' || c == '+' || c == '-' || c == '.' || c == '^' || c == '_' || c == '`' || c == '|' || c == '~'
  }

  predicate DerivedNameCharacter(c: char) {
    'a' <= c <= 'z' || '0' <= c <= '9' || c == '-'
  }

  /** validComponentName */
  predicate ValidName(name: string) {
    && name != ""
    && if name[0] == '@' then |name| > 1 && forall i :: 1 <= i < |name| ==> DerivedNameCharacter(name[i])
       else forall i :: 0 <= i < |name| ==> FieldNameCharacter(name[i])
  }

  /** validParametersForSerialization */
  predicate ValidShapes(ps: seq<Parameter>) {
    forall i :: 0 <= i < |ps| ==> ValidKey(ps[i].name) && ps[i].value != Foreign
  }

  // ----- parameter maps -------------------------------------------------------------

  /** httpsfv's Params.Add: a repeated name keeps its place and takes the new value. */
  function Put(ps: seq<Parameter>, p: Parameter): seq<Parameter> {
    if ps == [] then [p]
    else if ps[0].name == p.name then [p] + ps[1..]
    else [ps[0]] + Put(ps[1..], p)
  }

  /** addParameters */
  function Merge(ps: seq<Parameter>): seq<Parameter> {
    if ps == [] then [] else Put(Merge(ps[..|ps| - 1]), ps[|ps| - 1])
  }

  predicate Distinct(ps: seq<Parameter>) {
    forall i, j :: 0 <= i < j < |ps| ==> ps[i].name != ps[j].name
  }

  lemma {:induction false} PutNew(ps: seq<Parameter>, p: Parameter)
    requires forall i :: 0 <= i < |ps| ==> ps[i].name != p.name
    ensures Put(ps, p) == ps + [p]
  {
    if ps != [] { PutNew(ps[1..], p); }
  }

  lemma {:induction false} MergeDistinct(ps: seq<Parameter>)
    requires Distinct(ps)
    ensures Merge(ps) == ps
  {
    if ps != [] {
      var n := |ps| - 1;
      MergeDistinct(ps[..n]);
      PutNew(ps[..n], ps[n]);
    }
  }

  // ----- serialization ----------------------------------------------------------------

  function ItemOf(c: Component): Item {
    Item(Text(c.name), Merge(c.parameters))
  }

  predicate ValidComponent(c: Component) {
    ValidName(c.name) && ValidShapes(c.parameters) && ValidItem(ItemOf(c))
  }

  /** serializeComponentIdentifier */
  function SerializeComponent(c: Component): Option<string> {
    if ValidComponent(c) then Some(ItemText(ItemOf(c))) else None
  }

  function ItemsOf(cs: seq<Component>): (items: seq<Item>)
    ensures |items| == |cs|
  {
    seq(|cs|, i requires 0 <= i < |cs| => ItemOf(cs[i]))
  }

  predicate ValidInput(input: SignatureInput) {
    && ValidShapes(input.parameters) && ValidParameters(Merge(input.parameters))
    && forall i :: 0 <= i < |input.components| ==> ValidComponent(input.components[i])
  }

  function InputText(input: SignatureInput): string {
    ListText(ItemsOf(input.components), Merge(input.parameters))
  }

  /** serializeSignatureParameters */
  function SerializeParameters(input: SignatureInput): Option<string> {
    if ValidInput(input) then Some(InputText(input)) else None
  }

  /** The serialized parameters determine the covered items and the parameters, in order. */
  lemma InputTextUnique(x: SignatureInput, y: SignatureInput)
    requires ValidInput(x) && ValidInput(y) && InputText(x) == InputText(y)
    ensures ItemsOf(x.components) == ItemsOf(y.components) && Merge(x.parameters) == Merge(y.parameters)
  {
    assert ValidItems(ItemsOf(x.components)) && ValidItems(ItemsOf(y.components));
    hide ListText, ValidItems;
    ListUnique(ItemsOf(x.components), Merge(x.parameters), ItemsOf(y.components), Merge(y.parameters));
  }

  /** A serialized identifier determines the name and the merged parameters. */
  lemma ComponentTextUnique(c: Component, d: Component)
    requires ValidComponent(c) && ValidComponent(d)
    ensures ItemText(ItemOf(c)) == ItemText(ItemOf(d)) <==> c.name == d.name && Merge(c.parameters) == Merge(d.parameters)
  {
    if ItemText(ItemOf(c)) == ItemText(ItemOf(d)) {
      hide ItemText, ValidItem;
      assert ItemText(ItemOf(c)) + "" == ItemText(ItemOf(c)) && ItemText(ItemOf(d)) + "" == ItemText(ItemOf(d));
      ItemUnique(ItemOf(c), "", ItemOf(d), "");
    }
  }

  // ----- ordering by name ---------------------------------------------------------------

  /** cmp.Compare on strings: byte by byte, a proper prefix first. */
  predicate Before(a: string, b: string) {
    b != "" && (a == "" || a[0] < b[0] || (a[0] == b[0] && Before(a[1..], b[1..])))
  }

  lemma {:induction false} BeforeTotal(a: string, b: string)
    ensures a == b || Before(a, b) || Before(b, a)
    ensures !(Before(a, b) && Before(b, a)) && !Before(a, a)
  {
    if a != "" && b != "" {
      BeforeTotal(a[1..], b[1..]);
      assert a == [a[0]] + a[1..] && b == [b[0]] + b[1..];
    }
    if a != "" { BeforeTotal(a[1..], a[1..]); }
  }

  lemma {:induction false} BeforeTransitive(a: string, b: string, c: string)
    requires Before(a, b) && Before(b, c)
    ensures Before(a, c)
  {
    if a != "" && a[0] == b[0] && b[0] == c[0] { BeforeTransitive(a[1..], b[1..], c[1..]); }
  }

  ghost predicate SortedByName(ps: seq<Parameter>) {
    forall i, j :: 0 <= i < j < |ps| ==> !Before(ps[j].name, ps[i].name)
  }

  /** What slices.SortFunc promises. */
  ghost predicate SortOf(sorted: seq<Parameter>, ps: seq<Parameter>) {
    SortedByName(sorted) && multiset(sorted) == multiset(ps)
  }

  function Insert(p: Parameter, ps: seq<Parameter>): seq<Parameter> {
    if ps == [] || Before(p.name, ps[0].name) then [p] + ps else [ps[0]] + Insert(p, ps[1..])
  }

  /** A stable sort by name, standing for slices.SortFunc. */
  function Sorted(ps: seq<Parameter>): seq<Parameter> {
    if ps == [] then [] else Insert(ps[|ps| - 1], Sorted(ps[..|ps| - 1]))
  }

  lemma {:induction false} InsertElements(p: Parameter, ps: seq<Parameter>)
    ensures multiset(Insert(p, ps)) == multiset(ps) + multiset{p}
  {
    if ps == [] || Before(p.name, ps[0].name) {
      assert multiset([p] + ps) == multiset{p} + multiset(ps);
    } else {
      InsertElements(p, ps[1..]);
      assert ps == [ps[0]] + ps[1..];
      assert multiset(ps) == multiset{ps[0]} + multiset(ps[1..]);
    }
  }

  /** No parameter of `ps` sorts before `p`. */
  ghost predicate AllAfter(p: Parameter, ps: seq<Parameter>) {
    forall i :: 0 <= i < |ps| ==> !Before(ps[i].name, p.name)
  }

  lemma {:induction false} InsertAfter(p: Parameter, ps: seq<Parameter>, q: Parameter)
    requires AllAfter(q, ps) && !Before(p.name, q.name)
    ensures AllAfter(q, Insert(p, ps))
  {
    if ps != [] { InsertAfter(p, ps[1..], q); }
  }

  lemma AfterFirst(p: Parameter, ps: seq<Parameter>)
    requires SortedByName(ps) && ps != [] && Before(p.name, ps[0].name)
    ensures AllAfter(p, ps)
  {
    forall i | 0 <= i < |ps| ensures !Before(ps[i].name, p.name) {
      BeforeTotal(ps[0].name, p.name);
      if i > 0 && Before(ps[i].name, p.name) { BeforeTransitive(ps[i].name, p.name, ps[0].name); }
    }
  }

  lemma SortedCons(p: Parameter, ps: seq<Parameter>)
    requires SortedByName(ps) && AllAfter(p, ps)
    ensures SortedByName([p] + ps)
  {
  }

  lemma {:induction false} InsertSorts(p: Parameter, ps: seq<Parameter>)
    requires SortedByName(ps)
    ensures SortedByName(Insert(p, ps))
  {
    if ps == [] {
    } else if Before(p.name, ps[0].name) {
      AfterFirst(p, ps);
      SortedCons(p, ps);
    } else {
      InsertSorts(p, ps[1..]);
      InsertAfter(p, ps[1..], ps[0]);
      SortedCons(ps[0], Insert(p, ps[1..]));
    }
  }

  lemma {:induction false} SortedSorts(ps: seq<Parameter>)
    ensures SortOf(Sorted(ps), ps)
  {
    if ps != [] {
      var n := |ps| - 1;
      SortedSorts(ps[..n]);
      InsertSorts(ps[n], Sorted(ps[..n]));
      InsertElements(ps[n], Sorted(ps[..n]));
      assert ps == ps[..n] + [ps[n]];
      hide SortedByName;
    }
  }

  // ----- the comparison key ---------------------------------------------------------------

  /** componentComparisonKey */
  function ComparisonKey(c: Component): Option<string> {
    SerializeComponent(Component(c.name, Sorted(c.parameters)))
  }

  lemma TwiceInMultiset(s: seq<Parameter>, i: nat, j: nat)
    requires i < j < |s| && s[i] == s[j]
    ensures multiset(s)[s[i]] >= 2
  {
    assert s == s[..j] + s[j..];
    assert s[..j][i] == s[i] && s[j..][0] == s[i];
  }

  lemma OnceInMultiset(s: seq<Parameter>, x: Parameter)
    requires multiset(s)[x] >= 2
    ensures !Distinct(s)
  {
    var k :| 0 <= k < |s| && s[k] == x;
    assert s == s[..k] + [x] + s[k + 1..];
    if x in s[..k] {
      var i :| 0 <= i < k && s[..k][i] == x;
    } else {
      assert x in s[k + 1..];
      var i :| 0 <= i < |s| - k - 1 && s[k + 1..][i] == x;
      assert s[k + 1 + i] == x;
    }
  }

  lemma DistinctPermuted(s: seq<Parameter>, t: seq<Parameter>)
    requires multiset(s) == multiset(t) && Distinct(t)
    ensures Distinct(s)
  {
    forall i, j | 0 <= i < j < |s|
      ensures s[i].name != s[j].name
    {
      if s[i] == s[j] {
        TwiceInMultiset(s, i, j);
        OnceInMultiset(t, s[i]);
      } else {
        assert s[i] in multiset(t) && s[j] in multiset(t);
      }
    }
  }

  ghost predicate Strict(ps: seq<Parameter>) {
    forall i, j :: 0 <= i < j < |ps| ==> Before(ps[i].name, ps[j].name)
  }

  lemma DistinctStrict(ps: seq<Parameter>)
    requires SortedByName(ps) && Distinct(ps)
    ensures Strict(ps)
  {
    forall i, j | 0 <= i < j < |ps| ensures Before(ps[i].name, ps[j].name) {
      BeforeTotal(ps[i].name, ps[j].name);
    }
  }

  ghost predicate SameElements(s: seq<Parameter>, t: seq<Parameter>) {
    forall x :: x in s <==> x in t
  }

  lemma PermutedElements(s: seq<Parameter>, t: seq<Parameter>)
    requires multiset(s) == multiset(t)
    ensures SameElements(s, t) && |s| == |t|
  {
    assert |multiset(s)| == |s| && |multiset(t)| == |t|;
    forall x ensures x in s <==> x in t {
      assert x in s <==> x in multiset(s);
      assert x in t <==> x in multiset(t);
    }
  }

  lemma StrictTail(s: seq<Parameter>)
    requires Strict(s) && s != []
    ensures forall x :: x in s[1..] <==> x in s && x != s[0]
  {
    BeforeTotal(s[0].name, s[0].name);
    assert s == [s[0]] + s[1..];
  }

  /** Sorting leaves no freedom when names are distinct. */
  lemma {:induction false} SortUnique(s: seq<Parameter>, t: seq<Parameter>)
    requires Strict(s) && Strict(t) && SameElements(s, t) && |s| == |t|
    ensures s == t
  {
    if s != [] {
      assert s[0] in t;
      var k :| 0 <= k < |t| && t[k] == s[0];
      assert t[0] in s;
      var m :| 0 <= m < |s| && s[m] == t[0];
      BeforeTotal(s[0].name, t[0].name);
      StrictTail(s);
      StrictTail(t);
      assert s == [s[0]] + s[1..] && t == [t[0]] + t[1..];
      SortUnique(s[1..], t[1..]);
    }
  }

  lemma ValidSubset(name: string, s: seq<Parameter>, t: seq<Parameter>)
    requires Distinct(s) && Distinct(t) && (forall x :: x in s ==> x in t) && ValidComponent(Component(name, t))
    ensures ValidComponent(Component(name, s))
  {
    hide ValidName, ValidKey, Serializable;
    MergeDistinct(s);
    MergeDistinct(t);
    forall i | 0 <= i < |s| ensures ValidParameter(s[i]) && s[i].value != Foreign {
      assert s[i] in t;
    }
  }

  lemma ValidPermuted(name: string, s: seq<Parameter>, t: seq<Parameter>)
    requires multiset(s) == multiset(t) && Distinct(t)
    ensures ValidComponent(Component(name, s)) == ValidComponent(Component(name, t))
  {
    DistinctPermuted(s, t);
    PermutedElements(s, t);
    hide ValidComponent, Distinct;
    if ValidComponent(Component(name, s)) { ValidSubset(name, t, s); }
    if ValidComponent(Component(name, t)) { ValidSubset(name, s, t); }
  }

  /** The key computed from any sort by name, stable or not. */
  function KeyOf(name: string, sorted: seq<Parameter>): Option<string> {
    SerializeComponent(Component(name, sorted))
  }

  /**
    The comparison key is a canonical form: identifiers with distinct parameter
    names have a key exactly when they can be serialized, and equal keys exactly
    when the names agree and the parameters are permutations of each other.
   */
  lemma KeyCanonical(c: Component, d: Component, s: seq<Parameter>, t: seq<Parameter>)
    requires Distinct(c.parameters) && Distinct(d.parameters)
    requires SortOf(s, c.parameters) && SortOf(t, d.parameters)
    ensures KeyOf(c.name, s).Some? <==> SerializeComponent(c).Some?
    ensures KeyOf(c.name, s).Some? && KeyOf(d.name, t).Some? ==>
      (KeyOf(c.name, s) == KeyOf(d.name, t) <==> c.name == d.name && multiset(c.parameters) == multiset(d.parameters))
  {
    ValidPermuted(c.name, s, c.parameters);
    ValidPermuted(d.name, t, d.parameters);
    DistinctPermuted(s, c.parameters);
    DistinctPermuted(t, d.parameters);
    MergeDistinct(s);
    MergeDistinct(t);
    DistinctStrict(s);
    DistinctStrict(t);
    hide ValidComponent, Distinct, Strict, SortedByName;
    if KeyOf(c.name, s).Some? && KeyOf(d.name, t).Some? {
      ComponentTextUnique(Component(c.name, s), Component(d.name, t));
      if multiset(c.parameters) == multiset(d.parameters) {
        PermutedElements(s, t);
        SortUnique(s, t);
      }
    }
  }

  /** The same for the key as computed by CreateSignatureBase and the profiles. */
  lemma ComparisonKeyCanonical(c: Component, d: Component)
    requires Distinct(c.parameters) && Distinct(d.parameters)
    requires ComparisonKey(c).Some? && ComparisonKey(d).Some?
    ensures ComparisonKey(c) == ComparisonKey(d) <==> c.name == d.name && multiset(c.parameters) == multiset(d.parameters)
  {
    SortedSorts(c.parameters);
    SortedSorts(d.parameters);
    KeyCanonical(c, d, Sorted(c.parameters), Sorted(d.parameters));
    hide SortOf, SerializeComponent, Sorted;
  }
}
