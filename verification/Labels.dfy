/**
  Labels of the Signature-Input and Signature fields (verifier.go:516-546,
  signer.go:228-253, http_integration.go:806-822).
 */
module Labels {
  import opened Basics
  import opened StructuredFields
  import opened Identifiers
  import DictionaryScanner

  datatype SignatureValue = SignatureValue(sigLabel: string, value: seq<byte>, parameters: seq<Parameter>)

  /** One matching pair of the two fields. */
  datatype SignedFields = SignedFields(input: SignatureInput, signature: SignatureValue)

  /** The entries of both fields, in wire order. */
  datatype Fields = Fields(inputs: seq<SignatureInput>, signatures: seq<SignatureValue>)

  /** validSignatureLabel */
  predicate ValidLabel(sigLabel: string) {
    sigLabel != "" && DictionaryScanner.KeyOf(sigLabel) == sigLabel
  }

  function InputLabels(inputs: seq<SignatureInput>): seq<string> {
    seq(|inputs|, i requires 0 <= i < |inputs| => inputs[i].sigLabel)
  }

  function SignatureLabels(signatures: seq<SignatureValue>): seq<string> {
    seq(|signatures|, i requires 0 <= i < |signatures| => signatures[i].sigLabel)
  }

  predicate Unique(labels: seq<string>) {
    forall i, j :: 0 <= i < j < |labels| ==> labels[i] != labels[j]
  }

  function LabelSet(labels: seq<string>): set<string> {
    set sigLabel | sigLabel in labels
  }

  // ----- matching ----------------------------------------------------------------------

  /** matchingLabelSets accepts: as many entries, and every signature label among the input labels. */
  predicate Matching(fields: Fields) {
    && |fields.inputs| == |fields.signatures|
    && forall s :: s in fields.signatures ==> s.sigLabel in InputLabels(fields.inputs)
  }

  /** matchingLabelSets */
  method MatchingLabelSets(fields: Fields) returns (matching: bool)
    ensures matching <==> Matching(fields)
  {
    var inputs, signatures := fields.inputs, fields.signatures;
    if |inputs| != |signatures| {
      return false;
    }
    var labels: set<string> := {};
    for i := 0 to |inputs|
      invariant forall sigLabel :: sigLabel in labels <==> sigLabel in InputLabels(inputs)[..i]
    {
      labels := labels + {inputs[i].sigLabel};
      assert InputLabels(inputs)[..i + 1] == InputLabels(inputs)[..i] + [inputs[i].sigLabel];
    }
    assert InputLabels(inputs)[..|inputs|] == InputLabels(inputs);
    for i := 0 to |signatures|
      invariant forall k :: 0 <= k < i ==> signatures[k].sigLabel in InputLabels(inputs)
    {
      if signatures[i].sigLabel !in labels {
        return false;
      }
    }
    return true;
  }

  lemma {:induction false} UniqueSize(labels: seq<string>)
    requires Unique(labels)
    ensures |LabelSet(labels)| == |labels|
  {
    if labels != [] {
      var n := |labels| - 1;
      UniqueSize(labels[..n]);
      assert LabelSet(labels) == LabelSet(labels[..n]) + {labels[n]};
    }
  }

  /** How many entries repeat a label. */
  function Repeats(labels: seq<string>): int {
    |labels| - |LabelSet(labels)|
  }

  lemma Included(fields: Fields)
    ensures (forall s :: s in fields.signatures ==> s.sigLabel in InputLabels(fields.inputs))
      <==> LabelSet(SignatureLabels(fields.signatures)) <= LabelSet(InputLabels(fields.inputs))
  {
    var a, b := InputLabels(fields.inputs), SignatureLabels(fields.signatures);
    if LabelSet(b) <= LabelSet(a) {
      forall s | s in fields.signatures ensures s.sigLabel in a {
        var i :| 0 <= i < |fields.signatures| && fields.signatures[i] == s;
        assert b[i] == s.sigLabel && s.sigLabel in LabelSet(b);
      }
    }
  }

  /**
    When counting entries and one inclusion decide that the two label sets are
    equal: exactly when, should the code or the comparison of sets accept, both
    fields repeat equally many labels.
   */
  lemma MatchingExactly(fields: Fields)
    ensures var a, b := InputLabels(fields.inputs), SignatureLabels(fields.signatures);
      (Matching(fields) <==> LabelSet(a) == LabelSet(b))
      <==> (Matching(fields) || LabelSet(a) == LabelSet(b) ==> Repeats(a) == Repeats(b))
  {
    Included(fields);
    var a, b := LabelSet(InputLabels(fields.inputs)), LabelSet(SignatureLabels(fields.signatures));
    if b <= a { SubsetSize(b, a); }
  }

  /** With unique labels the code decides that the two label sets are equal. */
  lemma MatchingExact(fields: Fields)
    requires Unique(InputLabels(fields.inputs)) && Unique(SignatureLabels(fields.signatures))
    ensures Matching(fields) <==> LabelSet(InputLabels(fields.inputs)) == LabelSet(SignatureLabels(fields.signatures))
  {
    UniqueSize(InputLabels(fields.inputs));
    UniqueSize(SignatureLabels(fields.signatures));
    hide LabelSet, Matching;
    MatchingExactly(fields);
  }

  /** Two signatures of one label would match two inputs of different labels. */
  lemma UnequalRepeatsMatch(x: SignatureInput, y: SignatureInput, v: seq<byte>)
    requires x.sigLabel != y.sigLabel
    ensures var fields := Fields([x, y], [SignatureValue(x.sigLabel, v, []), SignatureValue(x.sigLabel, v, [])]);
      Matching(fields) && LabelSet(InputLabels(fields.inputs)) != LabelSet(SignatureLabels(fields.signatures))
  {
    var fields := Fields([x, y], [SignatureValue(x.sigLabel, v, []), SignatureValue(x.sigLabel, v, [])]);
    assert InputLabels(fields.inputs) == [x.sigLabel, y.sigLabel];
    assert SignatureLabels(fields.signatures) == [x.sigLabel, x.sigLabel];
    assert y.sigLabel in LabelSet([x.sigLabel, y.sigLabel]) && y.sigLabel !in LabelSet([x.sigLabel, x.sigLabel]);
  }

  // ----- selection ------------------------------------------------------------------------

  /** The position of the first `sigLabel`. */
  function First(labels: seq<string>, sigLabel: string): (i: nat)
    requires sigLabel in labels
    ensures i < |labels| && labels[i] == sigLabel && sigLabel !in labels[..i]
  {
    if labels[0] == sigLabel then 0
    else
      var i := 1 + First(labels[1..], sigLabel);
      assert labels[..i] == [labels[0]] + labels[1..][..i - 1];
      i
  }

  lemma NotBefore(labels: seq<string>, sigLabel: string, i: nat)
    requires i <= |labels| && sigLabel !in labels[..i]
    ensures forall k :: 0 <= k < i ==> labels[k] != sigLabel
  {
    forall k | 0 <= k < i ensures labels[k] != sigLabel {
      assert labels[..i][k] == labels[k];
    }
  }

  lemma FirstIs(labels: seq<string>, sigLabel: string, i: nat)
    requires i < |labels| && labels[i] == sigLabel && sigLabel !in labels[..i]
    ensures sigLabel in labels && First(labels, sigLabel) == i
  {
    NotBefore(labels, sigLabel, i);
    NotBefore(labels, sigLabel, First(labels, sigLabel));
  }

  function Selected(sigLabel: string, fields: Fields): Option<SignedFields> {
    var inputs, signatures := InputLabels(fields.inputs), SignatureLabels(fields.signatures);
    if sigLabel in inputs && sigLabel in signatures then
      Some(SignedFields(fields.inputs[First(inputs, sigLabel)], fields.signatures[First(signatures, sigLabel)]))
    else None
  }

  /** selectSignature: the first entry of each field with the label. */
  method SelectSignature(sigLabel: string, fields: Fields) returns (r: Option<SignedFields>)
    ensures r == Selected(sigLabel, fields)
  {
    var i, j := 0, 0;
    while i < |fields.inputs| && fields.inputs[i].sigLabel != sigLabel
      invariant 0 <= i <= |fields.inputs| && sigLabel !in InputLabels(fields.inputs)[..i]
    {
      i := i + 1;
    }
    if i == |fields.inputs| {
      assert InputLabels(fields.inputs)[..i] == InputLabels(fields.inputs);
      return None;
    }
    while j < |fields.signatures| && fields.signatures[j].sigLabel != sigLabel
      invariant 0 <= j <= |fields.signatures| && sigLabel !in SignatureLabels(fields.signatures)[..j]
    {
      j := j + 1;
    }
    assert InputLabels(fields.inputs)[i] == sigLabel;
    FirstIs(InputLabels(fields.inputs), sigLabel, i);
    if j == |fields.signatures| {
      assert SignatureLabels(fields.signatures)[..j] == SignatureLabels(fields.signatures);
      return None;
    }
    assert SignatureLabels(fields.signatures)[j] == sigLabel;
    FirstIs(SignatureLabels(fields.signatures), sigLabel, j);
    return Some(SignedFields(fields.inputs[i], fields.signatures[j]));
  }

  /** With unique labels a selected pair is the only pair of its label. */
  lemma SelectedOnly(sigLabel: string, fields: Fields, i: nat, j: nat)
    requires Unique(InputLabels(fields.inputs)) && Unique(SignatureLabels(fields.signatures))
    requires i < |fields.inputs| && fields.inputs[i].sigLabel == sigLabel
    requires j < |fields.signatures| && fields.signatures[j].sigLabel == sigLabel
    ensures Selected(sigLabel, fields) == Some(SignedFields(fields.inputs[i], fields.signatures[j]))
  {
    var inputs, signatures := InputLabels(fields.inputs), SignatureLabels(fields.signatures);
    assert inputs[i] == sigLabel && signatures[j] == sigLabel;
    var a, b := First(inputs, sigLabel), First(signatures, sigLabel);
    assert inputs[a] == sigLabel && signatures[b] == sigLabel;
  }

  // ----- combining ---------------------------------------------------------------------------

  /** A pair that can be sent: one valid label, a signature that is not empty. */
  predicate Paired(pair: SignedFields) {
    ValidLabel(pair.input.sigLabel) && pair.signature.sigLabel == pair.input.sigLabel && pair.signature.value != []
  }

  function PairLabels(pairs: seq<SignedFields>): seq<string> {
    seq(|pairs|, i requires 0 <= i < |pairs| => pairs[i].input.sigLabel)
  }

  predicate Combinable(pairs: seq<SignedFields>) {
    pairs != [] && (forall i :: 0 <= i < |pairs| ==> Paired(pairs[i])) && Unique(PairLabels(pairs))
  }

  /** The pairs as two fields; signature parameters are not carried. */
  function Spread(pairs: seq<SignedFields>): Fields {
    Fields(seq(|pairs|, i requires 0 <= i < |pairs| => pairs[i].input),
           seq(|pairs|, i requires 0 <= i < |pairs| => pairs[i].signature.(parameters := [])))
  }

  lemma UniqueNone(labels: seq<string>)
    ensures Unique(labels[..0])
  {
  }

  lemma UniqueMore(labels: seq<string>, i: nat)
    requires i < |labels| && Unique(labels[..i])
    ensures Unique(labels[..i + 1]) <==> forall k :: 0 <= k < i ==> labels[k] != labels[i]
    ensures Unique(labels) ==> Unique(labels[..i + 1])
  {
    var after := labels[..i + 1];
    assert after == labels[..i] + [labels[i]];
    if Unique(after) {
      forall k | 0 <= k < i ensures labels[k] != labels[i] {
        assert after[k] != after[i];
      }
    }
  }

  /** CombineSignedFields */
  method CombineSignedFields(pairs: seq<SignedFields>) returns (r: Option<Fields>)
    ensures r == if Combinable(pairs) then Some(Spread(pairs)) else None
  {
    hide ValidLabel, Unique;
    if pairs == [] {
      return None;
    }
    var inputs: seq<SignatureInput>, signatures: seq<SignatureValue> := [], [];
    UniqueNone(PairLabels(pairs));
    var seen: set<string> := {};
    for i := 0 to |pairs|
      invariant forall k :: 0 <= k < i ==> Paired(pairs[k])
      invariant Unique(PairLabels(pairs)[..i])
      invariant forall sigLabel :: sigLabel in seen <==> exists k :: 0 <= k < i && PairLabels(pairs)[k] == sigLabel
      invariant inputs == Spread(pairs).inputs[..i] && signatures == Spread(pairs).signatures[..i]
    {
      var pair := pairs[i];
      assert PairLabels(pairs)[i] == pair.input.sigLabel;
      UniqueMore(PairLabels(pairs), i);
      if !ValidLabel(pair.input.sigLabel) || pair.signature.sigLabel != pair.input.sigLabel || pair.signature.value == [] {
        assert !Paired(pairs[i]);
        return None;
      }
      if pair.input.sigLabel in seen {
        return None;
      }
      seen := seen + {pair.input.sigLabel};
      inputs := inputs + [pair.input];
      signatures := signatures + [SignatureValue(pair.signature.sigLabel, pair.signature.value, [])];
    }
    assert PairLabels(pairs)[..|pairs|] == PairLabels(pairs);
    ghost var all := Spread(pairs);
    assert all.inputs[..|pairs|] == all.inputs && all.signatures[..|pairs|] == all.signatures;
    return Some(Fields(inputs, signatures));
  }

  // ----- appending a signature to a signed message ------------------------------------------------

  /** The last signature with a label, as the map of appendSignedFields keeps it. */
  function Last(signatures: seq<SignatureValue>, sigLabel: string): Option<SignatureValue> {
    if signatures == [] then None
    else
      var n := |signatures| - 1;
      if signatures[n].sigLabel == sigLabel then Some(signatures[n]) else Last(signatures[..n], sigLabel)
  }

  predicate AllSigned(fields: Fields) {
    forall i :: 0 <= i < |fields.inputs| ==> Last(fields.signatures, fields.inputs[i].sigLabel).Some?
  }

  function Pairs(fields: Fields): seq<SignedFields>
    requires AllSigned(fields)
  {
    seq(|fields.inputs|, i requires 0 <= i < |fields.inputs| =>
      SignedFields(fields.inputs[i], Last(fields.signatures, fields.inputs[i].sigLabel).value))
  }

  /** appendSignedFields */
  function Appended(fields: Fields, signed: SignedFields): Option<Fields> {
    if AllSigned(fields) && Combinable(Pairs(fields) + [signed]) then Some(Spread(Pairs(fields) + [signed])) else None
  }

  method AppendSignedFields(fields: Fields, signed: SignedFields) returns (r: Option<Fields>)
    ensures r == Appended(fields, signed)
  {
    hide Combinable, Spread;
    var byLabel: map<string, SignatureValue> := map[];
    for i := 0 to |fields.signatures|
      invariant forall sigLabel :: sigLabel in byLabel <==> Last(fields.signatures[..i], sigLabel).Some?
      invariant forall sigLabel :: sigLabel in byLabel ==> Last(fields.signatures[..i], sigLabel) == Some(byLabel[sigLabel])
    {
      byLabel := byLabel[fields.signatures[i].sigLabel := fields.signatures[i]];
      assert fields.signatures[..i + 1][..i] == fields.signatures[..i];
    }
    assert fields.signatures[..|fields.signatures|] == fields.signatures;
    var pairs: seq<SignedFields> := [];
    for i := 0 to |fields.inputs|
      invariant |pairs| == i
      invariant forall k :: 0 <= k < i ==> fields.inputs[k].sigLabel in byLabel
      invariant forall k :: 0 <= k < i ==> pairs[k] == SignedFields(fields.inputs[k], byLabel[fields.inputs[k].sigLabel])
    {
      var sigLabel := fields.inputs[i].sigLabel;
      if sigLabel !in byLabel {
        assert Last(fields.signatures, sigLabel).None?;
        return None;
      }
      pairs := pairs + [SignedFields(fields.inputs[i], byLabel[sigLabel])];
    }
    assert AllSigned(fields) && pairs == Pairs(fields);
    r := CombineSignedFields(pairs + [signed]);
  }

  lemma {:induction false} LastUnique(signatures: seq<SignatureValue>, sigLabel: string, j: nat)
    requires Unique(SignatureLabels(signatures)) && j < |signatures| && signatures[j].sigLabel == sigLabel
    ensures Last(signatures, sigLabel) == Some(signatures[j])
  {
    var n := |signatures| - 1;
    var labels := SignatureLabels(signatures);
    if j < n {
      assert labels[j] != labels[n];
      assert SignatureLabels(signatures[..n]) == labels[..n];
      LastUnique(signatures[..n], sigLabel, j);
    }
  }

  lemma {:induction false} LastFinds(signatures: seq<SignatureValue>, sigLabel: string)
    ensures Last(signatures, sigLabel).Some? <==> sigLabel in SignatureLabels(signatures)
    ensures var last := Last(signatures, sigLabel);
      last.Some? ==> last.value in signatures && last.value.sigLabel == sigLabel
  {
    if signatures != [] {
      var n := |signatures| - 1;
      LastFinds(signatures[..n], sigLabel);
      assert SignatureLabels(signatures) == SignatureLabels(signatures[..n]) + [signatures[n].sigLabel];
    }
  }

  /** A received pair of fields that verification would accept, with labels and values a sender may combine. */
  predicate Received(fields: Fields) {
    && Unique(InputLabels(fields.inputs)) && Unique(SignatureLabels(fields.signatures)) && Matching(fields)
    && (forall i :: 0 <= i < |fields.inputs| ==> ValidLabel(fields.inputs[i].sigLabel))
    && (forall s :: s in fields.signatures ==> s.value != [])
  }

  lemma ReceivedSigned(fields: Fields)
    requires Received(fields)
    ensures AllSigned(fields) && LabelSet(InputLabels(fields.inputs)) == LabelSet(SignatureLabels(fields.signatures))
  {
    MatchingExact(fields);
    forall i | 0 <= i < |fields.inputs| ensures Last(fields.signatures, fields.inputs[i].sigLabel).Some? {
      assert InputLabels(fields.inputs)[i] in LabelSet(InputLabels(fields.inputs));
      LastFinds(fields.signatures, fields.inputs[i].sigLabel);
    }
  }

  /** A new signature can be appended to received fields exactly when it is complete and its label is new. */
  lemma AppendsExactly(fields: Fields, signed: SignedFields)
    requires Received(fields)
    ensures Appended(fields, signed).Some? <==> Paired(signed) && signed.input.sigLabel !in InputLabels(fields.inputs)
  {
    ReceivedSigned(fields);
    var pairs := Pairs(fields);
    var all := pairs + [signed];
    assert PairLabels(all) == InputLabels(fields.inputs) + [signed.input.sigLabel];
    var n := |pairs|;
    forall i | 0 <= i < n ensures Paired(all[i]) {
      LastFinds(fields.signatures, fields.inputs[i].sigLabel);
    }
    assert all[n] == signed && PairLabels(all)[n] == signed.input.sigLabel;
    if signed.input.sigLabel in InputLabels(fields.inputs) {
      var k :| 0 <= k < n && InputLabels(fields.inputs)[k] == signed.input.sigLabel;
      assert PairLabels(all)[k] == PairLabels(all)[n];
    }
    hide ValidLabel;
  }

  lemma AppendedLabels(fields: Fields, signed: SignedFields)
    requires AllSigned(fields) && Combinable(Pairs(fields) + [signed])
    ensures var pairs := Pairs(fields) + [signed];
      SignatureLabels(Spread(pairs).signatures) == PairLabels(pairs) && InputLabels(Spread(pairs).inputs) == PairLabels(pairs)
  {
    var pairs := Pairs(fields) + [signed];
    forall i | 0 <= i < |pairs| ensures pairs[i].signature.sigLabel == pairs[i].input.sigLabel {
      assert Paired(pairs[i]);
    }
  }

  lemma AppendKeepsOne(fields: Fields, signed: SignedFields, j: nat)
    requires Received(fields) && Appended(fields, signed).Some? && j < |fields.signatures|
    ensures var r := Appended(fields, signed).value;
      && Last(r.signatures, fields.signatures[j].sigLabel).Some?
      && Last(r.signatures, fields.signatures[j].sigLabel).value.value == fields.signatures[j].value
  {
    ReceivedSigned(fields);
    AppendedLabels(fields, signed);
    var r, sigLabel := Appended(fields, signed).value, fields.signatures[j].sigLabel;
    assert SignatureLabels(fields.signatures)[j] == sigLabel;
    assert sigLabel in LabelSet(SignatureLabels(fields.signatures));
    var i :| 0 <= i < |fields.inputs| && InputLabels(fields.inputs)[i] == sigLabel;
    LastUnique(fields.signatures, sigLabel, j);
    assert r.signatures[i].sigLabel == sigLabel && r.signatures[i].value == fields.signatures[j].value;
    LastUnique(r.signatures, sigLabel, i);
    hide Last, ValidLabel;
  }

  /**
    Appending keeps the received inputs in order, puts the new pair last, and
    leaves the signature bytes of every received label as they were.
   */
  lemma AppendKeeps(fields: Fields, signed: SignedFields)
    requires Received(fields) && Appended(fields, signed).Some?
    ensures var r := Appended(fields, signed).value;
      && r.inputs == fields.inputs + [signed.input]
      && |r.signatures| == |fields.signatures| + 1
      && r.signatures[|fields.signatures|].value == signed.signature.value
      && SignatureLabels(r.signatures) == InputLabels(r.inputs)
      && forall j :: 0 <= j < |fields.signatures| ==>
           var kept := Last(r.signatures, fields.signatures[j].sigLabel);
           kept.Some? && kept.value.value == fields.signatures[j].value
  {
    ReceivedSigned(fields);
    var r := Appended(fields, signed).value;
    var pairs := Pairs(fields) + [signed];
    assert SignatureLabels(r.signatures) == PairLabels(pairs) == InputLabels(r.inputs) by { AppendedLabels(fields, signed); }
    forall j | 0 <= j < |fields.signatures|
      ensures var old' := fields.signatures[j];
        Last(r.signatures, old'.sigLabel).Some? && Last(r.signatures, old'.sigLabel).value.value == old'.value
    {
      AppendKeepsOne(fields, signed, j);
    }
  }

  /** The result can be appended to again. */
  lemma AppendReceived(fields: Fields, signed: SignedFields)
    requires Received(fields) && Appended(fields, signed).Some?
    ensures Received(Appended(fields, signed).value)
  {
    ReceivedSigned(fields);
    AppendedLabels(fields, signed);
    var pairs := Pairs(fields) + [signed];
    var r := Spread(pairs);
    forall i | 0 <= i < |pairs|
      ensures ValidLabel(r.inputs[i].sigLabel) && r.signatures[i].value != []
      ensures r.signatures[i].sigLabel == InputLabels(r.inputs)[i]
    {
      assert Paired(pairs[i]);
    }
    hide ValidLabel;
  }
}
