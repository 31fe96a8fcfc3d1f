/**
  Sign and Verify as whole operations, and one verification per signed nonce
  (signer.go:271-340, verifier.go:300-397).

  Resolver, provider and primitives are arguments; a context that ends, a failed
  or late resolver and a late replay store are flags beside them.
 */
module Verification {
  import opened Basics
  import opened Identifiers
  import opened ComponentValues
  import opened Labels
  import opened Profiles
  import opened ReplayModel
  import ReplayStore
  import ReplayProtocol
  import SignatureBase

  // ----- signing -----------------------------------------------------------------------

  /** What the provider of the signing key came to within its deadline. */
  datatype Provision = Provided(key: SigningKey) | ProviderFailed | ContextEnded

  datatype SigningError = SigningCanceled | SigningPolicy | SigningProvider | SigningKeyError | SigningBase | SigningCryptographic

  datatype PrimitiveError = Incompatible | OtherError

  /** A signing primitive: algorithm, key material and signature base. */
  type Signing = (string, nat, string) -> Result<seq<byte>, PrimitiveError>

  function SignedInput(p: SigningProfile, key: SigningKey, nonce: string, sigLabel: string, now: Time): SignatureInput {
    SignatureInput(sigLabel, p.components, SignedParameters(p, key, nonce, now))
  }

  /** What Sign requires before it asks for a key. */
  predicate SigningAllowed(p: SigningProfile, external: bool, sigLabel: string, nonce: string) {
    ValidLabel(sigLabel) && (p.requireExternal ==> external) && NonceSupplied(p, nonce)
  }

  /** What Sign returns, given what the provider came to. */
  function Signed(p: SigningProfile, m: Message, canceled: bool, external: bool, sigLabel: string, nonce: string,
                  key: Provision, now: Time, primitive: Signing): Result<SignedFields, SigningError> {
    if canceled then Err(SigningCanceled)
    else if !SigningAllowed(p, external, sigLabel, nonce) then Err(SigningPolicy)
    else if key.ContextEnded? then Err(SigningCanceled)
    else if key.ProviderFailed? then Err(SigningProvider)
    else if !Signable(p, key.key, now) then Err(SigningKeyError)
    else
      var input := SignedInput(p, key.key, nonce, sigLabel, now);
      match SignatureBase.Base(m, input)
      case Err(_) => Err(SigningBase)
      case Ok(base) =>
        match primitive(key.key.algorithm, key.key.material, base)
        case Err(error) => Err(if error == Incompatible then SigningKeyError else SigningCryptographic)
        case Ok(value) => Ok(SignedFields(input, SignatureValue(sigLabel, value, [])))
  }

  /** Sign */
  method Sign(p: SigningProfile, m: Message, canceled: bool, external: bool, sigLabel: string, nonce: string,
              key: Provision, now: Time, primitive: Signing) returns (r: Result<SignedFields, SigningError>)
    requires ValidSigningProfile(p) && m.maxSignatureBaseBytes <= MAX_INT
    ensures r == Signed(p, m, canceled, external, sigLabel, nonce, key, now, primitive)
  {
    hide SignatureBase.Base, ValidLabel, SignedParameters;
    if canceled {
      return Err(SigningCanceled);
    }
    if !ValidLabel(sigLabel) {
      return Err(SigningPolicy);
    }
    if p.requireExternal && !external {
      return Err(SigningPolicy);
    }
    if (p.nonce == Required && nonce == "") || (p.nonce == Forbidden && nonce != "") {
      return Err(SigningPolicy);
    }
    if key.ContextEnded? {
      return Err(SigningCanceled);
    }
    if key.ProviderFailed? {
      return Err(SigningProvider);
    }
    var k := key.key;
    if k.keyID == "" || k.material == 0 || k.revoked || k.notBefore == 0 || k.notAfter == 0
       || !(k.notAfter > k.notBefore) || now < k.notBefore || !(now < k.notAfter) {
      return Err(SigningKeyError);
    }
    if k.algorithm !in p.algorithms {
      return Err(SigningKeyError);
    }
    if p.expires == Required && now + p.lifetime > k.notAfter {
      return Err(SigningKeyError);
    }
    var parameters := BuildParameters(p, k, nonce, now);
    var input := SignatureInput(sigLabel, p.components, parameters);
    var base := SignatureBase.CreateSignatureBase(m, input);
    if base.Err? {
      return Err(SigningBase);
    }
    var value := primitive(k.algorithm, k.material, base.value);
    if value.Err? {
      return Err(if value.error == Incompatible then SigningKeyError else SigningCryptographic);
    }
    return Ok(SignedFields(input, SignatureValue(sigLabel, value.value, [])));
  }

  // ----- verifying ---------------------------------------------------------------------

  datatype CheckResult = Verifies | KeyMismatch | Rejects

  /** A verification primitive: algorithm, key material, signature base and signature. */
  type Checking = (string, nat, string, seq<byte>) -> CheckResult

  /** What surrounds one call of Verify. */
  datatype Surroundings = Surroundings(
    canceled: bool,                                  // the context has ended on entry
    external: bool,                                  // trusted external request context present
    now: Time, keyNow: Time, replayNow: Reading,     // the three clock readings
    resolve: string -> Option<ResolvedKey>,          // None: not found, failed or late
    check: Checking,
    replayCanceled: bool, replayLate: bool)          // cancelled while waiting; deadline passed on return

  datatype VerifiedSignature = VerifiedSignature(sigLabel: string, keyID: string, algorithm: string, created: Time, expires: Time)

  /** An accepted signature before the replay stage. */
  datatype Judgement = Judgement(signature: VerifiedSignature, metadata: Metadata)

  function Reported(pair: SignedFields, metadata: Metadata, key: ResolvedKey): VerifiedSignature {
    VerifiedSignature(pair.input.sigLabel, metadata.keyID, key.algorithm, metadata.created, metadata.expires)
  }

  function KeyJudged(p: Profile, pair: SignedFields, s: Surroundings, metadata: Metadata, base: string):
    Result<Judgement, Failure>
  {
    match s.resolve(metadata.keyID)
    case None => Err(KeyResolutionFailure)
    case Some(key) =>
      var refusal := KeyRefusal(p, key, metadata.algorithm, metadata.created, s.keyNow);
      if refusal.Some? then Err(refusal.value)
      else match s.check(key.algorithm, key.material, base, pair.signature.value)
        case KeyMismatch => Err(KeyFailure)
        case Rejects => Err(CryptographicFailure)
        case Verifies =>
          Ok(Judgement(Reported(pair, metadata, key), metadata))
  }

  /** The judgement of one selected pair. */
  function Judged(p: Profile, m: Message, pair: SignedFields, s: Surroundings): Result<Judgement, Failure> {
    match Validated(p, pair.input, s.now)
    case Err(failure) => Err(failure)
    case Ok(metadata) =>
      match SignatureBase.Base(m, pair.input)
      case Err(_) => Err(BaseFailure)
      case Ok(base) => KeyJudged(p, pair, s, metadata, base)
  }

  /** Everything Verify decides before it touches the replay store. */
  function BeforeReplay(p: Profile, m: Message, sigLabel: string, fields: Fields, s: Surroundings): Result<Judgement, Failure> {
    if s.canceled || sigLabel == "" || !Matching(fields) || Selected(sigLabel, fields).None? then Err(SelectionFailure)
    else if p.requireExternal && !s.external then Err(PolicyFailure)
    else Judged(p, m, Selected(sigLabel, fields).value, s)
  }

  function RecordOf(m: Metadata): Record {
    Record(Identity(m.keyID, m.nonce), m.replayExpires)
  }

  /** What the replay stage does to the store and to the judgement. */
  ghost predicate ReplayStage(l: Limits, judgement: Judgement, s: Surroundings, before: Store, after: Store,
                              r: Result<VerifiedSignature, Failure>) {
    if judgement.metadata.nonce == "" then after == before && r == Ok(judgement.signature)
    else
      var record := RecordOf(judgement.metadata);
      if s.replayCanceled || !Complete(l, record) then after == before && r == Err(ReplayFailure)
      else exists outcome ::
        Lazy(l, before, record, s.replayNow, after, outcome)
        && r == if outcome == Accepted && !s.replayLate then Ok(judgement.signature) else Err(ReplayFailure)
  }

  /** The stages of Verify before the replay store. */
  method Judge(p: Profile, m: Message, sigLabel: string, fields: Fields, s: Surroundings) returns (r: Result<Judgement, Failure>)
    requires ValidProfile(p) && m.maxSignatureBaseBytes <= MAX_INT
    ensures r == BeforeReplay(p, m, sigLabel, fields, s)
  {
    hide Matching, Selected, Validated, SignatureBase.Base, KeyRefusal;
    if s.canceled || sigLabel == "" {
      return Err(SelectionFailure);
    }
    var matching := MatchingLabelSets(fields);
    if !matching {
      return Err(SelectionFailure);
    }
    var selected := SelectSignature(sigLabel, fields);
    if selected.None? {
      return Err(SelectionFailure);
    }
    if p.requireExternal && !s.external {
      return Err(PolicyFailure);
    }
    var pair := selected.value;
    var validated := ValidateInput(p, pair.input, s.now);
    if validated.Err? {
      return Err(validated.error);
    }
    var metadata := validated.value;
    var base := SignatureBase.CreateSignatureBase(m, pair.input);
    if base.Err? {
      return Err(BaseFailure);
    }
    var resolved := s.resolve(metadata.keyID);
    if resolved.None? {
      return Err(KeyResolutionFailure);
    }
    var key := resolved.value;
    var refusal := KeyRefusal(p, key, metadata.algorithm, metadata.created, s.keyNow);
    if refusal.Some? {
      return Err(refusal.value);
    }
    var checked := s.check(key.algorithm, key.material, base.value, pair.signature.value);
    if checked == KeyMismatch {
      return Err(KeyFailure);
    }
    if checked == Rejects {
      return Err(CryptographicFailure);
    }
    return Ok(Judgement(Reported(pair, metadata, key), metadata));
  }

  /**
    Verify.  A call that fails before the replay stage, or whose input carries no
    nonce, leaves the store as it was; otherwise the store takes one step for
    exactly the record of the signed input.
   */
  method Verify(p: Profile, m: Message, sigLabel: string, fields: Fields, store: ReplayStore.MemoryReplayStore, s: Surroundings)
    returns (r: Result<VerifiedSignature, Failure>)
    requires ValidProfile(p) && m.maxSignatureBaseBytes <= MAX_INT && store.Valid()
    modifies store`expiry, store`entries, store`latestNow, store.Slots()
    ensures store.Valid()
    ensures BeforeReplay(p, m, sigLabel, fields, s).Err? ==>
      r == Err(BeforeReplay(p, m, sigLabel, fields, s).error) && store.State() == old(store.State())
    ensures BeforeReplay(p, m, sigLabel, fields, s).Ok? ==>
      ReplayStage(store.limits, BeforeReplay(p, m, sigLabel, fields, s).value, s, old(store.State()), store.State(), r)
  {
    var judged := Judge(p, m, sigLabel, fields, s);
    if judged.Err? {
      return Err(judged.error);
    }
    var judgement := judged.value;
    hide BeforeReplay, Lazy, Complete;
    if judgement.metadata.nonce != "" {
      var outcome := store.Consume(RecordOf(judgement.metadata), s.replayNow, s.replayCanceled);
      if s.replayCanceled || outcome != Accepted || s.replayLate {
        return Err(ReplayFailure);
      }
    }
    return Ok(judgement.signature);
  }

  // ----- what is signed verifies ----------------------------------------------------------

  /** A verification primitive accepts what the signing primitive makes with the matching key. */
  ghost predicate Correct(primitive: Signing, check: Checking, signingMaterial: nat, verifyingMaterial: nat) {
    forall algorithm, base :: primitive(algorithm, signingMaterial, base).Ok? ==>
      check(algorithm, verifyingMaterial, base, primitive(algorithm, signingMaterial, base).value) == Verifies
  }

  /** The windows of a signature: of its input at `now`, of its key at `keyNow`. */
  predicate AcceptedAt(sp: SigningProfile, p: Profile, key: SigningKey, resolved: ResolvedKey, nonce: string,
                       signed: Time, now: Time, keyNow: Time) {
    && InWindows(sp, p, signed, now) && (nonce != "" ==> SignedEnd(sp, p, signed) != 0)
    && key.notBefore - p.clockSkew <= keyNow < key.notAfter + p.clockSkew && keyNow < resolved.freshUntil
    && (Truncated(signed) == 0 || key.notBefore - p.clockSkew <= Truncated(signed))
  }

  /** A received message gives the signer's base: it resolves what was covered to the same, under no smaller limit. */
  ghost predicate Carries(m: Message, n: Message, cs: seq<Component>) {
    SignatureBase.ValidContext(n) && SignatureBase.Limit(m) <= SignatureBase.Limit(n) && SignatureBase.Reads(m, n, cs)
  }

  /** The fields present the signature under its label, whatever else they hold. */
  predicate Presents(fields: Fields, sigLabel: string, signed: SignedFields) {
    && Matching(fields) && Selected(sigLabel, fields).Some?
    && Selected(sigLabel, fields).value.input == signed.input
    && Selected(sigLabel, fields).value.signature.value == signed.signature.value
  }

  /**
    Sign, then verify: with compatible profiles, a matching key and a correct
    primitive, everything Sign emits for a message `m` reaches the replay stage,
    with a received message `n` that carries what was covered, exactly inside the
    created, expires, age, skew, key validity and freshness windows, under the
    record of its nonce.
   */
  lemma SignThenVerify(sp: SigningProfile, p: Profile, m: Message, n: Message, canceled: bool, external: bool, sigLabel: string,
                       nonce: string, key: SigningKey, signed: Time, primitive: Signing, fields: Fields, s: Surroundings,
                       resolved: ResolvedKey)
    requires ValidSigningProfile(sp) && ValidProfile(p) && Compatible(sp, p)
    requires Signed(sp, m, canceled, external, sigLabel, nonce, Provided(key), signed, primitive).Ok?
    requires Carries(m, n, sp.components)
    requires Presents(fields, sigLabel, Signed(sp, m, canceled, external, sigLabel, nonce, Provided(key), signed, primitive).value)
    requires !s.canceled && (p.requireExternal ==> s.external)
    requires s.resolve(key.keyID) == Some(resolved) && Resolves(key, resolved)
    requires Correct(primitive, s.check, key.material, resolved.material)
    ensures var r := BeforeReplay(p, n, sigLabel, fields, s);
      && (r.Ok? <==> AcceptedAt(sp, p, key, resolved, nonce, signed, s.now, s.keyNow))
      && (r.Ok? && nonce != "" ==> RecordOf(r.value.metadata) == Record(Identity(key.keyID, nonce), SignedEnd(sp, p, signed)))
      && (r.Ok? ==> (r.value.metadata.nonce == nonce && r.value.signature.algorithm == key.algorithm))
  {
    assert sigLabel != "" by { hide SignatureBase.Base, SignedParameters, Compatible, Carries, Presents; }
    assert resolved.algorithm == key.algorithm by { hide SignatureBase.Base, Signed, Compatible, Carries, Presents; }
    hide SignedParameters, Validated, SignatureBase.Base, KeyRefusal, ValidLabel, Matching, Selected;
    hide Compatible, ValidSigningProfile;
    hide SignatureBase.Reads, SignatureBase.Limit, SignatureBase.ValidContext;
    SignatureBase.BaseTransfers(m, n, SignedInput(sp, key, nonce, sigLabel, signed));
    assert Signable(sp, key, signed) && NonceSupplied(sp, nonce);
    SignedAccepted(sp, p, key, nonce, signed, sigLabel, s.now);
    KeyAccepted(sp, p, key, resolved, if sp.algorithmParameter == Required then Some(key.algorithm) else None, signed, s.keyNow);
    hide Signable, NonceSupplied, InWindows, SignedEnd, Resolves;
  }

  // ----- what verifies was signed ----------------------------------------------------------

  /** One signature: the key it was made with, by its verifying half, the message and the input. */
  datatype SigningEvent = SigningEvent(algorithm: string, material: nat, m: Message, input: SignatureInput)

  ghost predicate SignedWith(log: seq<SigningEvent>, i: nat, algorithm: string, material: nat, base: string) {
    && i < |log| && log[i].algorithm == algorithm && log[i].material == material
    && SignatureBase.Base(log[i].m, log[i].input) == Ok(base)
  }

  /** Under a key the primitive accepts only bases that were signed with that key. */
  ghost predicate Unforgeable(check: Checking, algorithm: string, material: nat, log: seq<SigningEvent>) {
    forall base: string, value: seq<byte> :: check(algorithm, material, base, value) == Verifies ==>
      exists i: nat :: SignedWith(log, i, algorithm, material, base)
  }

  /** What reaches the replay stage was checked, over its base, with the key resolved for its keyid. */
  lemma KeyUsed(p: Profile, m: Message, sigLabel: string, fields: Fields, s: Surroundings)
    requires BeforeReplay(p, m, sigLabel, fields, s).Ok?
    ensures Selected(sigLabel, fields).Some? && SignatureBase.Base(m, Selected(sigLabel, fields).value.input).Ok?
    ensures var pair, keyID := Selected(sigLabel, fields).value, BeforeReplay(p, m, sigLabel, fields, s).value.signature.keyID;
      && TextParameter(pair.input.parameters, "keyid") == Some(keyID) && s.resolve(keyID).Some?
      && s.check(s.resolve(keyID).value.algorithm, s.resolve(keyID).value.material,
                 SignatureBase.Base(m, pair.input).value, pair.signature.value) == Verifies
  {
    hide CoverageAccepted, TimeRefusal, SignatureBase.Base, KeyRefusal, Matching, Selected, Lookup;
  }

  /**
    Against an unforgeable primitive, whatever reaches the replay stage was signed
    as it is read: with the key returned for its keyid, some signature was made
    over the same components in the same order, with the same signature parameters
    and the same resolved values.
   */
  lemma VerifiedWasSigned(p: Profile, m: Message, sigLabel: string, fields: Fields, s: Surroundings, log: seq<SigningEvent>)
    returns (i: nat)
    requires BeforeReplay(p, m, sigLabel, fields, s).Ok?
    requires forall keyID :: s.resolve(keyID).Some? ==>
      Unforgeable(s.check, s.resolve(keyID).value.algorithm, s.resolve(keyID).value.material, log)
    ensures i < |log|
    ensures var keyID := BeforeReplay(p, m, sigLabel, fields, s).value.signature.keyID;
      var x, key := Selected(sigLabel, fields).value.input, s.resolve(keyID);
      && TextParameter(x.parameters, "keyid") == Some(keyID)
      && key.Some? && log[i].algorithm == key.value.algorithm && log[i].material == key.value.material
    ensures var x, y := Selected(sigLabel, fields).value.input, log[i].input;
      && SignatureBase.Base(m, x).Ok? && SignatureBase.Base(log[i].m, y).Ok?
      && ItemsOf(x.components) == ItemsOf(y.components) && Merge(x.parameters) == Merge(y.parameters)
      && SignatureBase.ValuesOf(m, x) == SignatureBase.ValuesOf(log[i].m, y)
  {
    KeyUsed(p, m, sigLabel, fields, s);
    hide BeforeReplay, Selected, ItemsOf, Merge, SignatureBase.ValuesOf, SignatureBase.Base, TextParameter;
    var x := Selected(sigLabel, fields).value.input;
    var base, key := SignatureBase.Base(m, x).value, s.resolve(BeforeReplay(p, m, sigLabel, fields, s).value.signature.keyID).value;
    i :| SignedWith(log, i, key.algorithm, key.material, base);
    SignatureBase.BaseInjective(m, x, log[i].m, log[i].input);
  }

  // ----- one success per signed nonce -------------------------------------------------------

  /** The replay record of a call that reached the replay stage is a function of profile and signed input. */
  lemma RecordFixed(p: Profile, m: Message, n: Message, sigLabel: string, otherLabel: string,
                    x: Fields, y: Fields, s: Surroundings, u: Surroundings)
    requires BeforeReplay(p, m, sigLabel, x, s).Ok? && BeforeReplay(p, n, otherLabel, y, u).Ok?
    requires Selected(sigLabel, x).value.input.parameters == Selected(otherLabel, y).value.input.parameters
    ensures RecordOf(BeforeReplay(p, m, sigLabel, x, s).value.metadata)
      == RecordOf(BeforeReplay(p, n, otherLabel, y, u).value.metadata)
  {
    hide CoverageAccepted, TimeRefusal, ParameterRefusal, MetadataOf, SignatureBase.Base, KeyRefusal, Matching;
  }

  /**
    In every interleaving of concurrent verifications over one store, of all calls
    that present the same signature parameters at most one has its record
    accepted, whatever messages, labels, clocks and cancellations they come with,
    unless the wall time of the store was set back across the replay expiry.
   */
  lemma VerifiesOnce(l: Limits, states: seq<ReplayProtocol.World>, k: nat, c: ReplayProtocol.Caller, d: ReplayProtocol.Caller,
                     p: Profile, m: Message, n: Message, sigLabel: string, otherLabel: string,
                     x: Fields, y: Fields, s: Surroundings, u: Surroundings)
    requires ReplayProtocol.Run(l, states) && k < |states| && c != d
    requires BeforeReplay(p, m, sigLabel, x, s).Ok? && BeforeReplay(p, n, otherLabel, y, u).Ok?
    requires Selected(sigLabel, x).value.input.parameters == Selected(otherLabel, y).value.input.parameters
    requires c in states[k].callers
      && states[k].callers[c] == ReplayProtocol.Done(RecordOf(BeforeReplay(p, m, sigLabel, x, s).value.metadata), Accepted)
    ensures
      || !(d in states[k].callers
           && states[k].callers[d] == ReplayProtocol.Done(RecordOf(BeforeReplay(p, n, otherLabel, y, u).value.metadata), Accepted))
      || ReplayProtocol.Crossed(states, k, BeforeReplay(p, m, sigLabel, x, s).value.metadata.replayExpires)
  {
    RecordFixed(p, m, n, sigLabel, otherLabel, x, y, s, u);
    hide BeforeReplay, ReplayProtocol.Run, ReplayProtocol.Crossed;
    var r := RecordOf(BeforeReplay(p, m, sigLabel, x, s).value.metadata);
    if d in states[k].callers && states[k].callers[d] == ReplayProtocol.Done(r, Accepted) {
      ReplayProtocol.AtMostOnce(l, states, k, c, d, r, r);
    }
  }
}
