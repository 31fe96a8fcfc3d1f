/**
  What a signer emits and what a verification profile accepts
  (signer.go:255-358, verifier.go:409-562).
 */
module Profiles {
  import opened Basics
  import opened StructuredFields
  import opened Identifiers
  import ReplayModel

  type Time = ReplayModel.Time

  const SECOND := 1_000_000_000

  /** Seconds from Go's zero time to the Unix epoch. */
  const UNIX_EPOCH := 62_135_596_800

  /** time.Time.Unix: whole seconds, rounded down. */
  function Unix(t: Time): int {
    t / SECOND - UNIX_EPOCH
  }

  /** time.Unix(seconds, 0) */
  function FromUnix(seconds: int): Time {
    (seconds + UNIX_EPOCH) * SECOND
  }

  /** `t` without its fraction of a second. */
  function Truncated(t: Time): Time {
    FromUnix(Unix(t))
  }

  lemma TruncatedBounds(t: Time)
    ensures Truncated(t) <= t < Truncated(t) + SECOND
    ensures Truncated(t) == t <==> t % SECOND == 0
  {
  }

  lemma TruncatedLater(t: Time, lifetime: int)
    requires lifetime % SECOND == 0
    ensures Truncated(t + lifetime) == Truncated(t) + lifetime
  {
  }

  // ----- signature parameters ---------------------------------------------------------

  datatype Presence = Forbidden | Optional | Required

  /** presenceAllowed */
  predicate Allowed(policy: Presence, present: bool) {
    policy == Optional || (policy == Required && present) || (policy == Forbidden && !present)
  }

  /** The first parameter with a name. */
  function Lookup(ps: seq<Parameter>, name: string): Option<BareItem> {
    if ps == [] then None else if ps[0].name == name then Some(ps[0].value) else Lookup(ps[1..], name)
  }

  /** integerParameter */
  function IntegerParameter(ps: seq<Parameter>, name: string): Option<int> {
    match Lookup(ps, name) case Some(Integer(n)) => Some(n) case _ => None
  }

  /** stringParameter */
  function TextParameter(ps: seq<Parameter>, name: string): Option<string> {
    match Lookup(ps, name) case Some(Text(chars)) => Some(chars) case _ => None
  }

  // ----- verification profiles -----------------------------------------------------------

  datatype Failure =
    | SelectionFailure | PolicyFailure | TimeFailure | KeyResolutionFailure | KeyFailure
    | AlgorithmFailure | BaseFailure | CryptographicFailure | ReplayFailure

  datatype Profile = Profile(
    algorithms: set<string>, required: seq<Component>, allowEmptyCoverage: bool,
    created: Presence, expires: Presence, algorithmParameter: Presence, nonce: Presence, tag: Presence,
    allowedTags: set<string>, maxAge: int, clockSkew: int, requireExternal: bool)

  /** What NewVerificationProfile checks about coverage and durations. */
  predicate ValidProfile(p: Profile) {
    && p.clockSkew >= 0 && p.maxAge + p.clockSkew <= MAX_INT
    && (if p.created == Forbidden then p.maxAge == 0 else p.maxAge > 0)
    && (p.required == [] ==> p.allowEmptyCoverage)
    && (forall i :: 0 <= i < |p.required| ==> ComparisonKey(p.required[i]).Some?)
    && "" !in p.allowedTags
  }

  /** A time of 0 is the zero time: absent. */
  datatype Metadata = Metadata(
    keyID: string, nonce: string, algorithm: Option<string>, created: Time, expires: Time, replayExpires: Time)

  predicate Keyed(cs: seq<Component>) {
    forall i :: 0 <= i < |cs| ==> ComparisonKey(cs[i]).Some?
  }

  predicate Covers(cs: seq<Component>, c: Component) {
    exists i :: 0 <= i < |cs| && ComparisonKey(cs[i]) == ComparisonKey(c)
  }

  /** The coverage part of validateInput. */
  predicate CoverageAccepted(p: Profile, cs: seq<Component>) {
    && (cs == [] ==> p.allowEmptyCoverage)
    && Keyed(cs)
    && forall i :: 0 <= i < |p.required| ==> Covers(cs, p.required[i])
  }

  /** The creation time lies in the window of the profile. */
  predicate CreatedInWindow(p: Profile, created: Time, now: Time) {
    created <= now + p.clockSkew && ReplayModel.Sub(now, created) <= p.maxAge + p.clockSkew
  }

  /** The expiration time has not passed and is later than a creation time. */
  predicate ExpiresInWindow(p: Profile, created: Option<int>, expires: Time, now: Time) {
    now < expires + p.clockSkew && (created.Some? ==> expires > FromUnix(created.value))
  }

  /** The earliest end among the age limit and the expiration, as the code combines them. */
  function ReplayExpires(p: Profile, created: Option<int>, expires: Option<int>): Time {
    var first := if created.Some? then FromUnix(created.value) + (p.maxAge + p.clockSkew) else 0;
    if expires.None? then first
    else
      var second := FromUnix(expires.value) + p.clockSkew;
      if first == 0 || second < first then second else first
  }

  function MetadataOf(p: Profile, ps: seq<Parameter>): Metadata {
    var created, expires := IntegerParameter(ps, "created"), IntegerParameter(ps, "expires");
    var keyID, nonce := TextParameter(ps, "keyid"), TextParameter(ps, "nonce");
    Metadata(if keyID.Some? then keyID.value else "", if nonce.Some? then nonce.value else "", TextParameter(ps, "alg"),
             if created.Some? then FromUnix(created.value) else 0, if expires.Some? then FromUnix(expires.value) else 0,
             ReplayExpires(p, created, expires))
  }

  /** The time checks of validateInput, in order. */
  function TimeRefusal(p: Profile, ps: seq<Parameter>, now: Time): Option<Failure> {
    var created, expires := IntegerParameter(ps, "created"), IntegerParameter(ps, "expires");
    if !Allowed(p.created, created.Some?) then Some(PolicyFailure)
    else if created.Some? && !CreatedInWindow(p, FromUnix(created.value), now) then Some(TimeFailure)
    else if !Allowed(p.expires, expires.Some?) then Some(PolicyFailure)
    else if expires.Some? && !ExpiresInWindow(p, created, FromUnix(expires.value), now) then Some(TimeFailure)
    else None
  }

  /** The remaining parameter checks of validateInput, in order. */
  function ParameterRefusal(p: Profile, ps: seq<Parameter>): Option<Failure> {
    var algorithm, nonce, tag := TextParameter(ps, "alg"), TextParameter(ps, "nonce"), TextParameter(ps, "tag");
    if !Allowed(p.algorithmParameter, algorithm.Some?) then Some(PolicyFailure)
    else if algorithm.Some? && algorithm.value !in p.algorithms then Some(AlgorithmFailure)
    else if MetadataOf(p, ps).keyID == "" then Some(PolicyFailure)
    else if !Allowed(p.nonce, nonce.Some?) || nonce == Some("") then Some(PolicyFailure)
    else if nonce.Some? && MetadataOf(p, ps).replayExpires == 0 then Some(PolicyFailure)
    else if !Allowed(p.tag, tag.Some?) then Some(PolicyFailure)
    else if tag.Some? && tag.value !in p.allowedTags then Some(PolicyFailure)
    else None
  }

  /** validateInput */
  function Validated(p: Profile, input: SignatureInput, now: Time): Result<Metadata, Failure> {
    if !CoverageAccepted(p, input.components) then Err(PolicyFailure)
    else
      var time := TimeRefusal(p, input.parameters, now);
      if time.Some? then Err(time.value)
      else
        var other := ParameterRefusal(p, input.parameters);
        if other.Some? then Err(other.value) else Ok(MetadataOf(p, input.parameters))
  }

  /** The coverage loops of validateInput. */
  method CheckCoverage(p: Profile, cs: seq<Component>) returns (accepted: bool)
    requires forall i :: 0 <= i < |p.required| ==> ComparisonKey(p.required[i]).Some?
    ensures accepted <==> CoverageAccepted(p, cs)
  {
    hide ComparisonKey;
    if |cs| == 0 && !p.allowEmptyCoverage {
      return false;
    }
    var covered: set<string> := {};
    for i := 0 to |cs|
      invariant Keyed(cs[..i])
      invariant forall key :: key in covered <==> exists k :: 0 <= k < i && ComparisonKey(cs[k]) == Some(key)
    {
      var key := ComparisonKey(cs[i]);
      if key.None? {
        return false;
      }
      covered := covered + {key.value};
      assert cs[..i + 1] == cs[..i] + [cs[i]];
    }
    assert cs[..|cs|] == cs;
    for i := 0 to |p.required|
      invariant forall k :: 0 <= k < i ==> Covers(cs, p.required[k])
    {
      var key := ComparisonKey(p.required[i]);
      if key.value !in covered {
        return false;
      }
    }
    return true;
  }

  /** validateInput, filling the metadata step by step. */
  method ValidateInput(p: Profile, input: SignatureInput, now: Time) returns (r: Result<Metadata, Failure>)
    requires forall i :: 0 <= i < |p.required| ==> ComparisonKey(p.required[i]).Some?
    ensures r == Validated(p, input, now)
  {
    hide CoverageAccepted, Lookup;
    var covered := CheckCoverage(p, input.components);
    if !covered {
      return Err(PolicyFailure);
    }
    var metadata := Metadata("", "", None, 0, 0, 0);
    var created := IntegerParameter(input.parameters, "created");
    if !Allowed(p.created, created.Some?) {
      return Err(PolicyFailure);
    }
    if created.Some? {
      metadata := metadata.(created := FromUnix(created.value));
      if metadata.created > now + p.clockSkew || ReplayModel.Sub(now, metadata.created) > p.maxAge + p.clockSkew {
        return Err(TimeFailure);
      }
      metadata := metadata.(replayExpires := metadata.created + (p.maxAge + p.clockSkew));
    }
    var expires := IntegerParameter(input.parameters, "expires");
    if !Allowed(p.expires, expires.Some?) {
      return Err(PolicyFailure);
    }
    if expires.Some? {
      metadata := metadata.(expires := FromUnix(expires.value));
      if !(now < metadata.expires + p.clockSkew) || (created.Some? && !(metadata.expires > metadata.created)) {
        return Err(TimeFailure);
      }
      var replayExpiration := metadata.expires + p.clockSkew;
      if metadata.replayExpires == 0 || replayExpiration < metadata.replayExpires {
        metadata := metadata.(replayExpires := replayExpiration);
      }
    }
    var algorithm := TextParameter(input.parameters, "alg");
    if !Allowed(p.algorithmParameter, algorithm.Some?) {
      return Err(PolicyFailure);
    }
    metadata := metadata.(algorithm := algorithm);
    if algorithm.Some? && algorithm.value !in p.algorithms {
      return Err(AlgorithmFailure);
    }
    var keyID := TextParameter(input.parameters, "keyid");
    metadata := metadata.(keyID := if keyID.Some? then keyID.value else "");
    if metadata.keyID == "" {
      return Err(PolicyFailure);
    }
    var nonce := TextParameter(input.parameters, "nonce");
    metadata := metadata.(nonce := if nonce.Some? then nonce.value else "");
    if !Allowed(p.nonce, nonce.Some?) || (nonce.Some? && metadata.nonce == "") {
      return Err(PolicyFailure);
    }
    if nonce.Some? && metadata.replayExpires == 0 {
      return Err(PolicyFailure);
    }
    var tag := TextParameter(input.parameters, "tag");
    if !Allowed(p.tag, tag.Some?) {
      return Err(PolicyFailure);
    }
    if tag.Some? && tag.value !in p.allowedTags {
      return Err(PolicyFailure);
    }
    return Ok(metadata);
  }

  /** Acceptance at two times gives one result: nothing in it depends on the clock. */
  lemma MetadataFixed(p: Profile, input: SignatureInput, now: Time, later: Time)
    requires Validated(p, input, now).Ok? && Validated(p, input, later).Ok?
    ensures Validated(p, input, now) == Validated(p, input, later)
  {
    hide CoverageAccepted, MetadataOf, TimeRefusal, ParameterRefusal;
  }

  /**
    A record is retained as long as its signature is accepted.  An accepted input
    with a nonce has a replay expiry, and the clock has passed it exactly when the
    age limit with skew is the largest duration and the age is beyond it: the age
    then saturates at the limit, and stays accepted.
   */
  lemma RetentionExact(p: Profile, input: SignatureInput, now: Time)
    requires ValidProfile(p) && Validated(p, input, now).Ok? && Validated(p, input, now).value.nonce != ""
    ensures Validated(p, input, now).value.replayExpires != 0
    ensures var created := IntegerParameter(input.parameters, "created");
      now > Validated(p, input, now).value.replayExpires
      <==> created.Some? && p.maxAge + p.clockSkew == MAX_INT
           && now - FromUnix(created.value) > MAX_INT && FromUnix(created.value) + MAX_INT != 0
  {
    hide CoverageAccepted, Lookup, ComparisonKey;
  }

  const THREE := [Parameter("created", Integer(0)), Parameter("keyid", Text("k")), Parameter("nonce", Text("n"))]

  lemma LookupThree()
    ensures Lookup(THREE, "created") == Some(Integer(0))
    ensures Lookup(THREE, "keyid") == Some(Text("k")) && Lookup(THREE, "nonce") == Some(Text("n"))
    ensures Lookup(THREE, "expires") == Lookup(THREE, "alg") == Lookup(THREE, "tag") == None
  {
    var ps := THREE;
    var two, one := [ps[1], ps[2]], [ps[2]];
    assert ps[1..] == two && two[1..] == one && one[1..] == [];
    assert "keyid"[0] == 'k' && "nonce"[0] == 'n' && "created"[0] == 'c';
    assert "expires"[0] == 'e' && "alg"[0] == 'a' && "tag"[0] == 't';
    forall name | name in ["expires", "alg", "tag"] ensures Lookup(ps, name) == None {
      assert Lookup(one, name) == None && Lookup(two, name) == None;
    }
    assert Lookup(two, "nonce") == Lookup(one, "nonce");
  }

  /** Such an input: created at the Unix epoch, under the largest age, and read one nanosecond too late. */
  lemma RetentionLapses(p: Profile, input: SignatureInput, now: Time)
    requires p == Profile({}, [], true, Required, Optional, Optional, Optional, Optional, {}, MAX_INT, 0, false)
    requires input == SignatureInput("s", [], THREE)
    requires now == FromUnix(0) + MAX_INT + 1
    ensures ValidProfile(p) && Validated(p, input, now).Ok?
    ensures Validated(p, input, now).value.nonce == "n" && now > Validated(p, input, now).value.replayExpires
  {
    assert CoverageAccepted(p, []);
    LookupThree();
    hide Lookup, CoverageAccepted;
  }

  // ----- keys -----------------------------------------------------------------------------

  /** `material` is 0 for a nil key. */
  datatype ResolvedKey = ResolvedKey(
    algorithm: string, material: nat, notBefore: Time, notAfter: Time, freshUntil: Time, revoked: bool)

  /** The lifecycle conditions of validateKey. */
  predicate Usable(p: Profile, key: ResolvedKey, created: Time, now: Time) {
    && !key.revoked && key.material != 0 && key.notBefore != 0 && key.notAfter != 0 && key.freshUntil != 0
    && key.notAfter > key.notBefore
    && key.notBefore - p.clockSkew <= now < key.notAfter + p.clockSkew && now < key.freshUntil
    && (created != 0 ==> key.notBefore - p.clockSkew <= created < key.notAfter + p.clockSkew)
  }

  /** validateKey */
  function KeyRefusal(p: Profile, key: ResolvedKey, algorithm: Option<string>, created: Time, now: Time): Option<Failure> {
    if !Usable(p, key, created, now) then Some(KeyFailure)
    else if key.algorithm !in p.algorithms then Some(AlgorithmFailure)
    else if algorithm.Some? && algorithm.value != key.algorithm then Some(AlgorithmFailure)
    else None
  }

  // ----- signing ---------------------------------------------------------------------------

  datatype SigningProfile = SigningProfile(
    algorithms: set<string>, components: seq<Component>,
    expires: Presence, algorithmParameter: Presence, nonce: Presence, tag: Presence,
    tagValue: string, lifetime: int, requireExternal: bool)

  /** What NewSigningProfile checks about policies, coverage and the lifetime. */
  predicate ValidSigningProfile(p: SigningProfile) {
    && p.expires != Optional && p.algorithmParameter != Optional && p.nonce != Optional && p.tag != Optional
    && (if p.expires == Required then p.lifetime >= SECOND && p.lifetime % SECOND == 0 else p.lifetime == 0)
    && (p.tag == Required ==> p.tagValue != "")
    && Keyed(p.components)
  }

  datatype SigningKey = SigningKey(keyID: string, algorithm: string, material: nat, notBefore: Time, notAfter: Time, revoked: bool)

  /** The checks Sign makes of the key at its processing time. */
  predicate Signable(p: SigningProfile, key: SigningKey, now: Time) {
    && key.keyID != "" && key.material != 0 && !key.revoked && key.notBefore != 0 && key.notAfter != 0
    && key.notAfter > key.notBefore && key.notBefore <= now < key.notAfter
    && key.algorithm in p.algorithms
    && (p.expires == Required ==> now + p.lifetime <= key.notAfter)
  }

  /** The caller supplied a nonce exactly when the profile wants one. */
  predicate NonceSupplied(p: SigningProfile, nonce: string) {
    (p.nonce == Required ==> nonce != "") && (p.nonce == Forbidden ==> nonce == "")
  }

  /** The emitted parameters, by name: what each is when it is emitted. */
  function Emitted(p: SigningProfile, key: SigningKey, nonce: string, now: Time, name: string): Option<BareItem> {
    if name == "created" then Some(Integer(Unix(now)))
    else if name == "expires" && p.expires == Required then Some(Integer(Unix(now + p.lifetime)))
    else if name == "nonce" && p.nonce == Required then Some(Text(nonce))
    else if name == "keyid" then Some(Text(key.keyID))
    else if name == "alg" && p.algorithmParameter == Required then Some(Text(key.algorithm))
    else if name == "tag" && p.tag == Required then Some(Text(p.tagValue))
    else None
  }

  const ORDER: seq<string> := ["created", "expires", "nonce", "keyid", "alg", "tag"]

  /** The emitted parameters with names in `names`, in that order. */
  function EmittedIn(p: SigningProfile, key: SigningKey, nonce: string, now: Time, names: seq<string>): seq<Parameter> {
    if names == [] then []
    else
      var value := Emitted(p, key, nonce, now, names[0]);
      (if value.Some? then [Parameter(names[0], value.value)] else []) + EmittedIn(p, key, nonce, now, names[1..])
  }

  function SignedParameters(p: SigningProfile, key: SigningKey, nonce: string, now: Time): seq<Parameter> {
    EmittedIn(p, key, nonce, now, ORDER)
  }

  lemma {:induction false} EmittedLast(p: SigningProfile, key: SigningKey, nonce: string, now: Time,
                                       names: seq<string>, name: string)
    ensures EmittedIn(p, key, nonce, now, names + [name])
      == EmittedIn(p, key, nonce, now, names) + EmittedIn(p, key, nonce, now, [name])
  {
    if names == [] {
      assert [] + [name] == [name];
    } else {
      assert (names + [name])[1..] == names[1..] + [name];
      EmittedLast(p, key, nonce, now, names[1..], name);
      hide Emitted;
    }
  }

  lemma Appends(p: SigningProfile, key: SigningKey, nonce: string, now: Time, name: string)
    ensures var value := Emitted(p, key, nonce, now, name);
      EmittedIn(p, key, nonce, now, [name]) == if value.Some? then [Parameter(name, value.value)] else []
  {
    hide Emitted;
    assert [name][1..] == [];
  }

  /** The parameter list of Sign, built by conditional appends. */
  method BuildParameters(p: SigningProfile, key: SigningKey, nonce: string, now: Time) returns (ps: seq<Parameter>)
    requires ValidSigningProfile(p)
    ensures ps == SignedParameters(p, key, nonce, now)
  {
    hide EmittedIn, ValidSigningProfile;
    ps := [Parameter("created", Integer(Unix(now)))];
    Appends(p, key, nonce, now, "created");
    Appends(p, key, nonce, now, "expires");
    EmittedLast(p, key, nonce, now, ["created"], "expires");
    if p.expires == Required {
      ps := ps + [Parameter("expires", Integer(Unix(now + p.lifetime)))];
    }
    Appends(p, key, nonce, now, "nonce");
    EmittedLast(p, key, nonce, now, ["created", "expires"], "nonce");
    if p.nonce == Required {
      ps := ps + [Parameter("nonce", Text(nonce))];
    }
    assert ["created"] + ["expires"] == ["created", "expires"];
    assert ["created", "expires"] + ["nonce"] == ["created", "expires", "nonce"];
    assert ps == EmittedIn(p, key, nonce, now, ["created", "expires", "nonce"]);
    Appends(p, key, nonce, now, "keyid");
    EmittedLast(p, key, nonce, now, ["created", "expires", "nonce"], "keyid");
    ps := ps + [Parameter("keyid", Text(key.keyID))];
    Appends(p, key, nonce, now, "alg");
    EmittedLast(p, key, nonce, now, ["created", "expires", "nonce", "keyid"], "alg");
    if p.algorithmParameter == Required {
      ps := ps + [Parameter("alg", Text(key.algorithm))];
    }
    Appends(p, key, nonce, now, "tag");
    EmittedLast(p, key, nonce, now, ["created", "expires", "nonce", "keyid", "alg"], "tag");
    if p.tag == Required {
      ps := ps + [Parameter("tag", Text(p.tagValue))];
    }
    assert ["created", "expires", "nonce"] + ["keyid"] == ["created", "expires", "nonce", "keyid"];
    assert ["created", "expires", "nonce", "keyid"] + ["alg"] == ["created", "expires", "nonce", "keyid", "alg"];
    assert ["created", "expires", "nonce", "keyid", "alg"] + ["tag"] == ORDER;
  }

  lemma {:induction false} LookupEmitted(p: SigningProfile, key: SigningKey, nonce: string, now: Time,
                                         names: seq<string>, name: string)
    ensures Lookup(EmittedIn(p, key, nonce, now, names), name)
      == if name in names then Emitted(p, key, nonce, now, name) else None
    decreases |names|
  {
    hide Emitted;
    if names != [] {
      LookupEmitted(p, key, nonce, now, names[1..], name);
      assert names == [names[0]] + names[1..];
      var value, rest := Emitted(p, key, nonce, now, names[0]), EmittedIn(p, key, nonce, now, names[1..]);
      if value.Some? {
        assert ([Parameter(names[0], value.value)] + rest)[1..] == rest;
      } else {
        assert [] + rest == rest;
      }
    }
  }

  lemma EmittedLookup(p: SigningProfile, key: SigningKey, nonce: string, now: Time)
    ensures forall name :: name in ORDER ==>
      Lookup(SignedParameters(p, key, nonce, now), name) == Emitted(p, key, nonce, now, name)
  {
    hide EmittedIn, Emitted, Lookup;
    forall name | name in ORDER
      ensures Lookup(SignedParameters(p, key, nonce, now), name) == Emitted(p, key, nonce, now, name)
    {
      LookupEmitted(p, key, nonce, now, ORDER, name);
    }
  }

  // ----- what is signed is accepted -------------------------------------------------------------

  /** Every choice of the signing profile is one the verification profile accepts. */
  predicate Compatible(s: SigningProfile, p: Profile) {
    && CoverageAccepted(p, s.components)
    && p.created != Forbidden
    && Allowed(p.expires, s.expires == Required)
    && Allowed(p.algorithmParameter, s.algorithmParameter == Required)
    && Allowed(p.nonce, s.nonce == Required)
    && Allowed(p.tag, s.tag == Required) && (s.tag == Required ==> s.tagValue in p.allowedTags)
    && s.algorithms <= p.algorithms
  }

  /** The clock of the verifier is inside the windows of a signature made at `signed`. */
  predicate InWindows(s: SigningProfile, p: Profile, signed: Time, now: Time) {
    && Truncated(signed) - p.clockSkew <= now
    && ReplayModel.Sub(now, Truncated(signed)) <= p.maxAge + p.clockSkew
    && (s.expires == Required ==> now < Truncated(signed) + s.lifetime + p.clockSkew)
  }

  /** The replay expiry of a signature made at `signed`. */
  function SignedEnd(s: SigningProfile, p: Profile, signed: Time): Time {
    ReplayExpires(p, Some(Unix(signed)), if s.expires == Required then Some(Unix(signed + s.lifetime)) else None)
  }

  /** The end of the acceptance of a signature made at `signed`. */
  function EndOf(s: SigningProfile, p: Profile, signed: Time): Time {
    var aged, expired := p.maxAge, s.lifetime;
    Truncated(signed) + p.clockSkew + if s.expires == Required && expired < aged then expired else aged
  }

  /** The times among the emitted parameters: second truncation keeps the lifetime. */
  lemma SignedTimes(s: SigningProfile, p: Profile, key: SigningKey, nonce: string, signed: Time)
    requires ValidSigningProfile(s)
    ensures var ps := SignedParameters(s, key, nonce, signed);
      && IntegerParameter(ps, "created") == Some(Unix(signed)) && FromUnix(Unix(signed)) == Truncated(signed)
      && (s.expires == Required ==>
            IntegerParameter(ps, "expires") == Some(Unix(signed + s.lifetime))
            && FromUnix(Unix(signed + s.lifetime)) == Truncated(signed) + s.lifetime)
      && (s.expires != Required ==> IntegerParameter(ps, "expires") == None)
  {
    EmittedLookup(s, key, nonce, signed);
    assert "created" in ORDER && "expires" in ORDER;
    TruncatedLater(signed, s.lifetime);
    hide SignedParameters, Lookup, Keyed;
  }

  lemma SignedTexts(s: SigningProfile, key: SigningKey, nonce: string, signed: Time)
    requires ValidSigningProfile(s)
    ensures var ps := SignedParameters(s, key, nonce, signed);
      && TextParameter(ps, "keyid") == Some(key.keyID)
      && TextParameter(ps, "alg") == (if s.algorithmParameter == Required then Some(key.algorithm) else None)
      && TextParameter(ps, "nonce") == (if s.nonce == Required then Some(nonce) else None)
      && TextParameter(ps, "tag") == (if s.tag == Required then Some(s.tagValue) else None)
  {
    EmittedLookup(s, key, nonce, signed);
    assert "keyid" in ORDER && "alg" in ORDER && "nonce" in ORDER && "tag" in ORDER;
    hide SignedParameters, Lookup, Keyed;
  }

  /**
    Everything a compatible signer emits passes the input checks exactly inside the
    created, expires, age and skew windows; with a nonce, unless its replay expiry
    is the zero time, which the code takes for absent.
   */
  lemma SignedAccepted(s: SigningProfile, p: Profile, key: SigningKey, nonce: string, signed: Time, sigLabel: string, now: Time)
    requires ValidSigningProfile(s) && ValidProfile(p) && Compatible(s, p)
    requires Signable(s, key, signed) && NonceSupplied(s, nonce)
    ensures var input := SignatureInput(sigLabel, s.components, SignedParameters(s, key, nonce, signed));
      && (Validated(p, input, now).Ok? <==> InWindows(s, p, signed, now) && (nonce != "" ==> SignedEnd(s, p, signed) != 0))
      && (Validated(p, input, now).Ok? ==>
            var m := Validated(p, input, now).value;
            && m.keyID == key.keyID && m.nonce == nonce && m.created == Truncated(signed)
            && m.algorithm == (if s.algorithmParameter == Required then Some(key.algorithm) else None)
            && m.replayExpires == SignedEnd(s, p, signed))
  {
    SignedTimes(s, p, key, nonce, signed);
    SignedTexts(s, key, nonce, signed);
    hide SignedParameters, CoverageAccepted, Lookup, Keyed, IntegerParameter, TextParameter, Unix, FromUnix;
  }

  /** A nonce is retained until the first of expiration and age limit, skew included. */
  lemma EndExact(s: SigningProfile, p: Profile, signed: Time)
    requires ValidSigningProfile(s) && Truncated(signed) + p.maxAge + p.clockSkew != 0
    ensures SignedEnd(s, p, signed) == EndOf(s, p, signed)
  {
    TruncatedLater(signed, s.lifetime);
    hide Unix, Keyed;
  }

  /** The resolver returns the key that signed, with its validity window. */
  predicate Resolves(key: SigningKey, resolved: ResolvedKey) {
    && resolved.algorithm == key.algorithm && resolved.material != 0 && !resolved.revoked
    && resolved.notBefore == key.notBefore && resolved.notAfter == key.notAfter && resolved.freshUntil != 0
  }

  /**
    The key checks pass exactly inside the key validity and freshness windows, and
    when the truncated creation time is not before the skewed start of the key.
   */
  lemma KeyAccepted(s: SigningProfile, p: Profile, key: SigningKey, resolved: ResolvedKey, algorithm: Option<string>,
                    signed: Time, now: Time)
    requires ValidProfile(p) && Compatible(s, p) && Signable(s, key, signed) && Resolves(key, resolved)
    requires algorithm.Some? ==> algorithm.value == key.algorithm
    ensures KeyRefusal(p, resolved, algorithm, Truncated(signed), now) == None
      <==> key.notBefore - p.clockSkew <= now < key.notAfter + p.clockSkew && now < resolved.freshUntil
           && (Truncated(signed) == 0 || key.notBefore - p.clockSkew <= Truncated(signed))
  {
    TruncatedBounds(signed);
    hide CoverageAccepted, Truncated;
  }

  lemma TruncatedMonotone(t: Time, u: Time)
    requires t <= u
    ensures Truncated(t) <= Truncated(u)
  {
  }

  /**
    Second truncation can put the creation time before the start of the key.  The
    key checks tolerate it for every moment of signing exactly when the skew is at
    least the fraction of a second of that start: one second of skew always is,
    and a start on a whole second needs none.
   */
  lemma SkewExact(skew: int, notBefore: Time)
    ensures (forall signed: Time :: signed >= notBefore ==> notBefore - skew <= Truncated(signed)) <==> notBefore % SECOND <= skew
  {
    assert Truncated(notBefore) == notBefore - notBefore % SECOND;
    forall signed: Time | signed >= notBefore ensures Truncated(notBefore) <= Truncated(signed) {
      TruncatedMonotone(notBefore, signed);
    }
    hide Truncated;
  }

  /** A signature made in such a moment is refused for ever. */
  lemma TruncatedRefused(p: Profile, key: ResolvedKey, algorithm: Option<string>, signed: Time, now: Time)
    requires Truncated(signed) < key.notBefore - p.clockSkew && Truncated(signed) != 0
    ensures KeyRefusal(p, key, algorithm, Truncated(signed), now) == Some(KeyFailure)
  {
  }
}
