/**
  Canonicalization of byte sequences before parsing (structured_field_safe.go:84-158).

  The scanner's reading of a field value is the sequence of its `Piece`s:
  characters, each marked quoted or not, and the byte sequences found at
  bare-item boundaries.
 */
module BinaryNormalizer {
  import opened Basics
  import opened Base64

  // ----- one byte sequence -----------------------------------------------------

  /** What RFC 8941 section 4.2.7 decodes: padding may be absent, surplus bits are ignored. */
  function Meaning(encoded: string): Option<seq<byte>> {
    var letters := TrimPadding(encoded);
    if AllLetters(letters) then RawDecode(letters) else None
  }

  /** The text the scanner leaves between the two colons. */
  function Canon(encoded: string): string {
    match Meaning(encoded)
    case None => encoded
    case Some(octets) => if |encoded| <= |Encode(octets)| then Encode(octets) else encoded
  }

  /** The rewriting is a normal form and keeps the decoded octets. */
  lemma CanonFaithful(encoded: string)
    ensures Canon(Canon(encoded)) == Canon(encoded)
    ensures Meaning(Canon(encoded)) == Meaning(encoded)
  {
    if Canon(encoded) != encoded {
      var octets := Meaning(encoded).value;
      TrimEncoded(octets);
      RawRoundTrip(octets);
    }
  }

  /**
    A decoder that insists on padding accepts the result exactly when RFC 8941
    decodes the original and the original has no surplus padding.
   */
  lemma CanonDecodable(encoded: string)
    ensures StdDecode(Canon(encoded))
      == match Meaning(encoded)
         case None => None
         case Some(octets) => if |encoded| <= |Encode(octets)| then Some(octets) else StdDecode(encoded)
    ensures StdDecode(encoded).Some? ==> StdDecode(Canon(encoded)) == StdDecode(encoded)
  {
    if Meaning(encoded).Some? { RoundTrip(Meaning(encoded).value); }
  }

  /** The colons keep delimiting the rewritten sequence. */
  lemma CanonNoColon(encoded: string)
    requires Free(encoded, ':')
    ensures Free(Canon(encoded), ':')
  {
    if Canon(encoded) != encoded {
      EncodeNoColon(Meaning(encoded).value);
    }
  }

  // ----- the scanner's reading ---------------------------------------------------

  datatype Piece = Char(c: char, quoted: bool) | Bytes(encoded: string)

  /** Inside a quoted string, or outside with or without a bare-item boundary just before. */
  datatype Mode = Quoted(escaped: bool) | Plain(boundary: bool)

  predicate IsBoundary(c: char) {
    c == ' ' || c == '\t' || c == '=' || c == '(' || c == ','
  }

  /** strings.IndexByte(s, ':') */
  function Colon(s: string): (r: Option<nat>)
    ensures r.Some? ==> r.value < |s| && s[r.value] == ':' && Free(s[..r.value], ':')
    ensures r.None? ==> Free(s, ':')
  {
    if s == "" then None
    else if s[0] == ':' then Some(0)
    else match Colon(s[1..])
      case None => None
      case Some(k) => assert s[..k + 1] == [s[0]] + s[1..][..k]; Some(k + 1)
  }

  /** The mode after one character that opens no byte sequence. */
  function Next(c: char, mode: Mode): Mode {
    match mode
    case Quoted(escaped) =>
      if escaped then Quoted(false) else if c == '\\' then Quoted(true) else if c == '"' then Plain(false) else mode
    case Plain(_) => if c == '"' then Quoted(false) else Plain(IsBoundary(c))
  }

  function Scan(s: string, mode: Mode): seq<Piece> {
    if s == "" then []
    else if s[0] == ':' && mode == Plain(true) && Colon(s[1..]).Some? then
      var k := Colon(s[1..]).value;
      [Bytes(s[1..k + 1])] + Scan(s[k + 2..], Plain(false))
    else [Char(s[0], mode.Quoted?)] + Scan(s[1..], Next(s[0], mode))
  }

  function Render(pieces: seq<Piece>): string {
    if pieces == [] then ""
    else (match pieces[0] case Char(c, _) => [c] case Bytes(encoded) => ":" + encoded + ":") + Render(pieces[1..])
  }

  function CanonPiece(p: Piece): Piece {
    match p
    case Char(_, _) => p
    case Bytes(encoded) => Bytes(Canon(encoded))
  }

  function CanonAll(pieces: seq<Piece>): seq<Piece> {
    if pieces == [] then [] else [CanonPiece(pieces[0])] + CanonAll(pieces[1..])
  }

  function Normalized(value: string, mode: Mode): string {
    Render(CanonAll(Scan(value, mode)))
  }

  lemma NormalizedStep(s: string, mode: Mode)
    requires s != ""
    ensures Normalized(s, mode) ==
      if s[0] == ':' && mode == Plain(true) && Colon(s[1..]).Some? then
        var k := Colon(s[1..]).value; ":" + Canon(s[1..k + 1]) + ":" + Normalized(s[k + 2..], Plain(false))
      else [s[0]] + Normalized(s[1..], Next(s[0], mode))
  {
    hide Canon, Next;
    assert Scan(s, mode)[1..] ==
      if s[0] == ':' && mode == Plain(true) && Colon(s[1..]).Some? then Scan(s[Colon(s[1..]).value + 2..], Plain(false))
      else Scan(s[1..], Next(s[0], mode));
  }

  // ----- the implementation --------------------------------------------------------

  ghost function ModeAt(value: string, index: nat, quoted: bool, escaped: bool): Mode
    requires index <= |value|
  {
    if quoted then Quoted(escaped) else Plain(index == 0 || IsBoundary(value[index - 1]))
  }

  /** The output that follows position `index`. */
  ghost function Ahead(value: string, index: nat, quoted: bool, escaped: bool): string
    requires index <= |value|
  {
    Normalized(value[index..], ModeAt(value, index, quoted, escaped))
  }

  lemma PassCharacter(value: string, index: nat, quoted: bool, escaped: bool)
    requires index < |value| && (escaped ==> quoted)
    requires !quoted && value[index] == ':' && (index == 0 || IsBoundary(value[index - 1])) ==> Colon(value[index + 1..]).None?
    ensures var c := value[index];
      var quoted' := if quoted then escaped || c != '"' else c == '"';
      var escaped' := quoted && !escaped && c == '\\';
      Ahead(value, index, quoted, escaped) == [c] + Ahead(value, index + 1, quoted', escaped')
  {
    NormalizedStep(value[index..], ModeAt(value, index, quoted, escaped));
    assert value[index..][1..] == value[index + 1..];
  }

  lemma PassSequence(value: string, index: nat, closing: nat)
    requires index < closing < |value| && value[index] == ':' && (index == 0 || IsBoundary(value[index - 1]))
    requires Colon(value[index + 1..]) == Some(closing - index - 1)
    ensures Ahead(value, index, false, false)
      == ":" + Canon(value[index + 1..closing]) + ":" + Ahead(value, closing + 1, false, false)
  {
    var rest := value[index..];
    assert rest[1..] == value[index + 1..];
    assert rest[1..closing - index] == value[index + 1..closing];
    assert rest[closing - index + 1..] == value[closing + 1..];
    assert value[closing] == ':' by { assert value[index + 1..][closing - index - 1] == value[closing]; }
    NormalizedStep(rest, Plain(true));
  }

  lemma AheadAtStart(value: string)
    ensures "" + Ahead(value, 0, false, false) == Normalized(value, Plain(true))
  {
    assert value[0..] == value;
  }

  lemma AheadAtEnd(value: string, quoted: bool, escaped: bool)
    ensures Ahead(value, |value|, quoted, escaped) == ""
  {
    assert value[|value|..] == "";
  }

  lemma Extend(done: string, piece: string, rest: string, total: string)
    requires done + (piece + rest) == total
    ensures (done + piece) + rest == total
  {
  }

  lemma Copied(value: string, result: string, a: nat, b: nat, c: nat)
    requires a <= b <= c <= |value|
    ensures result + value[a..b] + value[b..c] == result + value[a..c]
  {
  }

  lemma Delimited(value: string, index: nat, closing: nat)
    requires index < closing < |value| && value[index] == ':' && value[closing] == ':'
    ensures value[index..closing + 1] == ":" + value[index + 1..closing] + ":"
  {
  }

  lemma Replaced(value: string, result: string, a: nat, index: nat, text: string)
    requires a <= index < |value| && value[index] == ':'
    ensures result + value[a..index] + (":" + text + ":") == result + value[a..index + 1] + text + ":"
  {
    assert value[a..index + 1] == value[a..index] + ":";
  }

  /** The decision at structured_field_safe.go:111-116: the text to put between the colons, if it changes. */
  method Replacement(encoded: string) returns (canonical: Option<string>)
    ensures canonical == if Canon(encoded) == encoded then None else Some(Canon(encoded))
  {
    canonical := None;
    var unpadded := TrimPadding(encoded);
    if '=' !in unpadded && AllLetters(unpadded) {
      var decoded := RawDecode(unpadded);
      if decoded.Some? {
        var text := Encode(decoded.value);
        if |encoded| <= |text| && text != encoded {
          canonical := Some(text);
        }
      }
    }
  }

  /** normalizeRFC8941BinaryValue */
  method NormalizeBinaryValue(value: string) returns (r: string)
    ensures r == Normalized(value, Plain(true))
  {
    hide Ahead, Normalized, Canon, Colon;
    var result, segmentStart, index := "", 0, 0;
    var quoted, escaped, changed := false, false, false;
    ghost var done, total := "", Normalized(value, Plain(true));
    AheadAtStart(value);
    while index < |value|
      invariant 0 <= segmentStart <= index <= |value|
      invariant escaped ==> quoted
      invariant !changed ==> result == "" && segmentStart == 0
      invariant done == result + value[segmentStart..index]
      invariant done + Ahead(value, index, quoted, escaped) == total
    {
      var character := value[index];
      ghost var start, wasQuoted, wasEscaped := index, quoted, escaped;
      ghost var piece := [character];
      if quoted {
        if escaped {
          escaped := false;
        } else if character == '\\' {
          escaped := true;
        } else if character == '"' {
          quoted := false;
        }
      } else if character == '"' {
        quoted := true;
      } else if character == ':' && (index == 0 || IsBoundary(value[index - 1])) {
        var closingOffset := Colon(value[index + 1..]);
        if closingOffset.Some? {
          var closing := index + 1 + closingOffset.value;
          var encoded := value[index + 1..closing];
          PassSequence(value, index, closing);
          piece := ":" + Canon(encoded) + ":";
          var canonical := Replacement(encoded);
          if canonical.Some? {
            Replaced(value, result, segmentStart, index, canonical.value);
            result := result + value[segmentStart..index + 1];
            result := result + canonical.value;
            result := result + ":";
            segmentStart := closing + 1;
            changed := true;
          } else {
            Delimited(value, index, closing);
            Copied(value, result, segmentStart, index, closing + 1);
          }
          index := closing;
        }
      }
      if index == start {
        PassCharacter(value, start, wasQuoted, wasEscaped);
        assert piece == value[start..start + 1];
        Copied(value, result, segmentStart, start, start + 1);
      }
      assert Ahead(value, start, wasQuoted, wasEscaped) == piece + Ahead(value, index + 1, quoted, escaped);
      Extend(done, piece, Ahead(value, index + 1, quoted, escaped), total);
      done := done + piece;
      index := index + 1;
    }
    AheadAtEnd(value, quoted, escaped);
    assert done == total;
    if !changed {
      assert value[0..|value|] == value;
      return value;
    }
    result := result + value[segmentStart..];
    return result;
  }

  // ----- what the rewriting keeps ------------------------------------------------------

  lemma {:induction false} ScanRender(s: string, mode: Mode)
    ensures Render(Scan(s, mode)) == s
  {
    hide Next;
    if s != "" {
      if s[0] == ':' && mode == Plain(true) && Colon(s[1..]).Some? {
        var k := Colon(s[1..]).value;
        ScanRender(s[k + 2..], Plain(false));
        assert s == ":" + s[1..k + 1] + ":" + s[k + 2..];
      } else {
        ScanRender(s[1..], Next(s[0], mode));
      }
    }
  }

  lemma {:induction false} NoColonUnchanged(s: string, mode: Mode)
    requires Free(s, ':')
    ensures CanonAll(Scan(s, mode)) == Scan(s, mode)
  {
    hide Next, Canon;
    if s != "" {
      NoColonUnchanged(s[1..], Next(s[0], mode));
      assert Scan(s, mode)[1..] == Scan(s[1..], Next(s[0], mode));
    }
  }

  lemma {:induction false} ColonAfter(prefix: string, rest: string)
    requires Free(prefix, ':')
    ensures Colon(prefix + ":" + rest) == Some(|prefix|)
  {
    if prefix != "" {
      assert (prefix + ":" + rest)[1..] == prefix[1..] + ":" + rest;
      ColonAfter(prefix[1..], rest);
    }
  }

  lemma ScanSequence(encoded: string, rest: string)
    requires Free(encoded, ':')
    ensures Scan(":" + encoded + ":" + rest, Plain(true)) == [Bytes(encoded)] + Scan(rest, Plain(false))
  {
    var s := ":" + encoded + ":" + rest;
    assert s[1..] == encoded + ":" + rest;
    ColonAfter(encoded, rest);
    assert s[1..|encoded| + 1] == encoded && s[|encoded| + 2..] == rest;
  }

  lemma ScanCharacter(c: char, rest: string, mode: Mode)
    requires c != ':' || mode != Plain(true) || Free(rest, ':')
    ensures Scan([c] + rest, mode) == [Char(c, mode.Quoted?)] + Scan(rest, Next(c, mode))
  {
    assert ([c] + rest)[1..] == rest;
  }

  lemma ColonFree(s: string, mode: Mode)
    requires Free(s, ':')
    ensures Normalized(s, mode) == s
  {
    NoColonUnchanged(s, mode);
    ScanRender(s, mode);
  }

  lemma CanonAllCons(p: Piece, rest: seq<Piece>)
    ensures CanonAll([p] + rest) == [CanonPiece(p)] + CanonAll(rest)
  {
    hide CanonPiece;
    assert ([p] + rest)[1..] == rest;
  }

  lemma CanonAllStep(s: string, mode: Mode)
    requires s != ""
    ensures CanonAll(Scan(s, mode)) ==
      if s[0] == ':' && mode == Plain(true) && Colon(s[1..]).Some? then
        var k := Colon(s[1..]).value; [Bytes(Canon(s[1..k + 1]))] + CanonAll(Scan(s[k + 2..], Plain(false)))
      else [Char(s[0], mode.Quoted?)] + CanonAll(Scan(s[1..], Next(s[0], mode)))
  {
    hide Canon, Next, Colon, CanonAll;
    if s[0] == ':' && mode == Plain(true) && Colon(s[1..]).Some? {
      var k := Colon(s[1..]).value;
      CanonAllCons(Bytes(s[1..k + 1]), Scan(s[k + 2..], Plain(false)));
    } else {
      CanonAllCons(Char(s[0], mode.Quoted?), Scan(s[1..], Next(s[0], mode)));
    }
  }

  /**
    The scanner resynchronizes: it reads its own output as the same pieces, with
    every byte sequence replaced by its canonical form and nothing else changed.
   */
  lemma {:induction false} Resynchronizes(s: string, mode: Mode)
    ensures Scan(Normalized(s, mode), mode) == CanonAll(Scan(s, mode))
  {
    if s != "" {
      CanonAllStep(s, mode);
      NormalizedStep(s, mode);
      hide Normalized, Canon, CanonAll, Next, Scan;
      if s[0] == ':' && mode == Plain(true) && Colon(s[1..]).Some? {
        var k := Colon(s[1..]).value;
        assert s[1..][..k] == s[1..k + 1];
        CanonNoColon(s[1..k + 1]);
        ScanSequence(Canon(s[1..k + 1]), Normalized(s[k + 2..], Plain(false)));
        Resynchronizes(s[k + 2..], Plain(false));
      } else {
        var next := Next(s[0], mode);
        if s[0] == ':' && mode == Plain(true) {
          ColonFree(s[1..], next);
        }
        ScanCharacter(s[0], Normalized(s[1..], next), mode);
        Resynchronizes(s[1..], next);
      }
    } else {
      assert CanonAll([]) == [];
    }
  }

  lemma {:induction false} CanonAllAt(pieces: seq<Piece>)
    ensures |CanonAll(pieces)| == |pieces|
    ensures forall i :: 0 <= i < |pieces| ==> CanonAll(pieces)[i] == CanonPiece(pieces[i])
    ensures CanonAll(CanonAll(pieces)) == CanonAll(pieces)
  {
    if pieces != [] {
      CanonAllAt(pieces[1..]);
      if pieces[0].Bytes? { CanonFaithful(pieces[0].encoded); }
    }
  }

  lemma NormalizeIdempotent(s: string)
    ensures Normalized(Normalized(s, Plain(true)), Plain(true)) == Normalized(s, Plain(true))
  {
    Resynchronizes(s, Plain(true));
    CanonAllAt(Scan(s, Plain(true)));
  }

  /**
    Piece by piece, the output has the same characters, quoted or not, and byte
    sequences with the same decoded octets.
   */
  lemma NormalizeFaithful(s: string)
    ensures var before, after := Scan(s, Plain(true)), Scan(Normalized(s, Plain(true)), Plain(true));
      && Render(before) == s && |before| == |after|
      && forall i :: 0 <= i < |before| ==>
        if before[i].Char? then after[i] == before[i]
        else after[i].Bytes? && Meaning(after[i].encoded) == Meaning(before[i].encoded)
  {
    ScanRender(s, Plain(true));
    Resynchronizes(s, Plain(true));
    var pieces := Scan(s, Plain(true));
    CanonAllAt(pieces);
    forall i | 0 <= i < |pieces| && pieces[i].Bytes? {
      CanonFaithful(pieces[i].encoded);
    }
  }
}
