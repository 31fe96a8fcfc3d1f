/**
  The form codec behind `@query-param` (message.go:1314-1466): percent decoding
  with UTF-8 repair, percent encoding, and the lookup of one named parameter.
 */
module FormCodec {
  import opened Basics
  import opened Utf8

  // ----- percent coding -------------------------------------------------------

  /** hexValue */
  function HexValue(c: char): Option<int> {
    if '0' <= c <= '9' then Some(c as int - '0' as int)
    else if 'a' <= c <= 'f' then Some(c as int - 'a' as int + 10)
    else if 'A' <= c <= 'F' then Some(c as int - 'A' as int + 10)
    else None
  }

  function HexDigit(n: int): char
    requires 0 <= n < 16
  {
    if n < 10 then '0' + n as char else 'A' + (n - 10) as char
  }

  /** The bytes that stand for themselves in an encoded component. */
  predicate Unreserved(b: byte) {
    || 'a' as int <= b <= 'z' as int || 'A' as int <= b <= 'Z' as int || '0' as int <= b <= '9' as int
    || b == '*' as int || b == '-' as int || b == '.' as int || b == '_' as int
  }

  /** The octet of a valid escape that starts `s`. */
  function Escape(s: string): Option<byte> {
    if |s| >= 3 && s[0] == '%' && HexValue(s[1]).Some? && HexValue(s[2]).Some?
    then Some(16 * HexValue(s[1]).value + HexValue(s[2]).value)
    else None
  }

  /** The octet decoded first, and how much of the text it takes. */
  function First(s: string): (r: (byte, nat))
    requires s != ""
    ensures 1 <= r.1 <= |s|
  {
    match Escape(s)
    case Some(b) => (b, 3)
    case None => (if s[0] == '+' then 0x20 else s[0] as int % 256, 1)
  }

  function PercentDecode(s: string): seq<byte> {
    if s == "" then [] else [First(s).0] + PercentDecode(s[First(s).1..])
  }

  function EncodeByte(b: byte): string {
    if Unreserved(b) then [b as char] else ['%', HexDigit(b / 16), HexDigit(b % 16)]
  }

  function PercentEncode(s: seq<byte>): string {
    if s == [] then "" else EncodeByte(s[0]) + PercentEncode(s[1..])
  }

  /** What a raw component means. */
  function Decoded(raw: string): seq<byte> {
    Repaired(PercentDecode(raw))
  }

  /** The form in which a raw component enters a signature base. */
  function Canonical(raw: string): string {
    PercentEncode(Decoded(raw))
  }

  /** decodeFormComponent */
  method DecodeFormComponent(value: string) returns (text: seq<byte>)
    ensures text == Decoded(value)
  {
    var decoded: seq<byte> := [];
    var remaining := value;
    while remaining != ""
      invariant decoded + PercentDecode(remaining) == PercentDecode(value)
      decreases |remaining|
    {
      ghost var before, first := decoded, First(remaining);
      assert before + PercentDecode(remaining) == before + [first.0] + PercentDecode(remaining[first.1..]);
      if remaining[0] == '+' {
        decoded := decoded + [0x20];
        remaining := remaining[1..];
      } else if remaining[0] == '%' && |remaining| >= 3 {
        var high, low := HexValue(remaining[1]), HexValue(remaining[2]);
        if high.Some? && low.Some? {
          decoded := decoded + [16 * high.value + low.value];
          remaining := remaining[3..];
        } else {
          decoded := decoded + [remaining[0] as int];
          remaining := remaining[1..];
        }
      } else {
        decoded := decoded + [remaining[0] as int % 256];
        remaining := remaining[1..];
      }
    }
    assert decoded == PercentDecode(value);
    text := DecodeWithReplacement(decoded);
  }

  /** formPercentEncode */
  method FormPercentEncode(value: seq<byte>) returns (text: string)
    ensures text == PercentEncode(value)
  {
    hide Unreserved, HexDigit;
    text := "";
    for i := 0 to |value|
      invariant text + PercentEncode(value[i..]) == PercentEncode(value)
    {
      var b := value[i];
      assert value[i..][0] == b && value[i..][1..] == value[i + 1..];
      ghost var before := text;
      if Unreserved(b) {
        text := text + [b as char];
      } else {
        text := text + ['%'];
        text := text + [HexDigit(b / 16)];
        text := text + [HexDigit(b % 16)];
      }
      assert text == before + EncodeByte(b);
      Associate(before, EncodeByte(b), PercentEncode(value[i + 1..]));
    }
  }

  // ----- the codec is a round trip ------------------------------------------

  lemma HexRoundTrip(n: int)
    requires 0 <= n < 16
    ensures HexValue(HexDigit(n)) == Some(n)
  {
  }

  lemma FirstEncoded(b: byte, rest: string)
    ensures First(EncodeByte(b) + rest) == (b, |EncodeByte(b)|)
  {
    var text := EncodeByte(b) + rest;
    if Unreserved(b) {
      assert text[0] == b as char;
    } else {
      HexRoundTrip(b / 16);
      HexRoundTrip(b % 16);
      assert text[0] == '%' && text[1] == HexDigit(b / 16) && text[2] == HexDigit(b % 16);
      hide HexDigit, HexValue, Unreserved;
      assert Escape(text) == Some(b);
    }
  }

  lemma {:induction false} PercentRoundTrip(s: seq<byte>)
    ensures PercentDecode(PercentEncode(s)) == s
  {
    if s != [] {
      var head, rest := EncodeByte(s[0]), PercentEncode(s[1..]);
      FirstEncoded(s[0], rest);
      assert (head + rest)[|head|..] == rest;
      PercentRoundTrip(s[1..]);
    }
  }

  lemma PercentEncodeInjective(s: seq<byte>, t: seq<byte>)
    ensures PercentEncode(s) == PercentEncode(t) <==> s == t
  {
    PercentRoundTrip(s);
    PercentRoundTrip(t);
  }

  /** Decoding undoes encoding exactly on well-formed UTF-8. */
  lemma FormRoundTrip(s: seq<byte>)
    ensures Decoded(PercentEncode(s)) == s <==> WellFormed(s)
  {
    PercentRoundTrip(s);
    RepairIdentity(s);
  }

  /** Encode-after-decode is a canonical form: it keeps the meaning and is its own normal form. */
  lemma CanonicalForm(raw: string)
    ensures Decoded(Canonical(raw)) == Decoded(raw)
    ensures Canonical(Canonical(raw)) == Canonical(raw)
  {
    RepairedWellFormed(PercentDecode(raw));
    FormRoundTrip(Decoded(raw));
  }

  /** Two raw values share their canonical form exactly when they decode alike. */
  lemma CanonicalSame(raw: string, other: string)
    ensures Canonical(raw) == Canonical(other) <==> Decoded(raw) == Decoded(other)
  {
    PercentEncodeInjective(Decoded(raw), Decoded(other));
  }

  // ----- how much the canonical form can grow ---------------------------------

  /** What an octet costs at least in an ASCII query: an octet above 0x7F needs a whole escape. */
  function Weight(s: seq<byte>): nat {
    if s == [] then 0 else (if s[0] < 0x80 then 1 else 3) + Weight(s[1..])
  }

  lemma {:induction false} WeightSplit(s: seq<byte>, k: nat)
    requires k <= |s|
    ensures Weight(s) == Weight(s[..k]) + Weight(s[k..])
  {
    if k > 0 {
      WeightSplit(s[1..], k - 1);
      assert s[..k][1..] == s[1..][..k - 1] && s[1..][k - 1..] == s[k..];
    }
  }

  lemma {:induction false} WeightBounds(s: seq<byte>)
    ensures |s| <= Weight(s) <= 3 * |s|
  {
    if s != [] { WeightBounds(s[1..]); }
  }

  lemma {:induction false} PercentEncodeSplit(s: seq<byte>, t: seq<byte>)
    ensures PercentEncode(s + t) == PercentEncode(s) + PercentEncode(t)
  {
    if s == [] {
      assert s + t == t;
    } else {
      assert (s + t)[1..] == s[1..] + t;
      PercentEncodeSplit(s[1..], t);
    }
  }

  lemma {:induction false} EncodedLength(s: seq<byte>)
    ensures |s| <= |PercentEncode(s)| <= 3 * |s|
  {
    if s != [] { EncodedLength(s[1..]); }
  }

  lemma {:induction false} RepairedWeight(s: seq<byte>)
    ensures |PercentEncode(Repaired(s))| <= 3 * Weight(s)
  {
    if s != [] {
      var k, out := NextPart(s);
      PercentEncodeSplit(out, Repaired(s[k..]));
      EncodedLength(out);
      WeightSplit(s, k);
      WeightBounds(s[..k]);
      RepairedWeight(s[k..]);
      assert out != s[..k] ==> Weight(s[..k]) >= 3 && |out| == 3 by {
        assert out != s[..k] ==> s[..k][0] >= 0x80;
      }
    }
  }

  lemma {:induction false} DecodedWeight(raw: string)
    ensures Weight(PercentDecode(raw)) <= 3 * |raw|
    ensures Ascii(raw) ==> Weight(PercentDecode(raw)) <= |raw|
  {
    if raw != "" {
      DecodedWeight(raw[First(raw).1..]);
    }
  }

  /** At most ninefold growth, and at most threefold when the raw component is ASCII. */
  lemma CanonicalLength(raw: string)
    ensures |Canonical(raw)| <= 9 * |raw|
    ensures Ascii(raw) ==> |Canonical(raw)| <= 3 * |raw|
  {
    RepairedWeight(PercentDecode(raw));
    DecodedWeight(raw);
  }

  // ----- @query-param -----------------------------------------------------------

  datatype QueryError = Absent | LimitExceeded

  /** strings.SplitSeq with a one-byte separator; the separator-free prefix comes first. */
  function Split(s: string, separator: char): (parts: seq<string>)
    ensures parts != []
  {
    if s == "" then [""]
    else
      var rest := Split(s[1..], separator);
      if s[0] == separator then [""] + rest else [[s[0]] + rest[0]] + rest[1..]
  }

  /** strings.Cut at "=", with an absent value read as empty. */
  function Cut(pair: string): (string, string) {
    if pair == "" then ("", "")
    else if pair[0] == '=' then ("", pair[1..])
    else var (name, value) := Cut(pair[1..]); ([pair[0]] + name, value)
  }

  /** The canonical values of the fields whose canonical name is `name`, in order. */
  function Matches(fields: seq<string>, name: string): seq<string> {
    if fields == [] then []
    else
      var before, field := Matches(fields[..|fields| - 1], name), fields[|fields| - 1];
      if field != "" && Canonical(Cut(field).0) == name then before + [Canonical(Cut(field).1)] else before
  }

  /** The named parameter is present exactly when a single field carries that name. */
  function Lookup(rawQuery: string, name: string, maxBytes: int): Result<string, QueryError> {
    if rawQuery == "" then Err(Absent)
    else if |rawQuery| > maxBytes / 3 then Err(LimitExceeded)
    else
      var found := Matches(Split(rawQuery, '&'), name);
      if |found| != 1 then Err(Absent)
      else if |found[0]| > maxBytes then Err(LimitExceeded)
      else Ok(found[0])
  }

  lemma CanonicalIs(raw: string)
    ensures Canonical(raw) == PercentEncode(Decoded(raw))
  {
  }

  lemma MatchesNext(fields: seq<string>, name: string, i: nat)
    requires i < |fields|
    ensures var before, field := Matches(fields[..i], name), fields[i];
      Matches(fields[..i + 1], name)
        == if field != "" && Canonical(Cut(field).0) == name then before + [Canonical(Cut(field).1)] else before
  {
    hide Canonical, Cut;
    assert fields[..i + 1][..i] == fields[..i];
  }

  lemma MatchesNone(fields: seq<string>, name: string)
    ensures Matches(fields[..0], name) == []
  {
  }

  /** queryParameter */
  method QueryParameter(rawQuery: string, encodedName: string, maxBytes: int)
    returns (r: Result<string, QueryError>)
    ensures r == Lookup(rawQuery, encodedName, maxBytes)
  {
    if rawQuery == "" {
      return Err(Absent);
    }
    if |rawQuery| > maxBytes / 3 {
      return Err(LimitExceeded);
    }
    hide Canonical, Cut, Split, Matches;
    var found, foundCount := "", 0;
    var fields := Split(rawQuery, '&');
    MatchesNone(fields, encodedName);
    for i := 0 to |fields|
      invariant foundCount == |Matches(fields[..i], encodedName)|
      invariant foundCount > 0 ==> found == Matches(fields[..i], encodedName)[foundCount - 1]
    {
      MatchesNext(fields, encodedName, i);
      if fields[i] != "" {
        var (name, value) := Cut(fields[i]);
        var decodedName := DecodeFormComponent(name);
        var canonicalName := FormPercentEncode(decodedName);
        CanonicalIs(name);
        CanonicalIs(value);
        if canonicalName == encodedName {
          var decodedValue := DecodeFormComponent(value);
          found := FormPercentEncode(decodedValue);
          foundCount := foundCount + 1;
        }
      }
    }
    assert fields[..|fields|] == fields;
    if foundCount != 1 {
      return Err(Absent);
    }
    if |found| > maxBytes {
      return Err(LimitExceeded);
    }
    return Ok(found);
  }

  // ----- lookup in a rendered query ---------------------------------------------

  datatype Pair = Pair(name: seq<byte>, value: seq<byte>)

  function RenderPair(p: Pair): string {
    PercentEncode(p.name) + "=" + PercentEncode(p.value)
  }

  /** application/x-www-form-urlencoded serialization. */
  function Render(pairs: seq<Pair>): string
    requires pairs != []
  {
    if |pairs| == 1 then RenderPair(pairs[0])
    else Render(pairs[..|pairs| - 1]) + "&" + RenderPair(pairs[|pairs| - 1])
  }

  /** The values of the pairs with a name, both as a decoder reads them: repaired. */
  function ValuesOf(pairs: seq<Pair>, name: seq<byte>): seq<seq<byte>> {
    if pairs == [] then []
    else
      var before, last := ValuesOf(pairs[..|pairs| - 1], name), pairs[|pairs| - 1];
      if Repaired(last.name) == name then before + [Repaired(last.value)] else before
  }

  lemma {:induction false} EncodedFree(s: seq<byte>)
    ensures Free(PercentEncode(s), '&') && Free(PercentEncode(s), '=')
  {
    if s != [] { EncodedFree(s[1..]); }
  }

  lemma {:induction false} SplitFree(s: string, separator: char)
    requires Free(s, separator)
    ensures Split(s, separator) == [s]
  {
    if s != "" {
      SplitFree(s[1..], separator);
      assert [s[0]] + s[1..] == s;
    }
  }

  lemma {:induction false} SplitLast(s: string, t: string, separator: char)
    requires Free(t, separator)
    ensures Split(s + [separator] + t, separator) == Split(s, separator) + [t]
  {
    var whole := s + [separator] + t;
    if s == "" {
      assert whole[1..] == t;
      SplitFree(t, separator);
    } else {
      assert whole[1..] == s[1..] + [separator] + t;
      SplitLast(s[1..], t, separator);
    }
  }

  lemma {:induction false} CutAt(name: string, value: string)
    requires Free(name, '=')
    ensures Cut(name + "=" + value) == (name, value)
  {
    var pair := name + "=" + value;
    if name == "" {
      assert pair[1..] == value;
    } else {
      assert pair[1..] == name[1..] + "=" + value;
      CutAt(name[1..], value);
      assert [name[0]] + name[1..] == name;
    }
  }

  function EncodeEach(values: seq<seq<byte>>): seq<string> {
    seq(|values|, i requires 0 <= i < |values| => PercentEncode(values[i]))
  }

  /** One more rendered pair contributes its value exactly when it carries the name. */
  lemma MatchesPair(fields: seq<string>, p: Pair, name: seq<byte>)
    ensures Matches(fields + [RenderPair(p)], PercentEncode(name))
      == Matches(fields, PercentEncode(name)) + if Repaired(p.name) == name then [PercentEncode(Repaired(p.value))] else []
  {
    var field := RenderPair(p);
    assert (fields + [field])[..|fields|] == fields;
    EncodedFree(p.name);
    CutAt(PercentEncode(p.name), PercentEncode(p.value));
    PercentRoundTrip(p.name);
    PercentRoundTrip(p.value);
    PercentEncodeInjective(Repaired(p.name), name);
    hide Repaired, PercentEncode, PercentDecode, Cut;
  }

  lemma PairFree(p: Pair)
    ensures Free(RenderPair(p), '&')
  {
    EncodedFree(p.name);
    EncodedFree(p.value);
  }

  lemma EncodeEachLast(values: seq<seq<byte>>, value: seq<byte>)
    ensures EncodeEach(values + [value]) == EncodeEach(values) + [PercentEncode(value)]
  {
  }

  lemma NoMatches(name: seq<byte>)
    ensures Matches([], PercentEncode(name)) == EncodeEach(ValuesOf([], name))
  {
  }

  /** Splitting, cutting and matching find in a rendered query what was put into it. */
  lemma {:induction false} MatchesRendered(pairs: seq<Pair>, name: seq<byte>)
    requires pairs != []
    ensures Matches(Split(Render(pairs), '&'), PercentEncode(name)) == EncodeEach(ValuesOf(pairs, name))
  {
    hide PercentEncode, Repaired, Matches, RenderPair, Split, EncodeEach;
    var n := |pairs| - 1;
    var last, earlier := pairs[n], pairs[..n];
    var fields := if n == 0 then [] else Split(Render(earlier), '&');
    PairFree(last);
    assert Split(Render(pairs), '&') == fields + [RenderPair(last)] by {
      if n == 0 { SplitFree(RenderPair(last), '&'); } else { SplitLast(Render(earlier), RenderPair(last), '&'); }
    }
    assert Matches(fields, PercentEncode(name)) == EncodeEach(ValuesOf(earlier, name)) by {
      if n > 0 { MatchesRendered(earlier, name); } else { NoMatches(name); }
    }
    MatchesPair(fields, last, name);
    EncodeEachLast(ValuesOf(earlier, name), Repaired(last.value));
  }

  lemma {:induction false} EncodedAscii(s: seq<byte>)
    ensures Ascii(PercentEncode(s))
  {
    if s != [] { EncodedAscii(s[1..]); }
  }

  /** Repairing an encoded value makes it at most three times as long. */
  lemma EncodedGrowth(value: seq<byte>)
    ensures |PercentEncode(Repaired(value))| <= 3 * |PercentEncode(value)|
  {
    EncodedAscii(value);
    CanonicalLength(PercentEncode(value));
    PercentRoundTrip(value);
    hide Repaired, PercentEncode, PercentDecode;
  }

  lemma {:induction false} RenderLength(pairs: seq<Pair>, i: nat)
    requires i < |pairs|
    ensures |PercentEncode(Repaired(pairs[i].value))| <= 3 * |Render(pairs)| && Render(pairs) != ""
  {
    if i < |pairs| - 1 {
      RenderLength(pairs[..|pairs| - 1], i);
    } else {
      EncodedGrowth(pairs[i].value);
    }
    hide Repaired, PercentEncode;
  }

  lemma {:induction false} ValueOrigin(pairs: seq<Pair>, name: seq<byte>, k: nat) returns (i: nat)
    requires k < |ValuesOf(pairs, name)|
    ensures i < |pairs| && Repaired(pairs[i].name) == name && Repaired(pairs[i].value) == ValuesOf(pairs, name)[k]
  {
    var n := |pairs| - 1;
    if k < |ValuesOf(pairs[..n], name)| {
      i := ValueOrigin(pairs[..n], name, k);
    } else {
      i := n;
    }
  }

  /**
    In a rendered query within the size pre-check, a name is found exactly when
    one pair carries it, and then with that pair's value.  Names and values may be
    any octets: they are compared and returned as the decoder repairs them.
   */
  lemma LookupRendered(pairs: seq<Pair>, name: seq<byte>, maxBytes: int)
    requires pairs != []
    requires |Render(pairs)| <= maxBytes / 3
    ensures var values := ValuesOf(pairs, name);
      Lookup(Render(pairs), PercentEncode(name), maxBytes)
      == if |values| == 1 then Ok(PercentEncode(values[0])) else Err(Absent)
  {
    MatchesRendered(pairs, name);
    RenderLength(pairs, 0);
    if |ValuesOf(pairs, name)| == 1 {
      var i := ValueOrigin(pairs, name, 0);
      RenderLength(pairs, i);
    }
  }

  // ----- the size checks -----------------------------------------------------------

  lemma {:induction false} SplitParts(s: string, separator: char, i: nat)
    requires i < |Split(s, separator)|
    ensures |Split(s, separator)[i]| <= |s|
    ensures Ascii(s) ==> Ascii(Split(s, separator)[i])
  {
    if s != "" {
      SplitParts(s[1..], separator, if s[0] == separator && i > 0 then i - 1 else i);
    }
  }

  lemma {:induction false} CutParts(pair: string)
    ensures |Cut(pair).1| <= |pair|
    ensures Ascii(pair) ==> Ascii(Cut(pair).1)
  {
    if pair != "" { CutParts(pair[1..]); }
  }

  lemma {:induction false} MatchOrigin(fields: seq<string>, name: string, k: nat) returns (i: nat)
    requires k < |Matches(fields, name)|
    ensures i < |fields| && Matches(fields, name)[k] == Canonical(Cut(fields[i]).1)
  {
    var n := |fields| - 1;
    if k < |Matches(fields[..n], name)| {
      i := MatchOrigin(fields[..n], name, k);
    } else {
      i := n;
    }
  }

  /**
    For an ASCII query the pre-check alone bounds the result: the lookup reports
    the limit exactly when the query is longer than a third of the budget.
   */
  lemma AsciiLimit(rawQuery: string, name: string, maxBytes: int)
    requires Ascii(rawQuery) && rawQuery != ""
    ensures Lookup(rawQuery, name, maxBytes) == Err(LimitExceeded) <==> |rawQuery| > maxBytes / 3
  {
    var fields := Split(rawQuery, '&');
    if |Matches(fields, name)| == 1 {
      var i := MatchOrigin(fields, name, 0);
      SplitParts(rawQuery, '&', i);
      CutParts(fields[i]);
      CanonicalLength(Cut(fields[i]).1);
    }
  }

  lemma StrayOctet(rest: seq<byte>)
    ensures Repaired([0xFF] + rest) == [0xEF, 0xBF, 0xBD] + Repaired(rest)
  {
    var s: seq<byte> := [0xFF] + rest;
    assert s[1..] == rest;
    assert Whatwg(INITIAL, s) == [REPLACEMENT] + Whatwg(INITIAL, rest);
  }

  lemma {:induction false} EncodedSize(s: seq<byte>)
    requires forall i :: 0 <= i < |s| ==> !Unreserved(s[i])
    ensures |PercentEncode(s)| == 3 * |s|
  {
    if s != [] { EncodedSize(s[1..]); }
  }

  lemma SingleMatch(field: string, name: string)
    requires field != "" && Canonical(Cut(field).0) == name
    ensures Matches([field], name) == [Canonical(Cut(field).1)]
  {
    assert [field][..0] == [];
  }

  /** The lookup of the only name in a query of one field. */
  lemma SingleField(name: string, value: string, maxBytes: int)
    requires Free(name, '=') && Free(name + "=" + value, '&') && |name + "=" + value| <= maxBytes / 3
    ensures Lookup(name + "=" + value, Canonical(name), maxBytes)
      == if |Canonical(value)| > maxBytes then Err(LimitExceeded) else Ok(Canonical(value))
  {
    var raw := name + "=" + value;
    SplitFree(raw, '&');
    CutAt(name, value);
    assert raw != "" by { assert raw[|name|] == '='; }
    hide Canonical, Cut, Split;
    SingleMatch(raw, Canonical(name));
  }

  lemma StrayDecoded()
    ensures Decoded("\U{FF}\U{FF}") == [0xEF, 0xBF, 0xBD, 0xEF, 0xBF, 0xBD]
  {
    var stray := "\U{FF}\U{FF}";
    assert stray[1..] == "\U{FF}" && "\U{FF}"[1..] == "";
    assert PercentDecode("\U{FF}") == [0xFF];
    assert PercentDecode(stray) == [0xFF] + [0xFF];
    StrayOctet([0xFF]);
    StrayOctet([]);
    assert [0xFF] + [] == [0xFF];
  }

  lemma StrayCanonical()
    ensures |Canonical("\U{FF}\U{FF}")| == 18
  {
    StrayDecoded();
    EncodedSize(Decoded("\U{FF}\U{FF}"));
    hide PercentEncode;
  }

  lemma LetterCanonical()
    ensures Canonical("a") == "a"
  {
    assert PercentEncode(['a' as int]) == "a" && WellFormed(['a' as int]);
    FormRoundTrip(['a' as int]);
  }

  /** Outside ASCII the final check is needed: two stray octets pass the pre-check and grow ninefold. */
  lemma NonAsciiNeedsFinalCheck()
    ensures var raw := "a" + "=" + "\U{FF}\U{FF}";
      |raw| <= 12 / 3 && Lookup(raw, "a", 12) == Err(LimitExceeded)
  {
    StrayCanonical();
    LetterCanonical();
    hide Canonical, Lookup;
    SingleField("a", "\U{FF}\U{FF}", 12);
  }
}
