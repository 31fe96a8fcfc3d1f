/**
  UTF-8 repair as done for named query parameters (message.go:1375-1436).

  The repair is proved to be the byte-at-a-time "UTF-8 decoder" of the WHATWG
  Encoding Standard, followed by re-encoding of every scalar value.
 */
module Utf8 {
  import opened Basics

  // ----- scalar values ----------------------------------------------------

  /** utf8.RuneError, U+FFFD. */
  const REPLACEMENT: int := 0xFFFD

  predicate IsScalar(r: int) {
    0 <= r < 0xD800 || 0xE000 <= r <= 0x10FFFF
  }

  /** strings.Builder.WriteRune: a value that is no scalar value is written as U+FFFD. */
  function EncodeRune(r: int): seq<byte> {
    if !IsScalar(r) then [0xEF, 0xBF, 0xBD]
    else if r < 0x80 then [r]
    else if r < 0x800 then [0xC0 + r / 64, 0x80 + r % 64]
    else if r < 0x10000 then [0xE0 + r / 64 / 64, 0x80 + r / 64 % 64, 0x80 + r % 64]
    else [0xF0 + r / 64 / 64 / 64, 0x80 + r / 64 / 64 % 64, 0x80 + r / 64 % 64, 0x80 + r % 64]
  }

  function EncodeAll(runes: seq<int>): seq<byte> {
    if runes == [] then [] else EncodeRune(runes[0]) + EncodeAll(runes[1..])
  }

  // ----- reference: the WHATWG decoder ------------------------------------

  datatype Decoder = Decoder(codePoint: int, seen: nat, needed: nat, lower: byte, upper: byte)

  const INITIAL := Decoder(0, 0, 0, 0x80, 0xBF)

  /** The state and the output, if any, after a lead byte at or above 0x80. */
  function Lead(b: byte): Option<Decoder> {
    if 0xC2 <= b <= 0xDF then Some(Decoder(b % 32, 0, 1, 0x80, 0xBF))
    else if 0xE0 <= b <= 0xEF then
      Some(Decoder(b % 16, 0, 2, if b == 0xE0 then 0xA0 else 0x80, if b == 0xED then 0x9F else 0xBF))
    else if 0xF0 <= b <= 0xF4 then
      Some(Decoder(b % 8, 0, 3, if b == 0xF0 then 0x90 else 0x80, if b == 0xF4 then 0x8F else 0xBF))
    else None
  }

  /** Runs the decoder in replacement mode to the end of the input. */
  function Whatwg(d: Decoder, input: seq<byte>): seq<int>
    decreases |input|, d.needed
  {
    if input == [] then (if d.needed != 0 then [REPLACEMENT] else [])
    else if d.needed == 0 then
      var b := input[0];
      if b < 0x80 then [b] + Whatwg(d, input[1..])
      else match Lead(b)
        case Some(next) => Whatwg(next, input[1..])
        case None => [REPLACEMENT] + Whatwg(d, input[1..])
    else if input[0] < d.lower || input[0] > d.upper then
      [REPLACEMENT] + Whatwg(INITIAL, input)  // the offending byte is restored
    else
      var codePoint := d.codePoint * 64 + input[0] % 64;
      if d.seen + 1 == d.needed then [codePoint] + Whatwg(INITIAL, input[1..])
      else Whatwg(Decoder(codePoint, d.seen + 1, d.needed, 0x80, 0xBF), input[1..])
  }

  function Repaired(input: seq<byte>): seq<byte> {
    EncodeAll(Whatwg(INITIAL, input))
  }

  // ----- the grammar of section 4 of RFC 3629 ------------------------------

  predicate Tail(b: byte) { 0x80 <= b <= 0xBF }

  /** The length of the UTF8-char that starts `s`, or 0 when none does. */
  function CharWidth(s: seq<byte>): nat {
    if |s| >= 1 && s[0] <= 0x7F then 1
    else if |s| >= 2 && 0xC2 <= s[0] <= 0xDF && Tail(s[1]) then 2
    else if |s| >= 3 && Tail(s[2]) &&
      ( || (s[0] == 0xE0 && 0xA0 <= s[1] <= 0xBF)
        || (0xE1 <= s[0] <= 0xEC && Tail(s[1]))
        || (s[0] == 0xED && 0x80 <= s[1] <= 0x9F)
        || (0xEE <= s[0] <= 0xEF && Tail(s[1]))) then 3
    else if |s| >= 4 && Tail(s[2]) && Tail(s[3]) &&
      ( || (s[0] == 0xF0 && 0x90 <= s[1] <= 0xBF)
        || (0xF1 <= s[0] <= 0xF3 && Tail(s[1]))
        || (s[0] == 0xF4 && 0x80 <= s[1] <= 0x8F)) then 4
    else 0
  }

  predicate WellFormed(s: seq<byte>) {
    s == [] || (CharWidth(s) > 0 && WellFormed(s[CharWidth(s)..]))
  }

  // ----- byte sequences ------------------------------------------------------

  datatype Form = Form(width: nat, secondMin: byte, secondMax: byte)

  /** utf8Sequence */
  function Sequence(first: byte): Form {
    if 0xC2 <= first <= 0xDF then Form(2, 0x80, 0xBF)
    else if first == 0xE0 then Form(3, 0xA0, 0xBF)
    else if 0xE1 <= first <= 0xEC || 0xEE <= first <= 0xEF then Form(3, 0x80, 0xBF)
    else if first == 0xED then Form(3, 0x80, 0x9F)
    else if first == 0xF0 then Form(4, 0x90, 0xBF)
    else if 0xF1 <= first <= 0xF3 then Form(4, 0x80, 0xBF)
    else if first == 0xF4 then Form(4, 0x80, 0x8F)
    else Form(0, 0, 0)
  }

  /** The bits contributed by the first `k` bytes of a sequence: utf8.DecodeRune on a whole one. */
  function Bits(s: seq<byte>, k: nat): int
    requires 1 <= k <= |s|
  {
    if k == 1 then
      var width := Sequence(s[0]).width;
      if width == 2 then s[0] % 32 else if width == 3 then s[0] % 16 else s[0] % 8
    else Bits(s, k - 1) * 64 + s[k - 1] % 64
  }

  /** Byte `j` may continue the sequence whose lead byte is `s[0]`. */
  predicate Continues(s: seq<byte>, j: nat)
    requires 1 <= j < |s|
  {
    var form := Sequence(s[0]);
    if j == 1 then form.secondMin <= s[j] <= form.secondMax else 0x80 <= s[j] <= 0xBF
  }

  lemma Single(s: seq<byte>)
    requires s != [] && Sequence(s[0]).width == 0
    ensures Repaired(s) == (if s[0] < 0x80 then [s[0]] else EncodeRune(REPLACEMENT)) + Repaired(s[1..])
  {
    assert Whatwg(INITIAL, s) == [if s[0] < 0x80 then s[0] as int else REPLACEMENT] + Whatwg(INITIAL, s[1..]);
  }

  lemma RepairedEmpty()
    ensures Repaired([]) == []
  {
  }

  // ----- the decoder consumes one maximal subpart at a time -----------------

  /** The decoder after `k` bytes of a sequence that is still incomplete. */
  function Pending(s: seq<byte>, k: nat): Decoder
    requires 1 <= k <= |s|
  {
    var form := Sequence(s[0]);
    if k == 1 then Decoder(Bits(s, 1), 0, if form.width > 0 then form.width - 1 else 0, form.secondMin, form.secondMax)
    else Decoder(Bits(s, k), k - 1, if form.width > 0 then form.width - 1 else 0, 0x80, 0xBF)
  }

  lemma {:induction false} Advance(s: seq<byte>, k: nat)
    requires s != [] && 1 <= k <= |s| && k < Sequence(s[0]).width
    requires forall j :: 1 <= j < k ==> Continues(s, j)
    ensures Whatwg(INITIAL, s) == Whatwg(Pending(s, k), s[k..])
  {
    hide EncodeRune;
    if k > 1 {
      Advance(s, k - 1);
      assert Continues(s, k - 1);
      assert s[k - 1..][0] == s[k - 1] && s[k - 1..][1..] == s[k..];
    }
  }

  lemma Sixes(high: int, low: int)
    requires 0 <= high && 0 <= low < 64
    ensures (high * 64 + low) / 64 == high && (high * 64 + low) % 64 == low
  {
  }

  lemma EncodeTwo(a: int, b: int)
    requires 0xC2 <= a <= 0xDF && 0x80 <= b <= 0xBF
    ensures EncodeRune(a % 32 * 64 + b % 64) == [a, b]
  {
    Sixes(a % 32, b % 64);
  }

  lemma EncodeThree(a: int, b: int, c: int)
    requires 0xE0 <= a <= 0xEF && 0x80 <= c <= 0xBF
    requires (if a == 0xE0 then 0xA0 else 0x80) <= b <= (if a == 0xED then 0x9F else 0xBF)
    ensures EncodeRune((a % 16 * 64 + b % 64) * 64 + c % 64) == [a, b, c]
  {
    var q := a % 16 * 64 + b % 64;
    Sixes(a % 16, b % 64);
    Sixes(q, c % 64);
    assert a % 16 == a - 0xE0 && b % 64 == b - 0x80 && c % 64 == c - 0x80;
  }

  lemma Pack(a: int, b: int, c: int, d: int)
    requires 0 <= a && 0 <= b < 64 && 0 <= c < 64 && 0 <= d < 64
    ensures var r := ((a * 64 + b) * 64 + c) * 64 + d;
      r / 64 / 64 / 64 == a && r / 64 / 64 % 64 == b && r / 64 % 64 == c && r % 64 == d
  {
    var p := a * 64 + b;
    var q := p * 64 + c;
    Sixes(a, b);
    Sixes(p, c);
    Sixes(q, d);
  }

  lemma EncodeLong(r: int)
    requires 0x10000 <= r <= 0x10FFFF
    ensures EncodeRune(r) == [0xF0 + r / 64 / 64 / 64, 0x80 + r / 64 / 64 % 64, 0x80 + r / 64 % 64, 0x80 + r % 64]
  {
  }

  lemma EncodeFour(a: int, b: int, c: int, d: int)
    requires 0xF0 <= a <= 0xF4 && 0x80 <= c <= 0xBF && 0x80 <= d <= 0xBF
    requires (if a == 0xF0 then 0x90 else 0x80) <= b <= (if a == 0xF4 then 0x8F else 0xBF)
    ensures EncodeRune(((a % 8 * 64 + b % 64) * 64 + c % 64) * 64 + d % 64) == [a, b, c, d]
  {
    hide EncodeRune;
    assert a % 8 == a - 0xF0 && b % 64 == b - 0x80 && c % 64 == c - 0x80 && d % 64 == d - 0x80;
    var r := (((a - 0xF0) * 64 + (b - 0x80)) * 64 + (c - 0x80)) * 64 + (d - 0x80);
    Pack(a - 0xF0, b - 0x80, c - 0x80, d - 0x80);
    EncodeLong(r);
  }

  /** Re-encoding the decoded bits of a whole sequence gives its own bytes. */
  lemma {:induction false} EncodeBits(s: seq<byte>)
    requires s != [] && 0 < Sequence(s[0]).width <= |s|
    requires forall j :: 1 <= j < Sequence(s[0]).width ==> Continues(s, j)
    ensures EncodeRune(Bits(s, Sequence(s[0]).width)) == s[..Sequence(s[0]).width]
  {
    var w := Sequence(s[0]).width;
    assert Continues(s, 1);
    if w == 2 {
      EncodeTwo(s[0], s[1]);
    } else if w == 3 {
      assert Continues(s, 2);
      EncodeThree(s[0], s[1], s[2]);
      assert Bits(s, 3) == Bits(s, 2) * 64 + s[2] % 64;
    } else {
      assert Continues(s, 2) && Continues(s, 3);
      EncodeFour(s[0], s[1], s[2], s[3]);
      assert Bits(s, 4) == Bits(s, 3) * 64 + s[3] % 64;
      assert Bits(s, 3) == Bits(s, 2) * 64 + s[2] % 64;
    }
  }

  lemma {:induction false} Whole(s: seq<byte>)
    requires s != [] && 0 < Sequence(s[0]).width <= |s|
    requires forall j :: 1 <= j < Sequence(s[0]).width ==> Continues(s, j)
    ensures Repaired(s) == EncodeRune(Bits(s, Sequence(s[0]).width)) + Repaired(s[Sequence(s[0]).width..])
    ensures EncodeRune(Bits(s, Sequence(s[0]).width)) == s[..Sequence(s[0]).width]
  {
    var w := Sequence(s[0]).width;
    Advance(s, w - 1);
    assert Continues(s, w - 1);
    assert s[w - 1..][0] == s[w - 1] && s[w - 1..][1..] == s[w..];
    EncodeBits(s);
  }

  lemma {:induction false} Truncated(s: seq<byte>, k: nat)
    requires s != [] && 1 <= k <= |s| && k < Sequence(s[0]).width
    requires forall j :: 1 <= j < k ==> Continues(s, j)
    requires k == |s| || !Continues(s, k)
    ensures Repaired(s) == EncodeRune(REPLACEMENT) + Repaired(s[k..])
  {
    Advance(s, k);
    if k < |s| {
      assert s[k..][0] == s[k];
      assert Whatwg(INITIAL, s) == [REPLACEMENT] + Whatwg(INITIAL, s[k..]);
    } else {
      assert Whatwg(INITIAL, s) == [REPLACEMENT] + Whatwg(INITIAL, s[k..]);
    }
  }

  // ----- the implementation -------------------------------------------------

  /** decodeUTF8WithReplacement */
  method DecodeWithReplacement(value: seq<byte>) returns (text: seq<byte>)
    ensures text == Repaired(value)
  {
    hide Repaired, EncodeRune, Bits;
    text := [];
    var remaining := value;
    while remaining != []
      invariant text + Repaired(remaining) == Repaired(value)
      decreases |remaining|
    {
      var piece, consumed := [remaining[0]], 1;
      if remaining[0] < 0x80 {
        Single(remaining);
      } else {
        var form := Sequence(remaining[0]);
        if form.width == 0 {
          Single(remaining);
          piece := EncodeRune(REPLACEMENT);
        } else {
          var available := Min(form.width, |remaining|);
          var valid, offset := available == form.width, 0;
          while offset < available - 1
            invariant 0 <= offset <= available - 1
            invariant consumed == offset + 1 && valid == (available == form.width)
            invariant forall j :: 1 <= j < consumed ==> Continues(remaining, j)
          {
            var minimum, maximum := 0x80, 0xBF;
            if offset == 0 {
              minimum, maximum := form.secondMin, form.secondMax;
            }
            if remaining[1 + offset] < minimum || remaining[1 + offset] > maximum {
              valid := false;
              break;
            }
            consumed := offset + 2;
            offset := offset + 1;
          }
          if valid {
            Whole(remaining);
            piece := EncodeRune(Bits(remaining, form.width));
            consumed := form.width;
          } else {
            Truncated(remaining, consumed);
            piece := EncodeRune(REPLACEMENT);
          }
        }
      }
      Associate(text, piece, Repaired(remaining[consumed..]));
      text := text + piece;
      remaining := remaining[consumed..];
    }
    RepairedEmpty();
  }

  // ----- what the repair guarantees ------------------------------------------

  /**
    The repair takes one part of the input at a time: a UTF8-char, kept as it
    is, or a run of bytes at or above 0x80, replaced by U+FFFD.
   */
  lemma {:induction false} NextPart(s: seq<byte>) returns (k: nat, out: seq<byte>)
    requires s != []
    ensures 1 <= k <= |s| && Repaired(s) == out + Repaired(s[k..])
    ensures
      || (CharWidth(s) == k && out == s[..k])
      || (CharWidth(s) == 0 && out == EncodeRune(REPLACEMENT) && forall j :: 0 <= j < k ==> s[j] >= 0x80)
  {
    hide Repaired, EncodeRune, Bits;
    var width := Sequence(s[0]).width;
    if width == 0 { Single(s); }
    k, out := 1, if s[0] < 0x80 then [s[0]] else EncodeRune(REPLACEMENT);
    if width > 0 {
      while k < width && k < |s| && Continues(s, k)
        invariant 1 <= k <= width && k <= |s|
        invariant forall j :: 1 <= j < k ==> Continues(s, j)
      {
        k := k + 1;
      }
      if k == width {
        Whole(s);
        out := s[..k];
        assert CharWidth(s) == width by {
          assert Continues(s, 1) && (width >= 3 ==> Continues(s, 2)) && (width >= 4 ==> Continues(s, 3));
        }
      } else {
        Truncated(s, k);
        assert CharWidth(s) == 0 by { assert k < |s| ==> !Continues(s, k); }
        forall j | 0 <= j < k ensures s[j] >= 0x80 { assert j > 0 ==> Continues(s, j); }
      }
    }
  }

  /** Every rune is written as one UTF8-char. */
  lemma EncodeRuneWidth(r: int, rest: seq<byte>)
    ensures CharWidth(EncodeRune(r) + rest) == |EncodeRune(r)| > 0
  {
    var s := EncodeRune(r) + rest;
    if IsScalar(r) && 0x800 <= r < 0x10000 {
      assert s[0] == 0xE0 + r / 64 / 64 && s[1] == 0x80 + r / 64 % 64 && s[2] == 0x80 + r % 64;
    } else if IsScalar(r) && 0x10000 <= r {
      assert s[0] == 0xF0 + r / 64 / 64 / 64 && s[1] == 0x80 + r / 64 / 64 % 64;
      assert s[2] == 0x80 + r / 64 % 64 && s[3] == 0x80 + r % 64;
    }
  }

  lemma {:induction false} EncodeAllWellFormed(runes: seq<int>)
    ensures WellFormed(EncodeAll(runes))
  {
    if runes != [] {
      var head, rest := EncodeRune(runes[0]), EncodeAll(runes[1..]);
      EncodeRuneWidth(runes[0], rest);
      EncodeAllWellFormed(runes[1..]);
      assert (head + rest)[|head|..] == rest;
    }
  }

  lemma RepairedWellFormed(s: seq<byte>)
    ensures WellFormed(Repaired(s))
  {
    EncodeAllWellFormed(Whatwg(INITIAL, s));
  }

  lemma {:induction false} WellFormedUnchanged(s: seq<byte>)
    requires WellFormed(s)
    ensures Repaired(s) == s
  {
    if s != [] {
      var k, out := NextPart(s);
      WellFormedUnchanged(s[k..]);
    }
  }

  /** The repair changes exactly the malformed inputs. */
  lemma RepairIdentity(s: seq<byte>)
    ensures Repaired(s) == s <==> WellFormed(s)
  {
    RepairedWellFormed(s);
    if WellFormed(s) { WellFormedUnchanged(s); }
  }

  lemma RepairIdempotent(s: seq<byte>)
    ensures Repaired(Repaired(s)) == Repaired(s)
  {
    RepairedWellFormed(s);
    WellFormedUnchanged(Repaired(s));
  }

  lemma {:induction false} RepairedLength(s: seq<byte>)
    ensures |Repaired(s)| <= 3 * |s|
  {
    if s != [] {
      var k, out := NextPart(s);
      RepairedLength(s[k..]);
    }
  }
}
