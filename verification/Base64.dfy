/**
  The base64 encoding used for byte sequences (sections 4.1.8 and 4.2.7 of RFC
  8941): encoding/base64's StdEncoding and RawStdEncoding as the source uses them.
 */
module Base64 {
  import opened Basics

  function Letter(n: int): char
    requires 0 <= n < 64
  {
    if n < 26 then 'A' + n as char
    else if n < 52 then 'a' + (n - 26) as char
    else if n < 62 then '0' + (n - 52) as char
    else if n == 62 then '+' else '/'
  }

  predicate IsLetter(c: char) {
    'A' <= c <= 'Z' || 'a' <= c <= 'z' || '0' <= c <= '9' || c == '+' || c == '/'
  }

  function Sextet(c: char): int
    requires IsLetter(c)
    ensures 0 <= Sextet(c) < 64
  {
    if 'A' <= c <= 'Z' then c as int - 'A' as int
    else if 'a' <= c <= 'z' then c as int - 'a' as int + 26
    else if '0' <= c <= '9' then c as int - '0' as int + 52
    else if c == '+' then 62 else 63
  }

  /** validRFC8941Base64Alphabet */
  predicate AllLetters(s: string) {
    forall i :: 0 <= i < |s| ==> IsLetter(s[i])
  }

  // The four letters for the octets x, y, z.

  function First(x: byte): char { Letter(x / 4) }

  function Second(x: byte, y: byte): char { Letter(x % 4 * 16 + y / 16) }

  function Third(y: byte, z: byte): char { Letter(y % 16 * 4 + z / 64) }

  function Fourth(z: byte): char { Letter(z % 64) }

  /** base64.RawStdEncoding.EncodeToString */
  function RawEncode(b: seq<byte>): string {
    if b == [] then ""
    else if |b| == 1 then [First(b[0]), Second(b[0], 0)]
    else if |b| == 2 then [First(b[0]), Second(b[0], b[1]), Third(b[1], 0)]
    else [First(b[0]), Second(b[0], b[1]), Third(b[1], b[2]), Fourth(b[2])] + RawEncode(b[3..])
  }

  /** base64.StdEncoding.EncodeToString */
  function Encode(b: seq<byte>): string {
    RawEncode(b) + seq(if |b| % 3 == 0 then 0 else 3 - |b| % 3, _ => '=')
  }

  function High(a: char, b: char): byte
    requires IsLetter(a) && IsLetter(b)
  {
    Sextet(a) * 4 + Sextet(b) / 16
  }

  function Middle(a: char, b: char): byte
    requires IsLetter(a) && IsLetter(b)
  {
    Sextet(a) % 16 * 16 + Sextet(b) / 4
  }

  function Low(a: char, b: char): byte
    requires IsLetter(a) && IsLetter(b)
  {
    Sextet(a) % 4 * 64 + Sextet(b)
  }

  /** base64.RawStdEncoding.DecodeString on letters: surplus low bits of the last letter are ignored. */
  function RawDecode(s: string): Option<seq<byte>>
    requires AllLetters(s)
  {
    if s == "" then Some([])
    else if |s| == 1 then None
    else if |s| == 2 then Some([High(s[0], s[1])])
    else if |s| == 3 then Some([High(s[0], s[1]), Middle(s[1], s[2])])
    else
      match RawDecode(s[4..])
      case None => None
      case Some(rest) => Some([High(s[0], s[1]), Middle(s[1], s[2]), Low(s[2], s[3])] + rest)
  }

  /** strings.TrimRight(s, "=") */
  function TrimPadding(s: string): (t: string)
    ensures t <= s && (t == "" || t[|t| - 1] != '=')
  {
    if s != "" && s[|s| - 1] == '=' then TrimPadding(s[..|s| - 1]) else s
  }

  /** base64.StdEncoding.DecodeString: padding is mandatory and completes the last group. */
  function StdDecode(s: string): Option<seq<byte>> {
    var letters := TrimPadding(s);
    if |s| % 4 == 0 && |s| - |letters| <= 2 && AllLetters(letters) then RawDecode(letters) else None
  }

  // ----- properties ------------------------------------------------------------

  lemma SextetLetter(n: int)
    requires 0 <= n < 64
    ensures IsLetter(Letter(n)) && Sextet(Letter(n)) == n
  {
  }

  lemma HighBits(x: byte, y: byte)
    ensures IsLetter(First(x)) && IsLetter(Second(x, y)) && High(First(x), Second(x, y)) == x
  {
    var a, b := x / 4, x % 4 * 16 + y / 16;
    SextetLetter(a);
    SextetLetter(b);
    assert b / 16 == x % 4;
    assert First(x) == Letter(a) && Second(x, y) == Letter(b);
    hide Letter, Sextet, IsLetter;
  }

  lemma MiddleBits(x: byte, y: byte, z: byte)
    ensures IsLetter(Second(x, y)) && IsLetter(Third(y, z)) && Middle(Second(x, y), Third(y, z)) == y
  {
    var a, b := x % 4 * 16 + y / 16, y % 16 * 4 + z / 64;
    SextetLetter(a);
    SextetLetter(b);
    hide Letter, Sextet, IsLetter;
    assert a % 16 == y / 16;
    assert b / 4 == y % 16;
  }

  lemma LowBits(y: byte, z: byte)
    ensures IsLetter(Third(y, z)) && IsLetter(Fourth(z)) && Low(Third(y, z), Fourth(z)) == z
  {
    var a, b := y % 16 * 4 + z / 64, z % 64;
    SextetLetter(a);
    SextetLetter(b);
    assert a % 4 == z / 64;
    assert Third(y, z) == Letter(a) && Fourth(z) == Letter(b);
    hide Letter, Sextet, IsLetter;
  }

  /** Three octets survive the trip through four letters. */
  lemma Group(x: byte, y: byte, z: byte)
    ensures IsLetter(First(x)) && IsLetter(Second(x, y)) && IsLetter(Third(y, z)) && IsLetter(Fourth(z))
    ensures High(First(x), Second(x, y)) == x
    ensures Middle(Second(x, y), Third(y, z)) == y
    ensures Low(Third(y, z), Fourth(z)) == z
  {
    HighBits(x, y);
    MiddleBits(x, y, z);
    LowBits(y, z);
    hide First, Second, Third, Fourth, High, Middle, Low, IsLetter;
  }

  lemma {:induction false} RawSize(b: seq<byte>)
    ensures AllLetters(RawEncode(b))
    ensures |RawEncode(b)| == |b| / 3 * 4 + (if |b| % 3 == 0 then 0 else |b| % 3 + 1)
  {
    hide First, Second, Third, Fourth, IsLetter;
    if |b| >= 3 {
      RawSize(b[3..]);
      Group(b[0], b[1], b[2]);
      assert |b| / 3 == |b[3..]| / 3 + 1 && |b| % 3 == |b[3..]| % 3;
    } else if |b| > 0 {
      Group(b[0], if |b| == 2 then b[1] else 0, 0);
    }
  }

  lemma EncodeNoColon(octets: seq<byte>)
    ensures Free(Encode(octets), ':')
  {
    RawSize(octets);
    hide RawEncode;
  }

  lemma EncodedSize(b: seq<byte>)
    ensures |Encode(b)| == (|b| + 2) / 3 * 4
  {
    hide RawEncode;
    RawSize(b);
    var q, k := |b| / 3, |b| % 3;
    assert |b| == 3 * q + k;
    assert (|b| + 2) / 3 == if k == 0 then q else q + 1;
  }

  lemma {:induction false} TrimTail(letters: string, k: nat)
    requires letters != "" && letters[|letters| - 1] != '='
    ensures TrimPadding(letters + seq(k, _ => '=')) == letters
  {
    var s := letters + seq(k, _ => '=');
    if k == 0 {
      assert s == letters;
    } else {
      assert s[..|s| - 1] == letters + seq(k - 1, _ => '=');
      TrimTail(letters, k - 1);
    }
  }

  lemma TrimEncoded(b: seq<byte>)
    ensures TrimPadding(Encode(b)) == RawEncode(b)
  {
    RawSize(b);
    if b != [] {
      TrimTail(RawEncode(b), if |b| % 3 == 0 then 0 else 3 - |b| % 3);
    }
  }

  lemma DecodeTwo(a: char, b: char)
    requires IsLetter(a) && IsLetter(b)
    ensures AllLetters([a, b]) && RawDecode([a, b]) == Some([High(a, b)])
  {
  }

  lemma DecodeThree(a: char, b: char, c: char)
    requires IsLetter(a) && IsLetter(b) && IsLetter(c)
    ensures AllLetters([a, b, c]) && RawDecode([a, b, c]) == Some([High(a, b), Middle(b, c)])
  {
  }

  lemma DecodeFour(a: char, b: char, c: char, d: char, rest: string)
    requires IsLetter(a) && IsLetter(b) && IsLetter(c) && IsLetter(d)
    requires AllLetters(rest) && RawDecode(rest).Some?
    ensures AllLetters([a, b, c, d] + rest)
    ensures RawDecode([a, b, c, d] + rest) == Some([High(a, b), Middle(b, c), Low(c, d)] + RawDecode(rest).value)
  {
    assert ([a, b, c, d] + rest)[4..] == rest;
  }

  lemma RawOne(x: byte)
    ensures var s := [First(x), Second(x, 0)]; AllLetters(s) && RawDecode(s) == Some([x])
  {
    Group(x, 0, 0);
    DecodeTwo(First(x), Second(x, 0));
  }

  lemma RawTwo(x: byte, y: byte)
    ensures var s := [First(x), Second(x, y), Third(y, 0)]; AllLetters(s) && RawDecode(s) == Some([x, y])
  {
    Group(x, y, 0);
    DecodeThree(First(x), Second(x, y), Third(y, 0));
  }

  lemma RawThree(x: byte, y: byte, z: byte, rest: string)
    requires AllLetters(rest) && RawDecode(rest).Some?
    ensures var s := [First(x), Second(x, y), Third(y, z), Fourth(z)] + rest;
      AllLetters(s) && RawDecode(s) == Some([x, y, z] + RawDecode(rest).value)
  {
    Group(x, y, z);
    DecodeFour(First(x), Second(x, y), Third(y, z), Fourth(z), rest);
  }

  lemma EmptyDecode()
    ensures AllLetters("") && RawDecode("") == Some([])
  {
  }

  lemma {:induction false} RawRoundTrip(b: seq<byte>)
    ensures AllLetters(RawEncode(b)) && RawDecode(RawEncode(b)) == Some(b)
  {
    hide First, Second, Third, Fourth, RawDecode, AllLetters;
    if |b| >= 3 {
      RawRoundTrip(b[3..]);
      RawThree(b[0], b[1], b[2], RawEncode(b[3..]));
      assert b == [b[0], b[1], b[2]] + b[3..];
    } else if |b| == 2 {
      RawTwo(b[0], b[1]);
      assert b == [b[0], b[1]];
    } else if |b| == 1 {
      RawOne(b[0]);
      assert b == [b[0]];
    } else {
      EmptyDecode();
    }
  }

  lemma PaddingSize(b: seq<byte>)
    ensures |Encode(b)| % 4 == 0 && |Encode(b)| - |RawEncode(b)| <= 2
  {
    EncodedSize(b);
    hide RawEncode;
    var groups := (|b| + 2) / 3;
    assert groups * 4 % 4 == 0;
  }

  /** Padded decoding undoes encoding. */
  lemma RoundTrip(b: seq<byte>)
    ensures StdDecode(Encode(b)) == Some(b)
  {
    PaddingSize(b);
    TrimEncoded(b);
    RawRoundTrip(b);
  }
}
