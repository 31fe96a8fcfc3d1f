/**
  Vocabulary shared by every module.

  A Go string is a sequence of bytes.  Where the source works on text (field
  values, identifiers, signature bases) it is modelled as a Dafny `string` with
  one `char` per byte; where it works on raw octets (UTF-8, base64, message
  bodies) it is a `seq<byte>`.
 */
module Basics {

  datatype Option<+T> = None | Some(value: T)

  datatype Result<+T, +E> = Ok(value: T) | Err(error: E)

  type byte = b: int | 0 <= b < 256

  /** The largest value of Go's `int` on a 64-bit platform. */
  const MAX_INT: int := 0x7FFF_FFFF_FFFF_FFFF

  function Min(a: int, b: int): int {
    if a < b then a else b
  }

  /** strings.Join */
  function Join(parts: seq<string>, separator: string): string {
    if parts == [] then ""
    else if |parts| == 1 then parts[0]
    else parts[0] + separator + Join(parts[1..], separator)
  }

  /** The octets of a string all of whose characters stand for one byte. */
  function Octets(text: string): (octets: seq<byte>)
    ensures |octets| == |text|
  {
    seq(|text|, i requires 0 <= i < |text| => text[i] as int % 256)
  }

  predicate Ascii(text: string) {
    forall i :: 0 <= i < |text| ==> text[i] as int < 0x80
  }

  lemma Associate<T>(a: seq<T>, b: seq<T>, c: seq<T>)
    ensures a + (b + c) == (a + b) + c
  {
  }

  lemma Nest<T>(a: seq<T>, b: seq<T>, c: seq<T>, d: seq<T>)
    ensures (a + (b + c)) + d == a + (b + (c + d))
  {
  }

  lemma Cancel<T>(a: seq<T>, b: seq<T>, c: seq<T>)
    requires a + b == a + c
    ensures b == c
  {
    assert (a + b)[|a|..] == b && (a + c)[|a|..] == c;
  }

  lemma SubsetSize<T>(a: set<T>, b: set<T>)
    requires a <= b
    ensures |a| <= |b| && (|a| == |b| ==> a == b)
  {
    assert b == a + (b - a);
    assert |b| == |a| + |b - a|;
  }

  /** `c` does not occur in `text`. */
  predicate Free(text: string, c: char) {
    forall i :: 0 <= i < |text| ==> text[i] != c
  }

  ghost predicate AllIn(p: char -> bool, text: string) {
    forall i :: 0 <= i < |text| ==> p(text[i])
  }

  /** `rest` does not continue a run of characters satisfying `p`. */
  ghost predicate Stops(p: char -> bool, rest: string) {
    rest == "" || !p(rest[0])
  }

  /** The length of the longest run of `p` characters at the start of `text`. */
  function Run(p: char -> bool, text: string): nat {
    if text == "" || !p(text[0]) then 0 else 1 + Run(p, text[1..])
  }

  lemma {:induction false} RunLength(p: char -> bool, a: string, r: string)
    requires AllIn(p, a) && Stops(p, r)
    ensures Run(p, a + r) == |a|
  {
    if a == "" {
      assert a + r == r;
    } else {
      assert (a + r)[1..] == a[1..] + r;
      RunLength(p, a[1..], r);
    }
  }

  /** A maximal run of characters is determined by the text it starts. */
  lemma MaximalRunUnique(p: char -> bool, a: string, r: string, b: string, s: string)
    requires AllIn(p, a) && Stops(p, r)
    requires AllIn(p, b) && Stops(p, s)
    requires a + r == b + s
    ensures a == b && r == s
  {
    RunLength(p, a, r);
    RunLength(p, b, s);
    assert a == (a + r)[..|a|] && b == (b + s)[..|b|];
    assert r == (a + r)[|a|..] && s == (b + s)[|b|..];
  }
}
