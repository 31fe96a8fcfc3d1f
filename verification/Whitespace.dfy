/**
  The tab rewriting applied to structured fields before parsing
  (signature_fields.go:623-640) and its interplay with the combination of field
  lines (structured_field_safe.go:41-56).
 */
module Whitespace {
  import opened Basics

  predicate Blank(c: char) {
    c == ' ' || c == '\t'
  }

  function DropBlanks(s: string): (t: string)
    ensures |t| <= |s|
  {
    if s != "" && Blank(s[0]) then DropBlanks(s[1..]) else s
  }

  /** A comma is the first non-blank character to the left of position `i`. */
  predicate CommaBefore(s: string, i: nat)
    requires i <= |s|
  {
    i > 0 && (s[i - 1] == ',' || (Blank(s[i - 1]) && CommaBefore(s, i - 1)))
  }

  /** A comma is the first non-blank character from position `i` on. */
  predicate CommaFrom(s: string, i: nat)
    requires i <= |s|
    decreases |s| - i
  {
    i < |s| && (s[i] == ',' || (Blank(s[i]) && CommaFrom(s, i + 1)))
  }

  predicate NextToComma(s: string, i: nat)
    requires i < |s|
  {
    CommaBefore(s, i) || CommaFrom(s, i + 1)
  }

  /** A tab becomes a space exactly when only blanks separate it from a comma. */
  function Rewritten(s: string): (t: string)
    ensures |t| == |s|
  {
    seq(|s|, i requires 0 <= i < |s| => if s[i] == '\t' && NextToComma(s, i) then ' ' else s[i])
  }

  // ----- the implementation ---------------------------------------------------------

  /** bytes.HasSuffix(bytes.TrimRight(buffer[:index], " \t"), ",") */
  method TrimmedEndsInComma(buffer: array<char>, index: nat) returns (r: bool)
    requires index <= buffer.Length
    ensures r == CommaBefore(buffer[..], index)
  {
    var end := index;
    while end > 0 && Blank(buffer[end - 1])
      invariant 0 <= end <= index
      invariant CommaBefore(buffer[..], index) == CommaBefore(buffer[..], end)
    {
      end := end - 1;
    }
    return end > 0 && buffer[end - 1] == ',';
  }

  /** bytes.HasPrefix(bytes.TrimLeft(buffer[index:], " \t"), ",") */
  method TrimmedStartsWithComma(buffer: array<char>, index: nat) returns (r: bool)
    requires index <= buffer.Length
    ensures r == CommaFrom(buffer[..], index)
  {
    var start := index;
    while start < buffer.Length && Blank(buffer[start])
      invariant index <= start <= buffer.Length
      invariant CommaFrom(buffer[..], index) == CommaFrom(buffer[..], start)
    {
      start := start + 1;
    }
    return start < buffer.Length && buffer[start] == ',';
  }

  ghost predicate SameUpToBlanks(s: string, t: string) {
    |s| == |t| && forall i :: 0 <= i < |s| ==> s[i] == t[i] || (Blank(s[i]) && Blank(t[i]))
  }

  lemma {:induction false} SameCommasBefore(s: string, t: string, i: nat)
    requires SameUpToBlanks(s, t) && i <= |s|
    ensures CommaBefore(s, i) == CommaBefore(t, i)
  {
    if i > 0 { SameCommasBefore(s, t, i - 1); }
  }

  lemma {:induction false} SameCommasFrom(s: string, t: string, i: nat)
    requires SameUpToBlanks(s, t) && i <= |s|
    ensures CommaFrom(s, i) == CommaFrom(t, i)
    decreases |s| - i
  {
    if i < |s| { SameCommasFrom(s, t, i + 1); }
  }

  lemma SameCommas(s: string, t: string, i: nat)
    requires SameUpToBlanks(s, t) && i <= |s|
    ensures CommaBefore(s, i) == CommaBefore(t, i) && CommaFrom(s, i) == CommaFrom(t, i)
  {
    SameCommasBefore(s, t, i);
    SameCommasFrom(s, t, i);
  }

  /** The inner loop of normalizeStructuredFieldOWS, which reads bytes it has already changed. */
  method RewriteInPlace(buffer: array<char>)
    modifies buffer
    ensures buffer[..] == Rewritten(old(buffer[..]))
  {
    ghost var value := buffer[..];
    for index := 0 to buffer.Length
      invariant forall j :: 0 <= j < index ==> buffer[j] == Rewritten(value)[j]
      invariant forall j :: index <= j < buffer.Length ==> buffer[j] == value[j]
      invariant SameUpToBlanks(value, buffer[..])
    {
      if buffer[index] == '\t' {
        SameCommas(value, buffer[..], index);
        SameCommas(value, buffer[..], index + 1);
        var before := TrimmedEndsInComma(buffer, index);
        var after := TrimmedStartsWithComma(buffer, index + 1);
        if before || after {
          buffer[index] := ' ';
        }
      }
    }
  }

  // ----- properties of the rule --------------------------------------------------------

  /** `t` is `s` with some of the tabs that the rule would rewrite already rewritten. */
  ghost predicate PartlyRewritten(s: string, t: string) {
    |s| == |t| && forall i :: 0 <= i < |s| ==> s[i] == t[i] || (s[i] == '\t' && t[i] == ' ' && NextToComma(s, i))
  }

  /** Rewriting some of the affected tabs in advance does not change the result. */
  lemma RewriteEarly(s: string, t: string)
    requires PartlyRewritten(s, t)
    ensures Rewritten(t) == Rewritten(s)
  {
    assert SameUpToBlanks(s, t);
    forall i | 0 <= i < |s|
      ensures Rewritten(t)[i] == Rewritten(s)[i]
    {
      SameCommas(s, t, i);
      SameCommas(s, t, i + 1);
    }
  }

  lemma RewriteIdempotent(s: string)
    ensures Rewritten(Rewritten(s)) == Rewritten(s)
  {
    RewriteEarly(s, Rewritten(s));
  }

  lemma {:induction false} CommaBeforeWithin(s: string, prefix: string, suffix: string, i: nat)
    requires i <= |s| && CommaBefore(s, i)
    ensures CommaBefore(prefix + s + suffix, |prefix| + i)
  {
    assert (prefix + s + suffix)[|prefix| + i - 1] == s[i - 1];
    if s[i - 1] != ',' { CommaBeforeWithin(s, prefix, suffix, i - 1); }
  }

  lemma {:induction false} CommaFromWithin(s: string, prefix: string, suffix: string, i: nat)
    requires i <= |s| && CommaFrom(s, i)
    ensures CommaFrom(prefix + s + suffix, |prefix| + i)
    decreases |s| - i
  {
    assert (prefix + s + suffix)[|prefix| + i] == s[i];
    if s[i] != ',' { CommaFromWithin(s, prefix, suffix, i + 1); }
  }

  /** A tab next to a comma in a line is next to it in any text containing the line. */
  lemma PartlyRewrittenWithin(s: string, t: string, prefix: string, suffix: string)
    requires PartlyRewritten(s, t)
    ensures PartlyRewritten(prefix + s + suffix, prefix + t + suffix)
  {
    var whole, after := prefix + s + suffix, prefix + t + suffix;
    forall i | 0 <= i < |whole|
      ensures whole[i] == after[i] || (whole[i] == '\t' && after[i] == ' ' && NextToComma(whole, i))
    {
      if whole[i] != after[i] {
        var k := i - |prefix|;
        if CommaBefore(s, k) { CommaBeforeWithin(s, prefix, suffix, k); } else { CommaFromWithin(s, prefix, suffix, k + 1); }
      }
    }
  }

  function RewriteEach(lines: seq<string>): (r: seq<string>)
    ensures |r| == |lines|
  {
    seq(|lines|, i requires 0 <= i < |lines| => Rewritten(lines[i]))
  }

  /** combineStructuredFieldLines */
  function CombineLines(lines: seq<string>): seq<string> {
    if |lines| <= 1 then lines else [Join(lines, ", ")]
  }

  lemma RewrittenPartly(s: string)
    ensures PartlyRewritten(s, Rewritten(s))
  {
  }

  lemma {:induction false} JoinRewritten(done: string, lines: seq<string>)
    ensures Rewritten(done + Join(RewriteEach(lines), ", ")) == Rewritten(done + Join(lines, ", "))
    decreases lines
  {
    hide Rewritten, PartlyRewritten;
    if lines != [] {
      var line, rest := lines[0], if |lines| == 1 then "" else ", " + Join(lines[1..], ", ");
      assert RewriteEach(lines)[1..] == RewriteEach(lines[1..]);
      RewrittenPartly(line);
      PartlyRewrittenWithin(line, Rewritten(line), done, rest);
      RewriteEarly(done + line + rest, done + Rewritten(line) + rest);
      if |lines| == 1 {
        assert done + line + rest == done + line && done + Rewritten(line) + rest == done + Rewritten(line);
      } else {
        JoinRewritten(done + Rewritten(line) + ", ", lines[1..]);
        assert done + Rewritten(line) + ", " + Join(RewriteEach(lines[1..]), ", ")
            == done + Join(RewriteEach(lines), ", ");
        assert done + Rewritten(line) + ", " + Join(lines[1..], ", ") == done + Rewritten(line) + rest;
        assert done + line + rest == done + Join(lines, ", ");
      }
    }
  }

  /** Rewriting the lines before they are combined does not change what rewriting afterwards gives. */
  lemma RewriteThenCombine(lines: seq<string>)
    ensures RewriteEach(CombineLines(RewriteEach(lines))) == RewriteEach(CombineLines(lines))
  {
    if |lines| == 1 {
      RewriteIdempotent(lines[0]);
    } else if |lines| > 1 {
      JoinRewritten("", lines);
      assert "" + Join(lines, ", ") == Join(lines, ", ");
      assert "" + Join(RewriteEach(lines), ", ") == Join(RewriteEach(lines), ", ");
    }
  }
}
