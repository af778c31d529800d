/**
 * The pieces of JavaScript's string library that the remix pipeline relies on:
 * the regular-expression classes `\d`, `\w` and `\s`, `String.prototype.trim`,
 * `split` on a single character and `includes`.
 */
module Strings {

  /** `\d`: an ASCII decimal digit. */
  predicate IsDigit(c: char) {
    '0' <= c <= '9'
  }

  /** `\w` of a regular expression without the `u` flag: ASCII letters, digits and `_`. */
  predicate IsWord(c: char) {
    'A' <= c <= 'Z' || 'a' <= c <= 'z' || IsDigit(c) || c == '_'
  }

  /**
   * `\s`, which is also the set `trim` removes: the ECMAScript WhiteSpace and
   * LineTerminator code points. In ASCII these are the space and the controls
   * from tab (U+0009) to carriage return (U+000D).
   */
  predicate IsSpace(c: char) {
    c == ' ' || ('\t' <= c <= '\r') || ('\U{00A0}' <= c && IsWideSpace(c))
  }

  /** The non-ASCII members of `\s`. */
  predicate IsWideSpace(c: char) {
    || c == '\U{00A0}' || c == '\U{1680}' || ('\U{2000}' <= c <= '\U{200A}')
    || c == '\U{2028}' || c == '\U{2029}' || c == '\U{202F}' || c == '\U{205F}'
    || c == '\U{3000}' || c == '\U{FEFF}'
  }

  /** Length of the longest prefix of `s` whose characters all satisfy `p` (a greedy `p*`). */
  function Span(s: string, p: char -> bool): (n: nat)
    ensures n <= |s|
  {
    if s == [] || !p(s[0]) then 0 else 1 + Span(s[1..], p)
  }

  /** The run is made of `p`-characters and stops at the end or at a character that is not one. */
  lemma {:induction false} SpanSpec(s: string, p: char -> bool)
    ensures forall i :: 0 <= i < Span(s, p) ==> p(s[i])
    ensures Span(s, p) < |s| ==> !p(s[Span(s, p)])
  {
    if s != [] && p(s[0]) {
      SpanSpec(s[1..], p);
      forall i | 0 < i < Span(s, p)
        ensures p(s[i])
      {
        assert s[i] == s[1..][i - 1];
      }
    }
  }

  /** The longest run of `p` is unique: any prefix of `p`-characters ended by a non-`p` is it. */
  lemma {:induction false} SpanExact(s: string, p: char -> bool, k: nat)
    requires k <= |s|
    requires forall i :: 0 <= i < k ==> p(s[i])
    requires k < |s| ==> !p(s[k])
    ensures Span(s, p) == k
  {
    if k > 0 {
      SpanExact(s[1..], p, k - 1);
    }
  }

  /** A run that ends inside `x`, or at a character of `t` that does not qualify, is unaffected by appending `t`. */
  lemma SpanAppend(x: string, t: string, p: char -> bool)
    requires Span(x, p) < |x| || t == [] || !p(t[0])
    ensures Span(x + t, p) == Span(x, p)
  {
    var n := Span(x, p);
    var s := x + t;
    SpanSpec(x, p);
    assert forall i :: 0 <= i < n ==> s[i] == x[i];
    assert n < |s| ==> s[n] == if n < |x| then x[n] else t[0];
    SpanExact(s, p, n);
  }

  /** Number of whitespace characters at the start of `s`. */
  function LeadingSpaces(s: string): (n: nat)
    ensures n <= |s|
  {
    Span(s, IsSpace)
  }

  /** The leading run is whitespace and ends at the first non-whitespace character. */
  lemma LeadingSpacesSpec(s: string)
    ensures forall i :: 0 <= i < LeadingSpaces(s) ==> IsSpace(s[i])
    ensures LeadingSpaces(s) < |s| ==> !IsSpace(s[LeadingSpaces(s)])
  {
    SpanSpec(s, IsSpace);
  }

  /** Number of whitespace characters at the end of `s`. */
  function TrailingSpaces(s: string): (n: nat)
    ensures n <= |s|
  {
    if s == [] || !IsSpace(s[|s| - 1]) then 0 else 1 + TrailingSpaces(s[..|s| - 1])
  }

  /** The trailing run is whitespace and starts after the last non-whitespace character. */
  lemma {:induction false} TrailingSpacesSpec(s: string)
    ensures forall i :: |s| - TrailingSpaces(s) <= i < |s| ==> IsSpace(s[i])
    ensures TrailingSpaces(s) < |s| ==> !IsSpace(s[|s| - 1 - TrailingSpaces(s)])
  {
    if s != [] && IsSpace(s[|s| - 1]) {
      var r := s[..|s| - 1];
      TrailingSpacesSpec(r);
      forall i | |s| - TrailingSpaces(s) <= i < |s| - 1
        ensures IsSpace(s[i])
      {
        assert s[i] == r[i];
      }
    }
  }

  /** `String.prototype.trim`: drop whitespace from both ends. */
  function Trim(s: string): (r: string)
    ensures |r| <= |s|
  {
    var rest := s[LeadingSpaces(s)..];
    rest[..|rest| - TrailingSpaces(rest)]
  }

  /** What `trim` keeps is a contiguous slice of `s` with only whitespace around it. */
  lemma TrimIsSlice(s: string) returns (start: nat)
    ensures start + |Trim(s)| <= |s|
    ensures Trim(s) == s[start..start + |Trim(s)|]
    ensures forall i :: 0 <= i < start ==> IsSpace(s[i])
    ensures forall i :: start + |Trim(s)| <= i < |s| ==> IsSpace(s[i])
    ensures Trim(s) != [] ==> !IsSpace(s[start]) && !IsSpace(s[start + |Trim(s)| - 1])
  {
    start := LeadingSpaces(s);
    var rest := s[start..];
    LeadingSpacesSpec(s);
    TrailingSpacesSpec(rest);
    forall i | start + |Trim(s)| <= i < |s|
      ensures IsSpace(s[i])
    {
      assert s[i] == rest[i - start];
    }
    if Trim(s) != [] {
      assert s[start + |Trim(s)| - 1] == rest[|rest| - 1 - TrailingSpaces(rest)];
    }
  }

  /** `r` is the slice of `s` at `start`, and everything of `s` before and after it is whitespace. */
  predicate SliceBetweenSpaces(s: string, start: int, r: string) {
    && 0 <= start <= |s| - |r|
    && r == s[start..start + |r|]
    && (forall i :: 0 <= i < start ==> IsSpace(s[i]))
    && (forall i :: start + |r| <= i < |s| ==> IsSpace(s[i]))
  }

  /**
   * What `trim` returns: the contiguous slice of `s` left once the whitespace
   * at both ends is removed. It is empty when `s` is all whitespace, and
   * otherwise neither starts nor ends with whitespace.
   */
  lemma TrimSpec(s: string)
    ensures exists start :: SliceBetweenSpaces(s, start, Trim(s))
    ensures Trim(s) == [] <==> forall i :: 0 <= i < |s| ==> IsSpace(s[i])
    ensures Trim(s) != [] ==> !IsSpace(Trim(s)[0]) && !IsSpace(Trim(s)[|Trim(s)| - 1])
    ensures forall c :: c in Trim(s) ==> c in s
  {
    var start := TrimIsSlice(s);
    var r := Trim(s);
    assert SliceBetweenSpaces(s, start, r);
    if r != [] {
      assert r[0] == s[start] && r[|r| - 1] == s[start + |r| - 1];
    }
    forall c | c in r
      ensures c in s
    {
      var i :| 0 <= i < |r| && r[i] == c;
      assert s[start + i] == c;
    }
  }

  /** A string that neither starts nor ends with whitespace is its own trim. */
  lemma TrimUnchanged(s: string)
    requires s == [] || (!IsSpace(s[0]) && !IsSpace(s[|s| - 1]))
    ensures Trim(s) == s
  {
    TrimAfterSpaces([], s);
    assert [] + s == s;
  }

  /** Leading whitespace in front of a string that is its own trim is all `trim` removes. */
  lemma TrimAfterSpaces(ws: string, t: string)
    requires forall i :: 0 <= i < |ws| ==> IsSpace(ws[i])
    requires t == [] || (!IsSpace(t[0]) && !IsSpace(t[|t| - 1]))
    ensures Trim(ws + t) == t
  {
    var s := ws + t;
    assert forall i :: 0 <= i < |ws| ==> s[i] == ws[i];
    assert t != [] ==> s[|ws|] == t[0];
    SpanExact(s, IsSpace, |ws|);
    ConcatSlices(ws, t);
    assert TrailingSpaces(t) == 0;
  }

  /** A string that starts with a non-whitespace character keeps that character at the front when trimmed. */
  lemma TrimKeepsPrefix(s: string, k: nat)
    requires k < |s| && !IsSpace(s[0]) && !IsSpace(s[k])
    ensures |Trim(s)| > k && Trim(s)[..k + 1] == s[..k + 1]
  {
    SpanExact(s, IsSpace, 0);
    assert s[0..] == s;
    TrailingSpacesSpec(s);
    assert TrailingSpaces(s) < |s| - k;
  }

  /** Concatenation is associative (stated once, so proofs need not rediscover it on large terms). */
  lemma ConcatAssoc<T>(x: seq<T>, y: seq<T>, z: seq<T>)
    ensures x + (y + z) == (x + y) + z
  {
  }

  /** Regrouping a concatenation of five parts behind its first. */
  lemma ConcatAssoc5<T>(a: seq<T>, b: seq<T>, c: seq<T>, d: seq<T>, e: seq<T>)
    ensures a + b + c + d + e == a + (b + c + d + e)
  {
  }

  /** A concatenation sliced where its first part ends gives back the two parts. */
  lemma ConcatSlices<T>(x: seq<T>, y: seq<T>)
    ensures (x + y)[..|x|] == x && (x + y)[|x|..] == y
  {
  }

  /** Dropping a prefix of the first part of a concatenation drops it from the whole. */
  lemma DropConcat<T>(x: seq<T>, y: seq<T>, n: nat)
    requires n <= |x|
    ensures (x + y)[n..] == x[n..] + y
  {
  }

  /** The head and the tail of a three-part concatenation whose first part is not empty. */
  lemma ConsParts<T>(x: seq<T>, y: seq<T>, z: seq<T>)
    requires x != []
    ensures (x + y + z)[0] == x[0] && (x + y + z)[1..] == x[1..] + y + z
  {
  }

  /** Putting the head back in front of the tail of such a concatenation. */
  lemma ConsRebuild<T>(x: seq<T>, y: seq<T>, z: seq<T>)
    requires x != []
    ensures [x[0]] + (x[1..] + y + z) == x + y + z
  {
    assert [x[0]] + x[1..] == x;
  }

  /** A character outside the class every character of `s` belongs to does not occur in `s`. */
  lemma OutsideClass(s: string, p: char -> bool, c: char)
    requires forall i :: 0 <= i < |s| ==> p(s[i])
    requires !p(c)
    ensures c !in s
  {
  }

  /** `s.split(sep)` for a one-character separator: the pieces between separators, in order. */
  function Split(s: string, sep: char): (parts: seq<string>)
    ensures |parts| >= 1
  {
    if s == [] then [[]]
    else
      var rest := Split(s[1..], sep);
      if s[0] == sep then [[]] + rest else [[s[0]] + rest[0]] + rest[1..]
  }

  /** No piece contains the separator. */
  lemma {:induction false} SplitPiecesFree(s: string, sep: char)
    ensures forall i :: 0 <= i < |Split(s, sep)| ==> sep !in Split(s, sep)[i]
  {
    if s != [] {
      SplitPiecesFree(s[1..], sep);
    }
  }

  /** `parts.join(sep)`. */
  function Join(parts: seq<string>, sep: char): string {
    if parts == [] then []
    else if |parts| == 1 then parts[0]
    else parts[0] + [sep] + Join(parts[1..], sep)
  }

  /** Splitting loses nothing: joining the pieces with the separator gives back the text. */
  lemma {:induction false} JoinSplit(s: string, sep: char)
    ensures Join(Split(s, sep), sep) == s
  {
    if s != [] {
      var rest := Split(s[1..], sep);
      JoinSplit(s[1..], sep);
      if s[0] != sep {
        if |rest| == 1 {
          assert Split(s, sep) == [[s[0]] + rest[0]];
        } else {
          assert Split(s, sep) == [[s[0]] + rest[0]] + rest[1..];
          assert Join(rest, sep) == rest[0] + [sep] + Join(rest[1..], sep);
          assert ([s[0]] + rest[0]) + [sep] + Join(rest[1..], sep) == [s[0]] + Join(rest, sep);
        }
      }
    }
  }

  /** And joining pieces free of the separator splits back into exactly those pieces. */
  lemma {:induction false} SplitJoin(parts: seq<string>, sep: char)
    requires |parts| >= 1
    requires forall i :: 0 <= i < |parts| ==> sep !in parts[i]
    ensures Split(Join(parts, sep), sep) == parts
  {
    if |parts| == 1 {
      SplitPiece(parts[0], [], sep);
      assert parts[0] + [] == parts[0];
    } else {
      SplitJoin(parts[1..], sep);
      var tail := [sep] + Join(parts[1..], sep);
      assert Join(parts, sep) == parts[0] + tail;
      SplitPiece(parts[0], tail, sep);
      assert tail[1..] == Join(parts[1..], sep);
      assert Split(tail, sep) == [[]] + parts[1..];
      assert parts[0] + [] == parts[0];
      assert parts == [parts[0]] + parts[1..];
    }
  }

  /** Text without the separator is a single piece. */
  lemma SplitWithoutSeparator(s: string, sep: char)
    requires sep !in s
    ensures Split(s, sep) == [s]
  {
    SplitJoin([s], sep);
  }

  /** A separator-free prefix glues onto the first piece of what follows it. */
  lemma {:induction false} SplitPiece(piece: string, tail: string, sep: char)
    requires sep !in piece
    ensures Split(piece + tail, sep) == [piece + Split(tail, sep)[0]] + Split(tail, sep)[1..]
  {
    var t := Split(tail, sep);
    if piece == [] {
      assert piece + tail == tail;
      assert piece + t[0] == t[0];
      assert t == [t[0]] + t[1..];
    } else {
      var s := piece + tail;
      assert s[1..] == piece[1..] + tail;
      SplitPiece(piece[1..], tail, sep);
      var rest := Split(s[1..], sep);
      assert rest == [piece[1..] + t[0]] + t[1..];
      assert Split(s, sep) == [[s[0]] + rest[0]] + rest[1..];
      assert [s[0]] + (piece[1..] + t[0]) == piece + t[0];
    }
  }

  /** `s.includes(p)`: `p` occurs in `s` as a contiguous substring. */
  predicate Contains(s: string, p: string)
    decreases |s|
  {
    p <= s || (s != [] && Contains(s[1..], p))
  }

  /** A needle placed anywhere in a string is found there. */
  lemma {:induction false} ContainsPlaced(a: string, p: string, b: string)
    ensures Contains(a + p + b, p)
    decreases |a|
  {
    if a == [] {
      assert a + p + b == p + b;
      assert (p + b)[..|p|] == p;
    } else {
      ContainsPlaced(a[1..], p, b);
      assert (a + p + b)[1..] == a[1..] + p + b;
    }
  }

  /** `p` occurs in `s` starting at position `i`. */
  predicate OccursAt(s: string, p: string, i: int) {
    0 <= i <= |s| - |p| && s[i..i + |p|] == p
  }

  /** `includes` holds only where the needle really occurs, and the position is found. */
  lemma {:induction false} ContainsOccurs(s: string, p: string) returns (i: nat)
    requires Contains(s, p)
    ensures OccursAt(s, p, i)
    decreases |s|
  {
    if p <= s {
      i := 0;
    } else {
      var j := ContainsOccurs(s[1..], p);
      i := j + 1;
      assert s[i..i + |p|] == s[1..][j..j + |p|];
    }
  }

  /** `includes` holds exactly when the needle occurs at some position. */
  lemma ContainsIffOccurs(s: string, p: string)
    ensures Contains(s, p) <==> exists i :: OccursAt(s, p, i)
  {
    if Contains(s, p) {
      var i := ContainsOccurs(s, p);
    }
    if i :| OccursAt(s, p, i) {
      assert s == s[..i] + p + s[i + |p|..];
      ContainsPlaced(s[..i], p, s[i + |p|..]);
    }
  }

  /** A substring's characters all occur in the string, so one missing character rules it out. */
  lemma {:induction false} MissingCharNotContained(s: string, p: string, c: char)
    requires c in p && c !in s
    ensures !Contains(s, p)
  {
    if s != [] {
      MissingCharNotContained(s[1..], p, c);
    }
  }
}
