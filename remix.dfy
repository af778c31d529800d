/**
 * The post-processing half of `remixContent` in `src/api/remix.js` (the
 * line numbers below refer to that file): the raw text the language model
 * returns is split into lines, the numbered lines are kept, each is stripped
 * of its number and cleaned by a fixed chain of regular-expression
 * replacements, and the outcome (a list of tweets or an error message) is
 * produced, with every error rewritten by the function's `catch` block.
 */
module Remix {
  import opened Strings

  datatype Result<T, E> = Success(value: T) | Failure(error: E)

  /**
   * What the generation call hands back. `Text(s)` is a payload whose first
   * content segment has text `s`; `Missing` is one whose first segment has no
   * text; `Raised(m)` is an exception with message `m` thrown before the
   * pipeline runs (by the SDK call, or by the runtime when the payload has no
   * content segment at all).
   */
  datatype Payload = Text(text: string) | Missing | Raised(message: string)

  const InvalidResponseError := "Invalid response from Anthropic API"
  const NoTweetsError := "No tweets were generated"
  // The two longer messages are written as concatenations so that the verifier
  // can read their first characters without unfolding the whole literal.
  const ResidueError := "Tweets still contain hashtags or special " + "characters after cleaning"
  const AuthFailedMessage := "API authentication failed. " + "Please check your API key."
  const FailurePrefix := "Failed to generate tweets: "

  // ---------------------------------------------------------------------------
  // The numbered-item marker: the regular expression /^\d+\./

  /** Declarative reading of /^\d+\./: one or more digits, then a period. */
  ghost predicate StartsWithNumber(s: string) {
    exists k :: 1 <= k < |s| && s[k] == '.' && forall i :: 0 <= i < k ==> IsDigit(s[i])
  }

  /** Length of the /^\d+\./ match at the start of `s`, 0 when there is none. */
  function MarkerLength(s: string): (n: nat)
    ensures n <= |s|
  {
    var d := Span(s, IsDigit);
    if 0 < d < |s| && s[d] == '.' then d + 1 else 0
  }

  /** The computed match agrees with the declarative reading of the expression. */
  lemma MarkerLengthMatches(s: string)
    ensures MarkerLength(s) > 0 <==> StartsWithNumber(s)
    ensures MarkerLength(s) > 0 ==>
      var n := MarkerLength(s);
      n >= 2 && s[n - 1] == '.' && forall i :: 0 <= i < n - 1 ==> IsDigit(s[i])
  {
    SpanSpec(s, IsDigit);
    if k :| 1 <= k < |s| && s[k] == '.' && forall i :: 0 <= i < k ==> IsDigit(s[i]) {
      SpanExact(s, IsDigit, k);
    }
  }

  /** The filter of line 41: the trimmed line starts with digits and a period. */
  predicate IsNumbered(line: string) {
    MarkerLength(Trim(line)) > 0
  }

  // The replace of line 45, /^\d+\.\s*/ -> "", anchored at the start of the untrimmed line.
  function StripMarker(line: string): (r: string)
    ensures |r| <= |line|
  {
    var m := MarkerLength(line);
    if m == 0 then line else line[m + LeadingSpaces(line[m..])..]
  }

  /**
   * Without a marker the line is untouched; with one, what goes is a prefix
   * made only of digits, periods and whitespace, and what is left does not
   * start with whitespace.
   */
  lemma StripMarkerSpec(line: string)
    ensures StripMarker(line) == line[|line| - |StripMarker(line)|..]
    ensures !StartsWithNumber(line) ==> StripMarker(line) == line
    ensures StartsWithNumber(line) ==>
      var r := StripMarker(line);
      && |r| <= |line| - 2
      && (r == [] || !IsSpace(r[0]))
      && forall i :: 0 <= i < |line| - |r| ==> IsDigit(line[i]) || line[i] == '.' || IsSpace(line[i])
  {
    MarkerLengthMatches(line);
    var m := MarkerLength(line);
    if m > 0 {
      StripMarkerCut(line, m);
    }
  }

  /** The marker case: `m` digits-and-period characters go, then the whitespace run after them. */
  lemma StripMarkerCut(line: string, m: nat)
    requires m == MarkerLength(line) && m >= 2
    requires forall i :: 0 <= i < m ==> IsDigit(line[i]) || line[i] == '.'
    ensures var r := StripMarker(line);
      && r == line[|line| - |r|..]
      && |r| <= |line| - 2
      && (r == [] || !IsSpace(r[0]))
      && forall i :: 0 <= i < |line| - |r| ==> IsDigit(line[i]) || line[i] == '.' || IsSpace(line[i])
  {
    RunAt(line, m);
  }

  /** The whitespace run starting at position `m` of `s`, in positions of `s`. */
  lemma RunAt(s: string, m: nat)
    requires m <= |s|
    ensures var k := LeadingSpaces(s[m..]);
      && m + k <= |s|
      && s[m..][k..] == s[m + k..]
      && (forall i :: m <= i < m + k ==> IsSpace(s[i]))
      && (m + k < |s| ==> !IsSpace(s[m + k]))
  {
    var rest := s[m..];
    LeadingSpacesSpec(rest);
    forall i | m <= i < m + LeadingSpaces(rest)
      ensures IsSpace(s[i])
    {
      assert s[i] == rest[i - m];
    }
  }

  // ---------------------------------------------------------------------------
  // The cleaning replacements of lines 48-57

  /** Length of the /\s*#\w+/ match at the start of `s`, 0 when there is none. */
  function HashtagLength(s: string): (n: nat)
    ensures n <= |s|
  {
    var k := LeadingSpaces(s);
    if k + 1 < |s| && s[k] == '#' && IsWord(s[k + 1]) then k + 1 + Span(s[k + 1..], IsWord) else 0
  }

  /** Line 48, s.replace(/\s*#\w+/g, ""): a left-to-right scan removing every match. */
  function RemoveHashtags(s: string): (r: string)
    ensures |r| <= |s|
    decreases |s|
  {
    if s == [] then []
    else
      var n := HashtagLength(s);
      if n > 0 then RemoveHashtags(s[n..]) else [s[0]] + RemoveHashtags(s[1..])
  }

  /** Text without a `#` holds no hashtag, so the replacement leaves it alone. */
  lemma {:induction false} RemoveHashtagsNoHash(s: string)
    requires '#' !in s
    ensures RemoveHashtags(s) == s
    decreases |s|
  {
    if s != [] {
      assert HashtagLength(s) == 0 by {
        var k := LeadingSpaces(s);
        if k < |s| {
          assert s[k] in s;
        }
      }
      RemoveHashtagsNoHash(s[1..]);
    }
  }

  /** Keep exactly the characters of `s` that satisfy `keep` (a global replace of a one-character class). */
  function Retain(s: string, keep: char -> bool): (r: string)
    ensures |r| <= |s|
  {
    if s == [] then []
    else if keep(s[0]) then [s[0]] + Retain(s[1..], keep)
    else Retain(s[1..], keep)
  }

  /** What is retained is exactly the characters that pass. */
  lemma {:induction false} RetainMembers(s: string, keep: char -> bool)
    ensures forall c :: c in Retain(s, keep) <==> c in s && keep(c)
  {
    if s != [] {
      RetainMembers(s[1..], keep);
      assert s == [s[0]] + s[1..];
    }
  }

  /** When no character passes, nothing is kept. */
  lemma {:induction false} RetainNone(s: string, keep: char -> bool)
    requires forall i :: 0 <= i < |s| ==> !keep(s[i])
    ensures Retain(s, keep) == []
  {
    if s != [] {
      RetainNone(s[1..], keep);
    }
  }

  /** When every character passes, nothing is removed. */
  lemma {:induction false} RetainAll(s: string, keep: char -> bool)
    requires forall i :: 0 <= i < |s| ==> keep(s[i])
    ensures Retain(s, keep) == s
  {
    if s != [] {
      RetainAll(s[1..], keep);
    }
  }

  /**
   * The replace works character by character: on a concatenation it keeps
   * what it keeps of each part, in order (with `Retain([c], keep)` being `[c]`
   * or `[]`, this pins down the result).
   */
  lemma {:induction false} RetainAppend(a: string, b: string, keep: char -> bool)
    ensures Retain(a + b, keep) == Retain(a, keep) + Retain(b, keep)
  {
    if a == [] {
      assert a + b == b;
    } else {
      RetainAppend(a[1..], b, keep);
      DropConcat(a, b, 1);
      assert (a + b)[0] == a[0];
      if keep(a[0]) {
        ConcatAssoc([a[0]], Retain(a[1..], keep), Retain(b, keep));
      }
    }
  }

  /** A single character is kept exactly when it passes. */
  lemma RetainOne(c: char, keep: char -> bool)
    ensures Retain([c], keep) == if keep(c) then [c] else []
  {
    assert [c][1..] == [];
  }

  predicate NotHashSign(c: char) {
    c != '#'
  }

  /** The class /[\w\s.,!?]/ that line 54 keeps and line 69 looks for the complement of. */
  predicate IsAllowed(c: char) {
    IsWord(c) || IsSpace(c) || c == '.' || c == ',' || c == '!' || c == '?'
  }

  /** No whitespace but the plain space, and never two whitespace characters side by side. */
  predicate SingleSpaced(s: string) {
    && (forall i :: 0 <= i < |s| ==> IsSpace(s[i]) ==> s[i] == ' ')
    && (forall i :: 0 <= i < |s| - 1 ==> !(IsSpace(s[i]) && IsSpace(s[i + 1])))
  }

  /** Line 57, s.replace(/\s+/g, " "): every whitespace run becomes one space. */
  function CollapseSpaces(s: string): (r: string)
    ensures |r| <= |s|
    decreases |s|
  {
    if s == [] then []
    else if IsSpace(s[0]) then [' '] + CollapseSpaces(s[LeadingSpaces(s)..])
    else [s[0]] + CollapseSpaces(s[1..])
  }

  /**
   * The collapsed text is single-spaced, starts with whitespace exactly when
   * the input does, and its other characters are the input's non-whitespace ones.
   */
  lemma {:induction false} CollapseSpacesSpec(s: string)
    ensures var r := CollapseSpaces(s);
      && SingleSpaced(r)
      && (r == [] <==> s == [])
      && (r != [] ==> (IsSpace(r[0]) <==> IsSpace(s[0])))
      && forall c :: c in r ==> c == ' ' || (c in s && !IsSpace(c))
    decreases |s|
  {
    if s != [] {
      if IsSpace(s[0]) {
        var k := LeadingSpaces(s);
        LeadingSpacesSpec(s);
        CollapseSpacesSpec(s[k..]);
        var rest := CollapseSpaces(s[k..]);
        assert CollapseSpaces(s) == [' '] + rest;
        forall c | c in rest
          ensures c == ' ' || (c in s && !IsSpace(c))
        {
          if c != ' ' {
            var i :| 0 <= i < |s[k..]| && s[k..][i] == c;
            assert s[k + i] == c;
          }
        }
      } else {
        CollapseSpacesSpec(s[1..]);
        var rest := CollapseSpaces(s[1..]);
        assert CollapseSpaces(s) == [s[0]] + rest;
        forall c | c in rest
          ensures c == ' ' || (c in s && !IsSpace(c))
        {
          if c != ' ' {
            var i :| 0 <= i < |s[1..]| && s[1..][i] == c;
            assert s[1 + i] == c;
          }
        }
      }
    }
  }

  /** A single-spaced string has no run to collapse. */
  lemma {:induction false} CollapseSingleSpaced(s: string)
    requires SingleSpaced(s)
    ensures CollapseSpaces(s) == s
    decreases |s|
  {
    if s != [] {
      assert SingleSpaced(s[1..]);
      CollapseSingleSpaced(s[1..]);
      if IsSpace(s[0]) {
        assert |s| > 1 ==> !IsSpace(s[1]);
        SpanExact(s, IsSpace, 1);
      }
    }
  }

  predicate NotSpace(c: char) {
    !IsSpace(c)
  }

  /** A whitespace run on its own becomes one space. */
  lemma CollapseRun(ws: string)
    requires |ws| > 0 && forall i :: 0 <= i < |ws| ==> IsSpace(ws[i])
    ensures CollapseSpaces(ws) == " "
  {
    SpanExact(ws, IsSpace, |ws|);
    assert ws[|ws|..] == [];
  }

  /** Cut before a non-whitespace character, the text collapses part by part. */
  lemma {:induction false} CollapseSpacesAppend(a: string, b: string)
    requires b == [] || !IsSpace(b[0])
    ensures CollapseSpaces(a + b) == CollapseSpaces(a) + CollapseSpaces(b)
    decreases |a|
  {
    if a == [] {
      assert a + b == b;
    } else if IsSpace(a[0]) {
      var k := LeadingSpaces(a);
      SpanAppend(a, b, IsSpace);
      DropConcat(a, b, k);
      CollapseSpacesAppend(a[k..], b);
      assert (a + b)[0] == a[0];
      ConcatAssoc([' '], CollapseSpaces(a[k..]), CollapseSpaces(b));
    } else {
      DropConcat(a, b, 1);
      CollapseSpacesAppend(a[1..], b);
      assert (a + b)[0] == a[0];
      ConcatAssoc([a[0]], CollapseSpaces(a[1..]), CollapseSpaces(b));
    }
  }

  /** A whitespace run at the end of text that does not itself end in whitespace becomes one space. */
  lemma {:induction false} CollapseTrailingRun(a: string, ws: string)
    requires a == [] || !IsSpace(a[|a| - 1])
    requires |ws| > 0 && forall i :: 0 <= i < |ws| ==> IsSpace(ws[i])
    ensures CollapseSpaces(a + ws) == CollapseSpaces(a) + " "
    decreases |a|
  {
    if a == [] {
      assert a + ws == ws;
      CollapseRun(ws);
    } else if IsSpace(a[0]) {
      var k := LeadingSpaces(a);
      LeadingSpacesSpec(a);
      assert k < |a|;
      SpanAppend(a, ws, IsSpace);
      DropConcat(a, ws, k);
      CollapseTrailingRun(a[k..], ws);
      assert (a + ws)[0] == a[0];
      ConcatAssoc([' '], CollapseSpaces(a[k..]), " ");
    } else {
      DropConcat(a, ws, 1);
      CollapseTrailingRun(a[1..], ws);
      assert (a + ws)[0] == a[0];
      ConcatAssoc([a[0]], CollapseSpaces(a[1..]), " ");
    }
  }

  /**
   * A whitespace run between two texts becomes one space, and the texts on
   * either side collapse on their own.
   */
  lemma CollapseRunBetween(a: string, ws: string, b: string)
    requires a == [] || !IsSpace(a[|a| - 1])
    requires |ws| > 0 && forall i :: 0 <= i < |ws| ==> IsSpace(ws[i])
    requires b == [] || !IsSpace(b[0])
    ensures CollapseSpaces(a + ws + b) == CollapseSpaces(a) + " " + CollapseSpaces(b)
  {
    CollapseSpacesAppend(a + ws, b);
    CollapseTrailingRun(a, ws);
  }

  /** The collapse keeps every non-whitespace character, in order. */
  lemma {:induction false} CollapseKeepsText(s: string)
    ensures Retain(CollapseSpaces(s), NotSpace) == Retain(s, NotSpace)
    decreases |s|
  {
    if s != [] {
      if IsSpace(s[0]) {
        var k := LeadingSpaces(s);
        LeadingSpacesSpec(s);
        CollapseKeepsText(s[k..]);
        RetainAppend([' '], CollapseSpaces(s[k..]), NotSpace);
        RetainOne(' ', NotSpace);
        assert s == s[..k] + s[k..];
        RetainAppend(s[..k], s[k..], NotSpace);
        RetainNone(s[..k], NotSpace);
      } else {
        CollapseKeepsText(s[1..]);
        RetainAppend([s[0]], CollapseSpaces(s[1..]), NotSpace);
        RetainOne(s[0], NotSpace);
      }
    }
  }

  /** The characters a cleaned tweet is made of: ASCII letters, digits, `_`, `.`, `,`, `!`, `?` and the space. */
  predicate IsTweetChar(c: char) {
    IsWord(c) || c == '.' || c == ',' || c == '!' || c == '?' || c == ' '
  }

  /** The normal form of a cleaned tweet: tweet characters, single spaces, no space at either end. */
  predicate IsCleanTweet(t: string) {
    && (forall i :: 0 <= i < |t| ==> IsTweetChar(t[i]))
    && SingleSpaced(t)
    && (t != [] ==> t[0] != ' ' && t[|t| - 1] != ' ')
  }

  /** Lines 48-57: the cleaning chain applied to a line whose number is already gone. */
  function Sanitize(s: string): string {
    Trim(CollapseSpaces(Retain(Retain(RemoveHashtags(s), NotHashSign), IsAllowed)))
  }

  /** Whatever goes in, a clean tweet comes out. */
  lemma SanitizeIsClean(s: string)
    ensures IsCleanTweet(Sanitize(s))
  {
    var noHash := Retain(RemoveHashtags(s), NotHashSign);
    var allowed := Retain(noHash, IsAllowed);
    RetainMembers(RemoveHashtags(s), NotHashSign);
    RetainMembers(noHash, IsAllowed);
    CollapsedIsTweetText(allowed);
    TrimmedIsClean(CollapseSpaces(allowed));
  }

  /** After the whitelist and the collapse only tweet characters are left, single-spaced. */
  lemma CollapsedIsTweetText(allowed: string)
    requires forall c :: c in allowed ==> IsAllowed(c) && NotHashSign(c)
    ensures var collapsed := CollapseSpaces(allowed);
      SingleSpaced(collapsed) && forall i :: 0 <= i < |collapsed| ==> IsTweetChar(collapsed[i])
  {
    var collapsed := CollapseSpaces(allowed);
    CollapseSpacesSpec(allowed);
    forall i | 0 <= i < |collapsed|
      ensures IsTweetChar(collapsed[i])
    {
      assert collapsed[i] in collapsed;
    }
  }

  /** Trimming single-spaced tweet text gives a clean tweet. */
  lemma TrimmedIsClean(collapsed: string)
    requires SingleSpaced(collapsed) && forall i :: 0 <= i < |collapsed| ==> IsTweetChar(collapsed[i])
    ensures IsCleanTweet(Trim(collapsed))
  {
    var r := Trim(collapsed);
    TrimSpec(collapsed);
    var start := TrimIsSlice(collapsed);
    forall i | 0 <= i < |r|
      ensures r[i] == collapsed[start + i]
    {
    }
  }

  /** Text the two character filters leave alone goes straight on to the whitespace steps. */
  lemma SanitizeAllowed(s: string)
    requires forall i :: 0 <= i < |s| ==> IsAllowed(s[i]) && NotHashSign(s[i])
    ensures Sanitize(s) == Trim(CollapseSpaces(s))
  {
    OutsideClass(s, NotHashSign, '#');
    RemoveHashtagsNoHash(s);
    RetainAll(s, NotHashSign);
    RetainAll(s, IsAllowed);
  }

  /** Every tweet character passes both character filters. */
  lemma TweetCharsAllowed(t: string)
    requires forall i :: 0 <= i < |t| ==> IsTweetChar(t[i])
    ensures forall i :: 0 <= i < |t| ==> IsAllowed(t[i]) && NotHashSign(t[i])
  {
  }

  /** Cleaning is idempotent: a clean tweet passes through every replacement unchanged. */
  lemma SanitizeFixesClean(t: string)
    requires IsCleanTweet(t)
    ensures Sanitize(t) == t
  {
    TweetCharsAllowed(t);
    SanitizeAllowed(t);
    CollapseSingleSpaced(t);
    if t != [] {
      assert IsTweetChar(t[0]) && IsTweetChar(t[|t| - 1]);
    }
    TrimUnchanged(t);
  }

  /** One numbered line to one tweet (the callback of the `map` at lines 44-61). */
  function CleanTweet(line: string): string {
    Sanitize(StripMarker(line))
  }

  // ---------------------------------------------------------------------------
  // The list stages and the outcome

  /** Line 41: the `filter` keeping numbered lines, in their original order. */
  function NumberedLines(lines: seq<string>): (r: seq<string>)
    ensures |r| <= |lines|
  {
    if lines == [] then []
    else if IsNumbered(lines[0]) then [lines[0]] + NumberedLines(lines[1..])
    else NumberedLines(lines[1..])
  }

  /** The filter keeps exactly the numbered lines. */
  lemma {:induction false} NumberedLinesMembers(lines: seq<string>)
    ensures forall l :: l in NumberedLines(lines) <==> l in lines && IsNumbered(l)
  {
    if lines != [] {
      NumberedLinesMembers(lines[1..]);
      assert lines == [lines[0]] + lines[1..];
    }
  }

  /** Lines 44-61: the `map` cleaning each line, one tweet per line, in order. */
  function CleanAll(lines: seq<string>): (r: seq<string>)
    ensures |r| == |lines|
    ensures forall i :: 0 <= i < |r| ==> r[i] == CleanTweet(lines[i])
  {
    if lines == [] then [] else [CleanTweet(lines[0])] + CleanAll(lines[1..])
  }

  /**
   * The test of lines 68-69: the tweet still holds a `#` or a character outside
   * /[\w\s.,!?]/.
   */
  predicate HasResidue(t: string) {
    exists i :: 0 <= i < |t| && (t[i] == '#' || !IsAllowed(t[i]))
  }

  /**
   * Lines 38-75 on the text of the response: the cleaned tweets, or the
   * message of the error the `try` block throws.
   */
  function ProcessResponse(responseText: string): Result<seq<string>, string> {
    var tweets := CleanAll(NumberedLines(Split(responseText, '\n')));
    if |tweets| == 0 then Failure(NoTweetsError)
    else if exists t :: t in tweets && HasResidue(t) then Failure(ResidueError)
    else Success(tweets)
  }

  /** Lines 79-85: the `catch` block's rewriting of an error message. */
  function RewriteError(message: string): string {
    if Contains(message, "authentication") then AuthFailedMessage else FailurePrefix + message
  }

  /**
   * An authentication error, and only that, becomes the fixed message; every
   * other message survives intact behind the prefix.
   */
  lemma RewriteErrorSpec(message: string)
    ensures RewriteError(message) == AuthFailedMessage <==> Contains(message, "authentication")
    ensures RewriteError(message) != AuthFailedMessage ==>
      FailurePrefix <= RewriteError(message) && RewriteError(message)[|FailurePrefix|..] == message
  {
    assert AuthFailedMessage[0] == 'A';
    assert (FailurePrefix + message)[0] == 'F';
  }

  /** `remixContent` from the generation call's outcome on: lines 28-85. */
  function RemixContent(payload: Payload): Result<seq<string>, string> {
    match payload
    case Raised(m) => Failure(RewriteError(m))
    case Missing => Failure(RewriteError(InvalidResponseError))
    case Text(s) =>
      // An empty text is falsy, so the guard of line 30 rejects it.
      if s == [] then Failure(RewriteError(InvalidResponseError))
      else
        match ProcessResponse(s)
        case Success(tweets) => Success(tweets)
        case Failure(m) => Failure(RewriteError(m))
  }
}
