/**
 * What the remix pipeline guarantees: which lines become tweets and in what
 * order, the shape of every tweet, how hashtags disappear, that cleaning is
 * idempotent, that the final verification can never reject a tweet, and how
 * each outcome is reported.
 */
module RemixProperties {
  import opened Strings
  import opened Remix

  // ---------------------------------------------------------------------------
  // Selecting the numbered lines

  /** The filter works line by line, so it keeps the order of the lines it keeps. */
  lemma {:induction false} NumberedLinesAppend(a: seq<string>, b: seq<string>)
    ensures NumberedLines(a + b) == NumberedLines(a) + NumberedLines(b)
  {
    if a == [] {
      assert a + b == b;
    } else {
      assert (a + b)[0] == a[0] && (a + b)[1..] == a[1..] + b;
      NumberedLinesAppend(a[1..], b);
    }
  }

  /** When every line is numbered, none is dropped. */
  lemma {:induction false} NumberedLinesAll(lines: seq<string>)
    requires forall i :: 0 <= i < |lines| ==> IsNumbered(lines[i])
    ensures NumberedLines(lines) == lines
  {
    if lines != [] {
      NumberedLinesAll(lines[1..]);
    }
  }

  /** When no line is numbered, nothing is kept. */
  lemma {:induction false} NumberedLinesNone(lines: seq<string>)
    requires forall l :: l in lines ==> !IsNumbered(l)
    ensures NumberedLines(lines) == []
  {
    if lines != [] {
      assert lines[0] in lines;
      NumberedLinesNone(lines[1..]);
    }
  }

  /** Numbered lines joined with line breaks come back, all of them, from the split and the filter. */
  lemma JoinedNumberedLinesKept(lines: seq<string>)
    requires |lines| >= 1
    requires forall i :: 0 <= i < |lines| ==> IsNumbered(lines[i]) && '\n' !in lines[i]
    ensures NumberedLines(Split(Join(lines, '\n'), '\n')) == lines
  {
    SplitJoin(lines, '\n');
    NumberedLinesAll(lines);
  }

  // ---------------------------------------------------------------------------
  // The hashtag replacement /\s*#\w+/g

  /**
   * A match cannot straddle the end of `a` when `a` ends in a non-space and
   * what follows does not start with a word character.
   */
  lemma HashtagLengthAppend(a: string, t: string)
    requires a != [] && !IsSpace(a[|a| - 1])
    requires t == [] || !IsWord(t[0])
    ensures HashtagLength(a + t) == HashtagLength(a)
  {
    var s := a + t;
    var k := LeadingSpaces(a);
    LeadingSpacesSpec(a);
    SpanAppend(a, t, IsSpace);
    if k + 1 < |a| {
      assert s[k] == a[k] && s[k + 1] == a[k + 1];
      assert s[k + 1..] == a[k + 1..] + t;
      SpanAppend(a[k + 1..], t, IsWord);
    } else {
      assert k + 1 < |s| ==> s[k + 1] == t[0];
    }
  }

  /** One scan step where no hashtag starts: the first character is kept. */
  lemma PlainStep(s: string)
    requires s != [] && HashtagLength(s) == 0
    ensures RemoveHashtags(s) == [s[0]] + RemoveHashtags(s[1..])
  {
  }

  /** One scan step where a hashtag starts: the match is dropped. */
  lemma HashtagStep(s: string)
    requires s != [] && HashtagLength(s) > 0
    ensures RemoveHashtags(s) == RemoveHashtags(s[HashtagLength(s)..])
  {
  }

  /** One scan step over `a + t` when the scan at the start of `a` finds no hashtag. */
  lemma PlainStepAppend(a: string, t: string)
    requires a != [] && !IsSpace(a[|a| - 1])
    requires t == [] || !IsWord(t[0])
    requires HashtagLength(a) == 0
    ensures RemoveHashtags(a + t) == [a[0]] + RemoveHashtags(a[1..] + t)
  {
    HashtagLengthAppend(a, t);
    PlainStep(a + t);
    DropConcat(a, t, 1);
  }

  /** One scan step over `a + t` when the scan at the start of `a` finds a hashtag. */
  lemma HashtagStepAppend(a: string, t: string)
    requires a != [] && !IsSpace(a[|a| - 1])
    requires t == [] || !IsWord(t[0])
    requires HashtagLength(a) > 0
    ensures RemoveHashtags(a + t) == RemoveHashtags(a[HashtagLength(a)..] + t)
  {
    HashtagLengthAppend(a, t);
    HashtagStep(a + t);
    DropConcat(a, t, HashtagLength(a));
  }

  /** Under the same conditions the replacement works on `a` and on the rest separately. */
  lemma {:induction false} RemoveHashtagsAppend(a: string, t: string)
    requires a == [] || !IsSpace(a[|a| - 1])
    requires t == [] || !IsWord(t[0])
    ensures RemoveHashtags(a + t) == RemoveHashtags(a) + RemoveHashtags(t)
    decreases |a|
  {
    if a == [] {
      assert a + t == t;
    } else if HashtagLength(a) > 0 {
      var n := HashtagLength(a);
      calc {
        RemoveHashtags(a + t);
      ==  { HashtagStepAppend(a, t); }
        RemoveHashtags(a[n..] + t);
      ==  { RemoveHashtagsAppend(a[n..], t); }
        RemoveHashtags(a[n..]) + RemoveHashtags(t);
      ==
        RemoveHashtags(a) + RemoveHashtags(t);
      }
    } else {
      calc {
        RemoveHashtags(a + t);
      ==  { PlainStepAppend(a, t); }
        [a[0]] + RemoveHashtags(a[1..] + t);
      ==  { RemoveHashtagsAppend(a[1..], t); }
        [a[0]] + (RemoveHashtags(a[1..]) + RemoveHashtags(t));
      ==  { ConcatAssoc([a[0]], RemoveHashtags(a[1..]), RemoveHashtags(t)); }
        ([a[0]] + RemoveHashtags(a[1..])) + RemoveHashtags(t);
      ==
        RemoveHashtags(a) + RemoveHashtags(t);
      }
    }
  }

  /**
   * A hashtag token `#` followed by word characters disappears together with
   * the whitespace in front of it, and nothing else around it changes.
   */
  lemma HashtagTokenRemoved(a: string, ws: string, w: string, b: string)
    requires a == [] || !IsSpace(a[|a| - 1])
    requires forall i :: 0 <= i < |ws| ==> IsSpace(ws[i])
    requires |w| > 0 && forall i :: 0 <= i < |w| ==> IsWord(w[i])
    requires b == [] || !IsWord(b[0])
    ensures RemoveHashtags(a + ws + ['#'] + w + b) == RemoveHashtags(a) + RemoveHashtags(b)
  {
    var t := ws + ['#'] + w + b;
    ConcatAssoc5(a, ws, ['#'], w, b);
    RemoveHashtagsAppend(a, t);
    HashtagAtFront(ws, w, b);
    ConcatSlices(ws + ['#'] + w, b);
  }

  /** The match at the start of `ws#w…` is exactly the whitespace, the `#` and the word. */
  lemma HashtagAtFront(ws: string, w: string, b: string)
    requires forall i :: 0 <= i < |ws| ==> IsSpace(ws[i])
    requires |w| > 0 && forall i :: 0 <= i < |w| ==> IsWord(w[i])
    requires b == [] || !IsWord(b[0])
    ensures var t := ws + ['#'] + w + b;
      && !IsWord(t[0])
      && HashtagLength(t) == |ws| + 1 + |w|
      && RemoveHashtags(t) == RemoveHashtags(b)
  {
    var t := ws + ['#'] + w + b;
    SpanExact(t, IsSpace, |ws|);
    assert t[|ws|] == '#';
    ConcatAssoc(ws + ['#'], w, b);
    ConcatSlices(ws + ['#'], w + b);
    SpanExact(w + b, IsWord, |w|);
    assert t[0] == if ws == [] then '#' else ws[0];
    ConcatSlices(ws + ['#'] + w, b);
  }

  /** A `#` not followed by a word character starts no match, even after whitespace. */
  lemma BareHashNoMatch(ws: string, b: string)
    requires forall i :: 0 <= i < |ws| ==> IsSpace(ws[i])
    requires b == [] || !IsWord(b[0])
    ensures HashtagLength(ws + ['#'] + b) == 0
  {
    var t := ws + ['#'] + b;
    assert t[|ws|] == '#';
    SpanExact(t, IsSpace, |ws|);
    assert |ws| + 1 < |t| ==> t[|ws| + 1] == b[0];
  }

  /** So the scan keeps such a `#` and the whitespace in front of it. */
  lemma {:induction false} BareHashAtFront(ws: string, b: string)
    requires forall i :: 0 <= i < |ws| ==> IsSpace(ws[i])
    requires b == [] || !IsWord(b[0])
    ensures RemoveHashtags(ws + ['#'] + b) == ws + ['#'] + RemoveHashtags(b)
    decreases |ws|
  {
    var t := ws + ['#'] + b;
    BareHashNoMatch(ws, b);
    if ws == [] {
      PlainStep(t);
      assert t == ['#'] + b;
      assert t[1..] == b;
    } else {
      calc {
        RemoveHashtags(t);
      ==  { PlainStep(t); }
        [t[0]] + RemoveHashtags(t[1..]);
      ==  { ConsParts(ws, ['#'], b); }
        [ws[0]] + RemoveHashtags(ws[1..] + ['#'] + b);
      ==  { BareHashAtFront(ws[1..], b); }
        [ws[0]] + (ws[1..] + ['#'] + RemoveHashtags(b));
      ==  { ConsRebuild(ws, ['#'], RemoveHashtags(b)); }
        ws + ['#'] + RemoveHashtags(b);
      }
    }
  }

  /** A `#` that no word character follows survives the hashtag replacement, with the whitespace before it. */
  lemma BareHashKept(a: string, ws: string, b: string)
    requires a == [] || !IsSpace(a[|a| - 1])
    requires forall i :: 0 <= i < |ws| ==> IsSpace(ws[i])
    requires b == [] || !IsWord(b[0])
    ensures RemoveHashtags(a + ws + ['#'] + b) == RemoveHashtags(a) + ws + ['#'] + RemoveHashtags(b)
  {
    var t := ws + ['#'] + b;
    ConcatAssoc(a, ws + ['#'], b);
    ConcatAssoc(a, ws, ['#']);
    assert t[0] == if ws == [] then '#' else ws[0];
    RemoveHashtagsAppend(a, t);
    BareHashAtFront(ws, b);
    ConcatAssoc(RemoveHashtags(a), ws + ['#'], RemoveHashtags(b));
    ConcatAssoc(RemoveHashtags(a), ws, ['#']);
  }

  // ---------------------------------------------------------------------------
  // Cleaning

  /** The final verification of lines 68-69 accepts every clean tweet. */
  lemma CleanHasNoResidue(t: string)
    requires IsCleanTweet(t)
    ensures !HasResidue(t)
  {
    forall i | 0 <= i < |t|
      ensures t[i] != '#' && IsAllowed(t[i])
    {
      assert IsTweetChar(t[i]);
    }
  }

  /** Cleaning twice is cleaning once. */
  lemma SanitizeIdempotent(s: string)
    ensures Sanitize(Sanitize(s)) == Sanitize(s)
  {
    SanitizeIsClean(s);
    SanitizeFixesClean(Sanitize(s));
  }

  /** Once the hashtags are gone from a string left clean, the later steps change nothing. */
  lemma SanitizeAfterHashtags(s: string)
    requires IsCleanTweet(RemoveHashtags(s))
    ensures Sanitize(s) == RemoveHashtags(s)
  {
    var h := RemoveHashtags(s);
    SanitizeFixesClean(h);
    assert '#' !in h by {
      CleanHasNoResidue(h);
    }
    RemoveHashtagsNoHash(h);
  }

  /** A line `<digits>.<spaces><t>` is numbered, and stripping its marker leaves exactly `t`. */
  lemma StripMarkerExact(d: string, ws: string, t: string)
    requires |d| > 0 && forall i :: 0 <= i < |d| ==> IsDigit(d[i])
    requires forall i :: 0 <= i < |ws| ==> IsSpace(ws[i])
    requires t == [] || !IsSpace(t[0])
    ensures var line := d + ['.'] + ws + t;
      IsNumbered(line) && StripMarker(line) == t
  {
    var line := d + ['.'] + ws + t;
    SpanExact(line, IsDigit, |d|);
    var m := |d| + 1;
    assert MarkerLength(line) == m;
    assert line[m..] == ws + t;
    SpanExact(ws + t, IsSpace, |ws|);
    assert line[m + |ws|..] == t;
    TrimKeepsPrefix(line, |d|);
    var trimmed := Trim(line);
    assert trimmed[|d|] == '.';
    assert forall i :: 0 <= i < |d| ==> IsDigit(trimmed[i]) by {
      assert trimmed[..|d| + 1] == line[..|d| + 1];
      forall i | 0 <= i < |d|
        ensures IsDigit(trimmed[i])
      {
        assert trimmed[i] == trimmed[..|d| + 1][i] == line[i];
      }
    }
    assert StartsWithNumber(trimmed);
    MarkerLengthMatches(trimmed);
  }

  /** A numbered line whose text after the marker is already clean yields exactly that text. */
  lemma NumberedLineCleanedExactly(d: string, ws: string, t: string)
    requires |d| > 0 && forall i :: 0 <= i < |d| ==> IsDigit(d[i])
    requires forall i :: 0 <= i < |ws| ==> IsSpace(ws[i])
    requires IsCleanTweet(t)
    ensures var line := d + ['.'] + ws + t;
      IsNumbered(line) && CleanTweet(line) == t
  {
    assert t != [] ==> IsTweetChar(t[0]);
    StripMarkerExact(d, ws, t);
    SanitizeFixesClean(t);
  }

  /**
   * The marker is only stripped at the very start of the untrimmed line: an
   * indented item keeps its number, and only the indentation goes.
   */
  lemma IndentedLineKeepsNumber(ws: string, t: string)
    requires |ws| > 0 && forall i :: 0 <= i < |ws| ==> IsSpace(ws[i])
    requires IsCleanTweet(t) && t != []
    ensures StartsWithNumber(t) ==> IsNumbered(ws + t)
    ensures StripMarker(ws + t) == ws + t
    ensures CleanTweet(ws + t) == t
  {
    IndentedFilter(ws, t);
    IndentedNotStripped(ws, t);
    SanitizeIndented(ws, t);
  }

  /** The filter looks past the indentation. */
  lemma IndentedFilter(ws: string, t: string)
    requires forall i :: 0 <= i < |ws| ==> IsSpace(ws[i])
    requires t != [] && !IsSpace(t[0]) && !IsSpace(t[|t| - 1])
    ensures IsNumbered(ws + t) <==> StartsWithNumber(t)
  {
    TrimAfterSpaces(ws, t);
    MarkerLengthMatches(t);
  }

  /** The marker replacement does not: an indented line has no marker at its very start. */
  lemma IndentedNotStripped(ws: string, t: string)
    requires |ws| > 0 && IsSpace(ws[0])
    ensures StripMarker(ws + t) == ws + t
  {
    assert (ws + t)[0] == ws[0];
  }

  /** Indentation in front of a clean tweet collapses to one space, which the trim removes. */
  lemma SanitizeIndented(ws: string, t: string)
    requires |ws| > 0 && forall i :: 0 <= i < |ws| ==> IsSpace(ws[i])
    requires IsCleanTweet(t) && t != []
    ensures Sanitize(ws + t) == t
  {
    IndentedAllowed(ws, t);
    SanitizeAllowed(ws + t);
    assert IsTweetChar(t[0]) && IsTweetChar(t[|t| - 1]);
    CollapseIndented(ws, t);
    TrimAfterSpaces([' '], t);
  }

  /** Whitespace in front of tweet characters passes both character filters. */
  lemma IndentedAllowed(ws: string, t: string)
    requires forall i :: 0 <= i < |ws| ==> IsSpace(ws[i])
    requires forall i :: 0 <= i < |t| ==> IsTweetChar(t[i])
    ensures forall i :: 0 <= i < |ws + t| ==> IsAllowed((ws + t)[i]) && NotHashSign((ws + t)[i])
  {
    forall i | 0 <= i < |ws + t|
      ensures IsAllowed((ws + t)[i]) && NotHashSign((ws + t)[i])
    {
      if i >= |ws| {
        assert (ws + t)[i] == t[i - |ws|];
      }
    }
  }

  /** A whitespace run in front of single-spaced text becomes one space. */
  lemma CollapseIndented(ws: string, t: string)
    requires |ws| > 0 && forall i :: 0 <= i < |ws| ==> IsSpace(ws[i])
    requires SingleSpaced(t) && (t == [] || !IsSpace(t[0]))
    ensures CollapseSpaces(ws + t) == [' '] + t
  {
    var s := ws + t;
    SpanExact(s, IsSpace, |ws|);
    ConcatSlices(ws, t);
    CollapseSingleSpaced(t);
  }

  // ---------------------------------------------------------------------------
  // The outcome

  /**
   * The final verification never fires: the text either yields no numbered
   * line, or every numbered line becomes one tweet.
   */
  lemma ProcessResponseOutcome(responseText: string)
    ensures var numbered := NumberedLines(Split(responseText, '\n'));
      ProcessResponse(responseText) ==
        if numbered == [] then Failure(NoTweetsError) else Success(CleanAll(numbered))
  {
    var tweets := CleanAll(NumberedLines(Split(responseText, '\n')));
    forall t | t in tweets
      ensures !HasResidue(t)
    {
      var i :| 0 <= i < |tweets| && tweets[i] == t;
      SanitizeIsClean(StripMarker(NumberedLines(Split(responseText, '\n'))[i]));
      CleanHasNoResidue(tweets[i]);
    }
  }

  /** In particular the residue error of line 74 is unreachable. */
  lemma ResidueCheckUnreachable(responseText: string)
    ensures ProcessResponse(responseText) != Failure(ResidueError)
  {
    ProcessResponseOutcome(responseText);
    assert ResidueError[0] == 'T' != NoTweetsError[0];
  }

  /** `remixContent` returns tweets exactly when the payload has text with a numbered line. */
  lemma RemixSucceedsIff(payload: Payload)
    ensures RemixContent(payload).Success? <==>
      && payload.Text? && payload.text != []
      && exists line :: line in Split(payload.text, '\n') && IsNumbered(line)
  {
    if payload.Text? && payload.text != [] {
      ProcessResponseOutcome(payload.text);
      NumberedLinesMembers(Split(payload.text, '\n'));
      var numbered := NumberedLines(Split(payload.text, '\n'));
      if numbered != [] {
        assert numbered[0] in numbered;
      }
    }
  }

  /**
   * On success there is one tweet per numbered line, in the order of the
   * lines, and every tweet is clean and passes the final verification.
   */
  lemma RemixTweets(payload: Payload)
    requires RemixContent(payload).Success?
    ensures payload.Text?
    ensures var tweets := RemixContent(payload).value;
      var numbered := NumberedLines(Split(payload.text, '\n'));
      && |tweets| == |numbered| > 0
      && forall i :: 0 <= i < |tweets| ==>
        tweets[i] == CleanTweet(numbered[i]) && IsCleanTweet(tweets[i]) && !HasResidue(tweets[i])
  {
    ProcessResponseOutcome(payload.text);
    var tweets := RemixContent(payload).value;
    forall i | 0 <= i < |tweets|
      ensures IsCleanTweet(tweets[i]) && !HasResidue(tweets[i])
    {
      SanitizeIsClean(StripMarker(NumberedLines(Split(payload.text, '\n'))[i]));
      CleanHasNoResidue(tweets[i]);
    }
  }

  /** The missing-text message does not mention authentication, so it only gets the prefix. */
  lemma InvalidResponsePrefixed()
    ensures RewriteError(InvalidResponseError) == FailurePrefix + InvalidResponseError
  {
    MissingCharNotContained(InvalidResponseError, "authentication", 'u');
  }

  /** Nor does the no-tweets message. */
  lemma NoTweetsPrefixed()
    ensures RewriteError(NoTweetsError) == FailurePrefix + NoTweetsError
  {
    MissingCharNotContained(NoTweetsError, "authentication", 'u');
  }

  /** Text without a numbered line is reported as "no tweets", under the catch block's prefix. */
  lemma RemixNoNumberedLine(responseText: string)
    requires responseText != []
    requires forall line :: line in Split(responseText, '\n') ==> !IsNumbered(line)
    ensures RemixContent(Text(responseText)) == Failure(FailurePrefix + NoTweetsError)
  {
    NumberedLinesNone(Split(responseText, '\n'));
    ProcessResponseOutcome(responseText);
    NoTweetsPrefixed();
  }

  /** A payload without text, or with empty text, fails the guard of line 30. */
  lemma RemixMissingText()
    ensures RemixContent(Missing) == Failure(FailurePrefix + InvalidResponseError)
    ensures RemixContent(Text([])) == Failure(FailurePrefix + InvalidResponseError)
  {
    InvalidResponsePrefixed();
  }

  /**
   * Every failure the function raises itself reaches the caller as "Failed to
   * generate tweets: " followed by either the missing-text or the no-tweets
   * message; only an exception from the call itself can produce anything else.
   */
  lemma RemixOwnFailures(payload: Payload)
    requires !payload.Raised?
    requires RemixContent(payload).Failure?
    ensures RemixContent(payload).error in {FailurePrefix + InvalidResponseError, FailurePrefix + NoTweetsError}
  {
    InvalidResponsePrefixed();
    NoTweetsPrefixed();
    if payload.Text? && payload.text != [] {
      ProcessResponseOutcome(payload.text);
      assert ProcessResponse(payload.text) == Failure(NoTweetsError);
    }
  }

  /**
   * Raw text made of numbered lines `<digits>. <t>` whose texts are already
   * clean comes back as exactly those texts, in order.
   */
  lemma CleanNumberedList(lines: seq<string>, numbers: seq<string>, texts: seq<string>)
    requires |lines| == |numbers| == |texts| > 0
    requires forall i :: 0 <= i < |numbers| ==>
      |numbers[i]| > 0 && forall j :: 0 <= j < |numbers[i]| ==> IsDigit(numbers[i][j])
    requires forall i :: 0 <= i < |texts| ==> IsCleanTweet(texts[i])
    requires forall i :: 0 <= i < |lines| ==> lines[i] == numbers[i] + ['.', ' '] + texts[i]
    ensures ProcessResponse(Join(lines, '\n')) == Success(texts)
  {
    NumberedItems(lines, numbers, texts);
    SplitJoin(lines, '\n');
    NumberedLinesAll(lines);
    ProcessResponseOutcome(Join(lines, '\n'));
    CleanAllExact(lines, texts);
  }

  /** Every item of such a list is numbered, cleans to its text and holds no line break. */
  lemma NumberedItems(lines: seq<string>, numbers: seq<string>, texts: seq<string>)
    requires |lines| == |numbers| == |texts|
    requires forall i :: 0 <= i < |numbers| ==>
      |numbers[i]| > 0 && forall j :: 0 <= j < |numbers[i]| ==> IsDigit(numbers[i][j])
    requires forall i :: 0 <= i < |texts| ==> IsCleanTweet(texts[i])
    requires forall i :: 0 <= i < |lines| ==> lines[i] == numbers[i] + ['.', ' '] + texts[i]
    ensures forall i :: 0 <= i < |lines| ==>
      IsNumbered(lines[i]) && CleanTweet(lines[i]) == texts[i] && '\n' !in lines[i]
  {
    forall i | 0 <= i < |lines|
      ensures IsNumbered(lines[i]) && CleanTweet(lines[i]) == texts[i] && '\n' !in lines[i]
    {
      NumberedItemLine(numbers[i], texts[i]);
      NumberedItemOneLine(numbers[i], texts[i]);
    }
  }

  /** Cleaning each line to a known text gives exactly those texts. */
  lemma CleanAllExact(lines: seq<string>, texts: seq<string>)
    requires |lines| == |texts|
    requires forall i :: 0 <= i < |lines| ==> CleanTweet(lines[i]) == texts[i]
    ensures CleanAll(lines) == texts
  {
  }

  /** One item `<digits>. <t>` of such a list is numbered and cleaned to `t`. */
  lemma NumberedItemLine(number: string, text: string)
    requires |number| > 0 && forall j :: 0 <= j < |number| ==> IsDigit(number[j])
    requires IsCleanTweet(text)
    ensures var line := number + ['.', ' '] + text;
      IsNumbered(line) && CleanTweet(line) == text
  {
    assert number + ['.', ' '] + text == number + ['.'] + [' '] + text;
    NumberedLineCleanedExactly(number, [' '], text);
  }

  /** Nor does such an item hold a line break, so joining the items keeps them apart. */
  lemma NumberedItemOneLine(number: string, text: string)
    requires forall j :: 0 <= j < |number| ==> IsDigit(number[j])
    requires forall j :: 0 <= j < |text| ==> IsTweetChar(text[j])
    ensures '\n' !in number + ['.', ' '] + text
  {
    OutsideClass(number, IsDigit, '\n');
    OutsideClass(text, IsTweetChar, '\n');
  }
}
