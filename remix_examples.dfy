/**
 * The outcome proved for concrete replies: the two-line example with a
 * hashtag, a bare number, and an indented item.
 */
module RemixExamples {
  import opened Strings
  import opened Remix
  import opened RemixProperties

  /** The hashtag token and the space before it go; the `!` stays. */
  lemma HashtagExample()
    ensures Sanitize("Hello world #fun!") == "Hello world!"
  {
    calc {
      RemoveHashtags("Hello world #fun!");
    ==  { assert "Hello world #fun!" == "Hello world" + " " + ['#'] + "fun" + "!";
          HashtagTokenRemoved("Hello world", " ", "fun", "!"); }
      RemoveHashtags("Hello world") + RemoveHashtags("!");
    ==  { RemoveHashtagsNoHash("Hello world");
          RemoveHashtagsNoHash("!"); }
      "Hello world" + "!";
    }
    HelloWorldIsClean();
    SanitizeAfterHashtags("Hello world #fun!");
  }

  /** The text the example's hashtag removal leaves is already clean. */
  lemma HelloWorldIsClean()
    ensures IsCleanTweet("Hello world" + "!")
  {
  }

  /** Two numbered lines, the first with a hashtag: both come back cleaned, in order. */
  lemma TwoLineExample()
    ensures RemixContent(Text("1. Hello world #fun!" + "\n" + "2. Great day."))
      == Success(["Hello world!", "Great day."])
  {
    var l1, l2 := "1. Hello world #fun!", "2. Great day.";
    var text := l1 + "\n" + l2;
    TwoLineNumbered();
    ProcessResponseOutcome(text);
    TwoLineCleaned();
  }

  /** Both lines of the two-line example pass the filter. */
  lemma TwoLineNumbered()
    ensures NumberedLines(Split("1. Hello world #fun!" + "\n" + "2. Great day.", '\n'))
      == ["1. Hello world #fun!", "2. Great day."]
  {
    TwoLineSplit();
    TwoLinesKept();
  }

  /** The filter keeps both lines. */
  lemma TwoLinesKept()
    ensures NumberedLines(["1. Hello world #fun!", "2. Great day."]) == ["1. Hello world #fun!", "2. Great day."]
  {
    FirstLineStripped();
    SecondLineCleaned();
    PairKept("1. Hello world #fun!", "2. Great day.");
  }

  // Stated on variables: the filter's precondition, instantiated at these
  // literals directly, makes the verifier unfold them.
  lemma PairKept(a: string, b: string)
    requires IsNumbered(a) && IsNumbered(b)
    ensures NumberedLines([a, b]) == [a, b]
  {
    NumberedLinesAll([a, b]);
  }

  /** The two-line example splits into its two lines. */
  lemma TwoLineSplit()
    ensures Split("1. Hello world #fun!" + "\n" + "2. Great day.", '\n')
      == ["1. Hello world #fun!", "2. Great day."]
  {
    var l1, l2 := "1. Hello world #fun!", "2. Great day.";
    assert '\n' !in l1 && '\n' !in l2;
    SplitJoin([l1, l2], '\n');
    assert Join([l1, l2], '\n') == l1 + "\n" + l2;
  }

  /** Each line of the two-line example gives its tweet. */
  lemma TwoLineCleaned()
    ensures CleanAll(["1. Hello world #fun!", "2. Great day."]) == ["Hello world!", "Great day."]
  {
    FirstLineCleaned();
    SecondLineCleaned();
  }

  /** The first line passes the filter and loses its marker. */
  lemma FirstLineStripped()
    ensures IsNumbered("1. Hello world #fun!")
    ensures StripMarker("1. Hello world #fun!") == "Hello world #fun!"
  {
    assert "1. Hello world #fun!" == "1" + ['.'] + " " + "Hello world #fun!";
    StripMarkerExact("1", " ", "Hello world #fun!");
  }

  /** The first line: its marker goes, then its hashtag. */
  lemma FirstLineCleaned()
    ensures CleanTweet("1. Hello world #fun!") == "Hello world!"
  {
    FirstLineStripped();
    HashtagExample();
  }

  /** The second line: only its marker goes. */
  lemma SecondLineCleaned()
    ensures IsNumbered("2. Great day.") && CleanTweet("2. Great day.") == "Great day."
  {
    assert "2. Great day." == "2" + ['.'] + " " + "Great day.";
    GreatDayIsClean();
    NumberedLineCleanedExactly("2", " ", "Great day.");
  }

  /** The text of the second line after its marker is already clean. */
  lemma GreatDayIsClean()
    ensures IsCleanTweet("Great day.")
  {
  }

  /** A number with nothing after it is kept as an empty tweet, not dropped. */
  lemma EmptyItemKept()
    ensures RemixContent(Text("1.")) == Success([""])
  {
    assert '\n' !in "1.";
    SplitWithoutSeparator("1.", '\n');
    BareNumberCleaned();
    NumberedLinesAll(["1."]);
    ProcessResponseOutcome("1.");
    assert CleanAll(["1."]) == [CleanTweet("1.")];
  }

  /** The bare number passes the filter and cleans to the empty string. */
  lemma BareNumberCleaned()
    ensures IsNumbered("1.") && CleanTweet("1.") == ""
  {
    assert "1." == "1" + ['.'] + [] + [];
    NumberedLineCleanedExactly("1", [], []);
  }

  /** An indented item passes the filter but keeps its number. */
  lemma IndentedExample()
    ensures RemixContent(Text("  3. Hi")) == Success(["3. Hi"])
  {
    IndentedNumbered();
    ProcessResponseOutcome("  3. Hi");
    IndentedItemCleaned();
    assert CleanAll(["  3. Hi"]) == [CleanTweet("  3. Hi")];
  }

  /** The indented item is the one line of its text, and that line passes the filter. */
  lemma IndentedNumbered()
    ensures NumberedLines(Split("  3. Hi", '\n')) == ["  3. Hi"]
  {
    assert '\n' !in "  3. Hi";
    SplitWithoutSeparator("  3. Hi", '\n');
    IndentedItemCleaned();
    NumberedLinesAll(["  3. Hi"]);
  }

  /** Only the indentation goes from the indented item. */
  lemma IndentedItemCleaned()
    ensures IsNumbered("  3. Hi") && CleanTweet("  3. Hi") == "3. Hi"
  {
    assert "  3. Hi" == "  " + "3. Hi";
    NumberedHi();
    IndentedLineKeepsNumber("  ", "3. Hi");
  }

  /** The item after the indentation starts with a number and is already clean. */
  lemma NumberedHi()
    ensures StartsWithNumber("3. Hi") && IsCleanTweet("3. Hi")
  {
    assert "3. Hi"[1] == '.' && IsDigit("3. Hi"[0]);
  }
}
