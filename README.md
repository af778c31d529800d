# Content remixer: the tweet post-processing of `remixContent`

`remixContent` (in `src/api/remix.js`) asks a language model to turn a text
into a numbered list of tweets. It then turns the model's reply into a list of
clean tweet strings, step by step:

1. split the reply on line breaks;
2. keep the lines whose trimmed form starts with digits and a period;
3. strip a marker at the very start of the untrimmed line (an indented line
   keeps its number);
4. remove hashtags, stray `#` signs and every character outside
   `[\w\s.,!?]`;
5. collapse whitespace runs to one space and trim.

It fails when no numbered line is left, and when a cleaned tweet still holds a
forbidden character. Its `catch` block rewrites every error message. A message
that mentions "authentication" becomes a fixed message. Any other message gets
the prefix "Failed to generate tweets: ".

The model is pure Dafny: datatypes, functions and lemmas.

- `strings.dfy` (module `Strings`) models the JavaScript string built-ins the
  pipeline uses:
  - the `\d`, `\w` and `\s` classes, with `\s` as the full ECMAScript
    whitespace and line-terminator table;
  - greedy runs, `trim`, `split` and `join` on one character, and `includes`.
- `remix.dfy` (module `Remix`) models the pipeline and the outcome mapping.
  Each regular-expression replacement is its own function, and `RemixContent`
  maps a payload to `Success(tweets)` or `Failure(message)`.
- `remix_properties.dfy` (module `RemixProperties`) holds the lemmas about the
  whole outcome.
- `remix_examples.dfy` (module `RemixExamples`) proves the outcome for
  concrete replies.

The generated reply is an input, modelled as a `Payload`:

- `Text(s)`: the first content segment has text `s`;
- `Missing`: that segment has no text;
- `Raised(m)`: an exception with message `m` was thrown before the pipeline
  ran.

Candidates that clean to the empty string are kept: the line `"1."` yields
the tweet `""` (`RemixExamples.EmptyItemKept`).

Rows naming a function give the source it models and the lemma that
specifies it; rows naming a lemma give what its contract states.

## Model

| member | source | states |
|---|---|---|
| Strings.IsSpace | src/api/remix.js:41 | models `\s` and the whitespace `trim` removes: the ECMAScript WhiteSpace and LineTerminator characters; used by every whitespace lemma below |
| Strings.IsDigit | src/api/remix.js:41-45 | models `\d`: the ASCII digits `0`-`9`; used by `Remix.MarkerLengthMatches` and `RemixProperties.StripMarkerExact` |
| Strings.IsWord | src/api/remix.js:48 | models `\w`: ASCII letters, digits and `_`; used by `Remix.SanitizeIsClean` |
| Strings.Split | src/api/remix.js:38 | models `split('\n')`; specified by `Strings.JoinSplit`, `Strings.SplitJoin` and `Strings.SplitPiecesFree` |
| Strings.JoinSplit | src/api/remix.js:38 | splitting on `'\n'` loses nothing: joining the pieces back with `'\n'` gives the reply text |
| Strings.SplitJoin | src/api/remix.js:38 | pieces free of `'\n'`, joined with `'\n'`, split back into exactly those pieces |
| Strings.SplitPiecesFree | src/api/remix.js:38 | no piece of the split contains the separator |
| Strings.Trim | src/api/remix.js:41 | models `trim()`; specified by `Strings.TrimSpec` and `Strings.TrimAfterSpaces` |
| Strings.TrimSpec | src/api/remix.js:41 | `trim` returns the slice of `s` that has only whitespace before and after it in `s`; that slice is empty exactly when `s` is all whitespace, and otherwise neither starts nor ends with whitespace |
| Strings.TrimAfterSpaces | src/api/remix.js:41 | `trim` of whitespace followed by text with non-space ends is that text |
| Strings.Contains | src/api/remix.js:81 | models `includes`: the needle occurs as a contiguous substring; specified by `Strings.ContainsIffOccurs`, `Strings.ContainsOccurs`, `Strings.ContainsPlaced` and `Strings.MissingCharNotContained` |
| Strings.ContainsPlaced | src/api/remix.js:81 | `includes` finds the needle wherever it is placed in the message |
| Strings.MissingCharNotContained | src/api/remix.js:81 | `includes` is false when a character of the needle does not occur in the message |
| Strings.ContainsOccurs | src/api/remix.js:81 | when `includes` holds, the needle occurs in the message at the position the lemma returns |
| Strings.ContainsIffOccurs | src/api/remix.js:81 | `includes` holds exactly when the needle occurs at some position of the message |
| Remix.MarkerLength | src/api/remix.js:41-45 | models the match of `/^\d+\./`; specified by `Remix.MarkerLengthMatches` |
| Remix.IsNumbered | src/api/remix.js:41 | models the filter's test `line.trim().match(/^\d+\./)`; specified by `Remix.MarkerLengthMatches` and `RemixProperties.IndentedFilter` |
| Remix.MarkerLengthMatches | src/api/remix.js:41 | the computed match of `/^\d+\./` is non-empty exactly when the string starts with one or more digits and a period, and it spans those digits and that period |
| Remix.NumberedLines | src/api/remix.js:41 | models the `filter`; specified by `Remix.NumberedLinesMembers`, `RemixProperties.NumberedLinesAppend`, `RemixProperties.NumberedLinesAll` and `RemixProperties.NumberedLinesNone` |
| Remix.NumberedLinesMembers | src/api/remix.js:41 | the filter keeps exactly the lines whose trimmed form starts with a number marker |
| RemixProperties.NumberedLinesAppend | src/api/remix.js:41 | the filter works line by line, so it keeps the order of the lines it keeps |
| RemixProperties.NumberedLinesAll | src/api/remix.js:41 | when every line is numbered, the filter drops none |
| RemixProperties.NumberedLinesNone | src/api/remix.js:41 | when no line is numbered, the filter keeps nothing |
| RemixProperties.JoinedNumberedLinesKept | src/api/remix.js:38-41 | numbered lines joined with line breaks all come back, in order, from the split and the filter |
| RemixProperties.IndentedFilter | src/api/remix.js:41 | the filter looks past indentation: an indented line passes exactly when its text starts with a number marker |
| Remix.StripMarker | src/api/remix.js:45 | models `replace(/^\d+\.\s*/, '')`; specified by `Remix.StripMarkerSpec` and `RemixProperties.StripMarkerExact` |
| Remix.StripMarkerSpec | src/api/remix.js:45 | a line without a leading marker is unchanged; otherwise what goes is a prefix made only of digits, periods and whitespace, and the rest does not start with whitespace; the exact cut is `RemixProperties.StripMarkerExact` |
| Remix.StripMarkerCut | src/api/remix.js:45 | when the line starts with a marker, what remains is a suffix of the line, at least two characters shorter, that does not start with whitespace, and every removed character is a digit, a period or whitespace; the exact cut is `RemixProperties.StripMarkerExact` |
| RemixProperties.StripMarkerExact | src/api/remix.js:41-45 | a line `<digits>.<spaces><t>` passes the filter, and stripping its marker leaves exactly `t` |
| RemixProperties.IndentedNotStripped | src/api/remix.js:45 | the marker replacement is anchored at the untrimmed start, so an indented line keeps its number |
| RemixProperties.IndentedLineKeepsNumber | src/api/remix.js:41-57 | an indented clean numbered item passes the filter but comes out with its number and without its indentation |
| Remix.HashtagLength | src/api/remix.js:48 | models the `/\s*#\w+/` match at one position of the scan (0 when none starts there); specified by `RemixProperties.HashtagAtFront` and `RemixProperties.BareHashNoMatch` |
| Remix.RemoveHashtags | src/api/remix.js:48 | models `replace(/\s*#\w+/g, '')` as a left-to-right scan; specified by `Remix.RemoveHashtagsNoHash`, `RemixProperties.RemoveHashtagsAppend`, `RemixProperties.HashtagTokenRemoved` and `RemixProperties.BareHashKept` |
| Remix.RemoveHashtagsNoHash | src/api/remix.js:48 | text without `#` has no hashtag match, so the replacement leaves it unchanged |
| RemixProperties.RemoveHashtagsAppend | src/api/remix.js:48 | when `a` ends in a non-space and `t` does not start with a word character, no match straddles the boundary and the replacement works on each part separately |
| RemixProperties.HashtagTokenRemoved | src/api/remix.js:48 | a `#word` token, with the whitespace before it, is removed as a whole between text that cannot extend the match |
| RemixProperties.HashtagAtFront | src/api/remix.js:48 | the match at the start of `<spaces>#<word>…` is exactly the spaces, the `#` and the word |
| RemixProperties.BareHashNoMatch | src/api/remix.js:48 | a `#` that no word character follows starts no match, whatever whitespace precedes it |
| RemixProperties.BareHashAtFront | src/api/remix.js:48 | such a `#`, with the whitespace before it, is kept at the front of the result |
| RemixProperties.BareHashKept | src/api/remix.js:48 | between text that cannot extend a match, a `#` that no word character follows survives the replacement with the whitespace before it |
| Remix.IsAllowed | src/api/remix.js:54 | models the class `[\w\s.,!?]` of lines 54 and 69; used by `Remix.SanitizeIsClean` and `RemixProperties.CleanHasNoResidue` |
| Remix.Retain | src/api/remix.js:51-54 | models `replace(/#/g, '')` and `replace(/[^\w\s.,!?]/g, '')`; specified by `Remix.RetainAppend`, `Remix.RetainOne` and `Remix.RetainMembers` |
| Remix.RetainAppend | src/api/remix.js:51-54 | the replace works on each part of a concatenation separately and concatenates the results, so it keeps the other characters in order and with their repetitions |
| Remix.RetainOne | src/api/remix.js:51-54 | a single character is kept exactly when it is outside the removed class |
| Remix.RetainMembers | src/api/remix.js:51-54 | a global replace of a one-character class keeps exactly the characters outside that class |
| Remix.RetainNone | src/api/remix.js:51-54 | text made only of characters of the removed class is removed entirely |
| Remix.RetainAll | src/api/remix.js:51-54 | the replace removes nothing from text with no character of the class |
| Remix.CollapseSpaces | src/api/remix.js:57 | models `replace(/\s+/g, ' ')`; specified by `Remix.CollapseRun`, `Remix.CollapseRunBetween`, `Remix.CollapseSpacesAppend`, `Remix.CollapseKeepsText` and `Remix.CollapseSpacesSpec` |
| Remix.CollapseRun | src/api/remix.js:57 | a whitespace run on its own becomes one space |
| Remix.CollapseSpacesAppend | src/api/remix.js:57 | cut before a non-whitespace character, the text collapses part by part |
| Remix.CollapseTrailingRun | src/api/remix.js:57 | a whitespace run at the end of text that does not itself end in whitespace becomes one space |
| Remix.CollapseRunBetween | src/api/remix.js:57 | a whitespace run between two texts becomes exactly one space, and the texts on either side collapse on their own |
| Remix.CollapseKeepsText | src/api/remix.js:57 | the collapse keeps every non-whitespace character, in order and with its repetitions |
| Remix.CollapseSpacesSpec | src/api/remix.js:57 | `/\s+/g → ' '` leaves single-spaced text, starts with whitespace exactly when the input does, and adds nothing but spaces and the input's non-whitespace characters |
| Remix.CollapseSingleSpaced | src/api/remix.js:57 | single-spaced text has no run to collapse |
| RemixProperties.CollapseIndented | src/api/remix.js:57 | a whitespace run in front of single-spaced text becomes one space |
| Remix.Sanitize | src/api/remix.js:48-57 | models the chain of replacements and the final `trim`; specified by `Remix.SanitizeIsClean`, `Remix.SanitizeFixesClean` and `RemixProperties.SanitizeIdempotent` |
| Remix.CleanTweet | src/api/remix.js:44-61 | models the `map` callback: the marker strip, then the cleaning chain; specified by `RemixProperties.NumberedLineCleanedExactly`, `RemixProperties.IndentedLineKeepsNumber` and, through `Remix.Sanitize`, `Remix.SanitizeIsClean` |
| Remix.SanitizeIsClean | src/api/remix.js:48-57 | whatever the input, cleaning yields a tweet made only of `\w`, `.`, `,`, `!`, `?` and single inner spaces, with no `#` and no space at either end |
| Remix.SanitizeFixesClean | src/api/remix.js:48-57 | a clean tweet passes through every replacement unchanged |
| RemixProperties.SanitizeIdempotent | src/api/remix.js:48-57 | cleaning twice is cleaning once |
| RemixProperties.SanitizeAfterHashtags | src/api/remix.js:48-57 | once hashtag removal leaves a clean string, the later steps change nothing |
| RemixProperties.SanitizeIndented | src/api/remix.js:48-57 | indentation in front of a clean tweet is removed by the collapse and the trim |
| RemixProperties.NumberedLineCleanedExactly | src/api/remix.js:41-61 | a numbered line whose text after the marker is already clean yields exactly that text |
| Remix.CleanAll | src/api/remix.js:44-61 | the map gives one tweet per kept line, at the same position, empty results included |
| RemixProperties.CleanAllExact | src/api/remix.js:44-61 | when each line cleans to a known text, the map gives exactly those texts in order |
| Remix.HasResidue | src/api/remix.js:68-70 | models the final verification's test; specified by `RemixProperties.CleanHasNoResidue` |
| RemixProperties.CleanHasNoResidue | src/api/remix.js:67-70 | the final verification accepts every clean tweet |
| Remix.ProcessResponse | src/api/remix.js:38-78 | models the `try` block from the split on; specified by `RemixProperties.ProcessResponseOutcome` and `RemixProperties.ResidueCheckUnreachable` |
| RemixProperties.ProcessResponseOutcome | src/api/remix.js:38-78 | the `try` block fails with "No tweets were generated" exactly when no line is numbered, and otherwise returns the cleaned numbered lines |
| RemixProperties.ResidueCheckUnreachable | src/api/remix.js:67-75 | the "still contain hashtags or special characters" error can never be thrown |
| RemixProperties.CleanNumberedList | src/api/remix.js:38-78 | a reply made of `<digits>. <clean text>` lines yields exactly those texts, in order |
| Remix.RewriteError | src/api/remix.js:79-85 | models the `catch` block's rewriting; specified by `Remix.RewriteErrorSpec` |
| Remix.RewriteErrorSpec | src/api/remix.js:79-85 | a message containing "authentication", and only such a message, becomes the fixed authentication message; any other message survives intact behind the prefix |
| RemixProperties.InvalidResponsePrefixed | src/api/remix.js:30-32 | the missing-text error only gets the prefix |
| RemixProperties.NoTweetsPrefixed | src/api/remix.js:63-65 | the no-tweets error only gets the prefix |
| Remix.RemixContent | src/api/remix.js:28-85 | models `remixContent` from the generation call's outcome on; specified by `RemixProperties.RemixSucceedsIff`, `RemixProperties.RemixTweets`, `RemixProperties.RemixOwnFailures` and `RemixProperties.RemixMissingText` |
| RemixProperties.RemixSucceedsIff | src/api/remix.js:28-85 | `remixContent` returns tweets exactly when the payload has non-empty text with at least one numbered line |
| RemixProperties.RemixTweets | src/api/remix.js:28-85 | on success there is one tweet per numbered line, in order, each clean and passing the final verification |
| RemixProperties.RemixNoNumberedLine | src/api/remix.js:41-84 | text without a numbered line fails with "Failed to generate tweets: No tweets were generated" |
| RemixProperties.RemixMissingText | src/api/remix.js:30-32 | a payload with no text, or with empty text, fails with "Failed to generate tweets: Invalid response from Anthropic API" |
| RemixProperties.RemixOwnFailures | src/api/remix.js:30-85 | a failure not raised by the generation call is one of the two prefixed messages |
| RemixExamples.HashtagExample | src/api/remix.js:48-57 | `"Hello world #fun!"` cleans to `"Hello world!"` |
| RemixExamples.TwoLineExample | src/api/remix.js:38-78 | the reply `"1. Hello world #fun!\n2. Great day."` gives `["Hello world!", "Great day."]` |
| RemixExamples.EmptyItemKept | src/api/remix.js:41-65 | the reply `"1."` gives the one empty tweet `""`; it is not dropped |
| RemixExamples.IndentedExample | src/api/remix.js:41-57 | the reply `"  3. Hi"` gives `["3. Hi"]` |

## Left out

- The model call and its prompt (lines 15-26) are not modelled. Their outcome is the `Payload` input: reply text, no text, or an exception with its message.
- Loading `.env` and the missing-key check (lines 1-13) run when the module loads and are not modelled.
- The `console.log` and `console.error` calls are not modelled. They do not change the result.
- The log call at line 28 reads `message.content[0].text` before the guard at line 30, so a payload with no content segment throws a `TypeError` there. Its message is modelled only as some `Raised(m)`.
- A rejected promise is modelled as a `Failure` value.
- JavaScript strings are UTF-16 code units; the model uses Dafny characters. They agree on the Basic Multilingual Plane outside the surrogate range U+D800-U+DFFF. A Dafny character cannot be a lone surrogate, but a JavaScript string can hold one. An astral character is one character here and two code units there. The `[^\w\s.,!?]` replacement removes lone surrogates, surrogate pairs and astral characters alike, so the cleaned tweets agree.
- The prompt asks for ten tweets of under 280 characters. The code checks neither count nor length, so the model does not either.
- The HTTP server, the user interface and the database client of the repository are not part of this model.
