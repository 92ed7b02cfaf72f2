# Social-media sentiment preparation, modelled in Dafny

The script reads a table of social-media posts and adds columns to it. It
cleans every post's `Text` (`clean_text`: it removes URLs, `@mentions` and
`#hashtags`, then punctuation, then lowercases). It labels each cleaned text
Positive, Negative or Neutral by the sign of a polarity score
(`get_sentiment`). It also builds a table of the 20 most common tokens of the
optional `Hashtags` column. This project models those three steps and the
per-row column maps that apply them, and proves what they guarantee.

Modules:

- `Chars` (`chars.dfy`): the ASCII character classes the two regular
  expressions and `str.split()` use, ASCII `str.lower()`, and the greedy
  longest-run scan behind `\S+` and `\w+`.
- `TextCleaning` (`text_cleaning.dfy`): `clean_text` as three passes.
  `StripMatches` is the left-to-right, leftmost-alternative, greedy scan of
  `re.sub(r"http\S+|@\w+|#\w+", "", ·)`. `DropPunctuation` is
  `re.sub(r"[^A-Za-z0-9 ]+", "", ·)`. `Lower` comes last.
- `CleaningExamples` (`cleaning_examples.dfy`): two concrete texts showing
  that cleaning is not idempotent.
- `Sentiment` (`sentiment.dfy`): the three-way labelling rule on a score.
- `Hashtags` (`hashtags.dfy`): tokenising the `Hashtags` cells, a `Counter`
  (one entry per distinct token in first-seen order), and `most_common(20)`.
  `most_common` is modelled as a stable sort by descending count, so ties
  keep first-seen order.
- `Pipeline` (`pipeline.dfy`): the two row-wise column maps and the whole
  flow over one dataset, with the polarity scorer as a function parameter.
- `Options` (`options.dfy`): `Option`, for missing cells and an absent
  column.
- `HashtagExamples` (`hashtag_examples.dfy`): one cell tokenised, showing
  that tokens keep their leading `#`.

Two points where the script's behaviour differs from how it is easily
described:

- `clean_text` is not idempotent. The URL pattern is case sensitive and runs
  before lowercasing, so `HTTPS` cleans to `https`, and cleaning again gives
  the empty text (`CleaningExamples.CleanTextNotIdempotent`). In the same
  way, `ht!tpx` cleans to `httpx`, which cleans to the empty text
  (`CleaningExamples.CleanTextNotIdempotentBroken`).
  `TextCleaning.CleanTwice` states exactly when a second cleaning changes
  nothing.
- Removing a match leaves the spaces around it, and every space of the input
  survives (`TextCleaning.CleanText`). For example,
  `Check this out! http://x.co @joe #great #great` cleans to `check this out`
  followed by four spaces, not to `check this out`.

## Model

| member | source | states |
|---|---|---|
| `Chars.IsSpace` | code.py:15 | ASCII `\s`, the class `str.split()` also splits on. The space is the only whitespace character that pass 2's class `[A-Za-z0-9 ]` keeps. |
| `Chars.IsWord` | code.py:15 | ASCII `\w`. A word character is never whitespace, and it is kept by pass 2 unless it is `_`. |
| `Chars.Lower` | code.py:17 | Lowercasing keeps the length. It maps each character on its own (A-Z to a-z, all else unchanged). It leaves no upper-case letter, and every character that is not a letter occurs as often as before. |
| `Chars.Span` | code.py:15 | A greedy `p+` run at the front of a text: every character it covers satisfies `p`, and the character after it, if any, does not. |
| `TextCleaning.MatchLen` | code.py:15 | A match of the pattern is at least two characters long and contains no space. A URL match is `http` followed by non-whitespace characters only, at least five characters in all, and it ends at the first whitespace or at the end of the text. A mention or hashtag match is `@` or `#` followed by word characters only, and it ends at the first non-word character or at the end. |
| `TextCleaning.StripMatches` | code.py:15 | Removing the matches never lengthens the text, and the result is a sub-multiset of the input. Every space of the input is kept. |
| `TextCleaning.StripMatchesKeepsPrefix` | code.py:15 | A prefix none of whose positions starts a match survives pass 1 unchanged, ahead of pass 1 on the rest. |
| `TextCleaning.StripMatchesLeftmost` | code.py:15 | The leftmost match is removed whole and nothing else: after a match-free prefix, a match of exactly the greedy length goes, and the text after it is processed as if on its own. |
| `TextCleaning.StripLeavesNoMatch` | code.py:15 | No URL, mention or hashtag is left after pass 1: removals never join the text around them into a new match. |
| `TextCleaning.StripKeepsFront` | code.py:15 | A character that starts no match in front of a text starts none in front of that text's pass-1 result. |
| `TextCleaning.HeadNonWord` | code.py:15 | After a removal the next remaining character is whitespace or a non-word character. |
| `TextCleaning.UrlThroughStrip` | code.py:15 | `http` followed by non-whitespace after a character in a pass-1 result was already there, at the same place, in the text. |
| `TextCleaning.StripMatchesFixedPoints` | code.py:15 | Pass 1 leaves a text unchanged if and only if no position of it starts a match. Any match makes the text strictly shorter. |
| `TextCleaning.NoMatchTail` | code.py:15 | A text has no match if and only if none starts at its front and its tail has none. |
| `TextCleaning.StripMatchesAppend` | code.py:15 | No match extends across whitespace: for a first part that ends in whitespace, pass 1 on a concatenation is pass 1 on each part, concatenated. |
| `TextCleaning.MatchAtAppend` | code.py:15 | Where the front part ends in whitespace, a match starts at the front of the whole text if and only if it starts at the front of that part, and then it has the same length and ends inside the part. |
| `TextCleaning.DropPunctuation` | code.py:16 | Pass 2 keeps only `[A-Za-z0-9 ]`. Each kept character occurs as often as in the input, and every other character is gone. |
| `TextCleaning.DropPunctuationConcat` | code.py:16 | Pass 2 is a per-character filter: on a concatenation it is the concatenation of the results. |
| `TextCleaning.DropPunctuationFixedPoints` | code.py:16 | Pass 2 leaves a text unchanged if and only if the text is already over `[A-Za-z0-9 ]`. |
| `TextCleaning.CleanText` | code.py:14-17 | The cleaned text uses only `a-z`, `0-9` and the space. It is never longer than the input, and it keeps exactly the input's number of spaces. |
| `TextCleaning.CleanTextFixedPoints` | code.py:14-17 | Cleaning leaves a text unchanged if and only if the text is over `[a-z0-9 ]` and no `http` in it is followed by a non-whitespace character. |
| `TextCleaning.CleanTextKeepsCleanInput` | code.py:14-17 | Lowercase alphanumeric text with spaces and no URL is returned unchanged. |
| `TextCleaning.FixedInputIsClean` | code.py:14-17 | A text that cleaning leaves unchanged is over `[a-z0-9 ]` and contains no URL start. |
| `TextCleaning.CleanTwice` | code.py:14-17 | Cleaning a second time changes nothing if and only if the first result contains no `http` followed by a non-whitespace character. |
| `TextCleaning.SymbolsOnlyCleanToEmpty` | code.py:14-17 | A text with no character of `[A-Za-z0-9 ]` cleans to the empty text. |
| `TextCleaning.UrlCleansAway` | code.py:15 | A text that is one URL with no whitespace after `http` cleans to the empty text. |
| `TextCleaning.StripMatchesPlain` | code.py:15 | A text without `h`, `@` or `#` has nothing for pass 1 to remove. |
| `CleaningExamples.UpperUrlSurvives` | code.py:15-17 | `HTTPS` is not matched by the case-sensitive pattern and cleans to `https`. |
| `CleaningExamples.LowerUrlVanishes` | code.py:15 | `https` is one URL match and cleans to the empty text. |
| `CleaningExamples.CleanTextNotIdempotent` | code.py:14-17 | Cleaning is not idempotent: `HTTPS` cleans to `https`, which cleans to the empty text. |
| `CleaningExamples.BrokenUrlJoins` | code.py:15-17 | `ht!tpx` has no match, and pass 2 joins it into `httpx`. |
| `CleaningExamples.JoinedUrlVanishes` | code.py:15 | `httpx` is one URL match and cleans to the empty text. |
| `CleaningExamples.CleanTextNotIdempotentBroken` | code.py:14-17 | Cleaning is not idempotent: `ht!tpx` cleans to `httpx`, which cleans to the empty text. |
| `Sentiment.Classify` | code.py:24-29 | The label is Positive if and only if the score is above zero, Negative if and only if it is below zero, and Neutral if and only if it is exactly zero. |
| `Sentiment.ClassifyMonotone` | code.py:24-29 | A higher score never gets a lower label. |
| `Sentiment.ClassifyNegate` | code.py:24-29 | Negating the score swaps Positive and Negative and keeps Neutral. |
| `Sentiment.ClassifyIsSign` | code.py:24-29 | The label is the sign of the score. |
| `Hashtags.Split` | code.py:35 | `str.split()` yields only non-empty tokens, made of non-whitespace characters of the input. |
| `Hashtags.SplitWord` | code.py:35 | A run of non-whitespace followed by whitespace or the end is the first token. |
| `Hashtags.SplitJoin` | code.py:35 | Splitting undoes joining non-empty, whitespace-free tokens with single spaces. |
| `Hashtags.SplitAppend` | code.py:35 | Whitespace separates tokens: a text split at any whitespace character gives the tokens of the left side followed by those of the right side. This covers leading, trailing and repeated whitespace. |
| `Hashtags.SplitBlank` | code.py:35 | A text of whitespace only, the empty text included, has no token. |
| `Hashtags.SplitKeepsChars` | code.py:35 | Splitting loses, adds and reorders no character: the tokens put together are the text's non-whitespace characters in order. |
| `Hashtags.CellTokens` | code.py:35 | Every token of a lowercased cell is non-empty and has no whitespace and no upper-case letter. |
| `Hashtags.HashtagTokens` | code.py:35 | `sum(column.dropna()...str.split(), [])`: every token collected from the column is non-empty and has no whitespace and no upper-case letter. |
| `Hashtags.RowTokens` | code.py:35 | One row's tokens: a missing cell is dropped and gives no token (`dropna`). Every token of a present cell is non-empty, whitespace-free and lowercase. |
| `Hashtags.HashtagTokensAppend` | code.py:35 | The column's tokens are the tokens of its rows in row order: tokenising a concatenation of cells gives the concatenated token lists. |
| `Hashtags.HashtagTokensSkipsMissing` | code.py:35 | Missing cells contribute no tokens (`dropna`). |
| `HashtagExamples.MixedCellTokens` | code.py:35 | The cell `#AI #ml` yields the tokens `#ai` and `#ml`: lowercased, with the `#` kept. |
| `Hashtags.FirstIndex` | code.py:36 | The position of a token's first occurrence, or the length when it is absent. |
| `Hashtags.Bump` | code.py:36 | One counter update: the token's entry goes up by one and no other entry changes, or a new entry with count one is appended. |
| `Hashtags.Tally` | code.py:36 | `Counter`: one entry per distinct token, no tag twice, each count equal to the token's number of occurrences, every token present, in first-seen order. |
| `Hashtags.BumpTallies` | code.py:36 | Counting one more token keeps the counter exact and in first-seen order. |
| `Hashtags.BumpDistinct` | code.py:36 | A counter update never creates a second entry for a tag. |
| `Hashtags.BumpCounts` | code.py:36 | After an update every entry's count equals its tag's occurrences in the longer token list. |
| `Hashtags.BumpCovers` | code.py:36 | After an update every token seen so far has an entry. |
| `Hashtags.BumpOrder` | code.py:36 | After an update the entries are still in first-seen order. |
| `Hashtags.FirstIndexAppend` | code.py:36 | Appending a token moves no earlier first occurrence, and a new token is first seen at the old length. |
| `Hashtags.InsertByFreq` | code.py:36 | Insertion adds exactly the one entry: same contents plus the new entry, length one more. |
| `Hashtags.InsertNonIncreasing` | code.py:36 | Insertion into a list in descending count order keeps it in descending count order. |
| `Hashtags.SortByFreq` | code.py:36 | The sort is a permutation of its input and leaves counts non-increasing. |
| `Hashtags.InsertInOrder` | code.py:36 | An entry first seen before every entry of an ordered list is inserted in order, ahead of equal counts. |
| `Hashtags.SortInOrder` | code.py:36 | Sorting a first-seen-ordered counter orders it by count descending, ties by first occurrence. |
| `Hashtags.SortRanks` | code.py:36 | The sorted counter has exact counts and is in `most_common` order. |
| `Hashtags.MostCommon` | code.py:36 | `most_common(n)` has min(n, number of distinct tokens) rows and no tag twice. Each row's count is its tag's number of occurrences. Rows are in descending count order, ties in first-seen order. A token left out happens only when n rows were kept, and it ranks after the last row. |
| `Hashtags.MostCommonPrefix` | code.py:36 | Every token missing from the first n sorted entries ranks after the last of them. |
| `Hashtags.OmittedRanksLater` | code.py:36 | An omitted token means the table is full, and its count is at most the last row's count (on a tie it was seen later). |
| `Hashtags.TallySize` | code.py:36 | The counter has one entry per distinct token. |
| `Hashtags.DistinctTagsCard` | code.py:36 | Entries with distinct tags are as many as their tags. |
| `Hashtags.RankedDistinct` | code.py:36 | Entries in strict `most_common` order have distinct tags. |
| `Hashtags.TopHashtags` | code.py:34-40 | An absent column gives an empty table. Otherwise the table has min(20, distinct tokens) rows, no tag twice, exact counts, and `most_common` order. Any token left out happens only when 20 rows were kept, and it ranks after the 20th. Every tag is non-empty, lowercase and has no whitespace. |
| `Pipeline.CellText` | code.py:15 | `str(text)`: a present cell is its own text, and a missing cell (a float NaN) reads as `nan`. |
| `Pipeline.CleanColumn` | code.py:19 | One cleaned text per row, in row order: row i is `clean_text` of row i's text, in the clean alphabet and no longer than it. |
| `Pipeline.CleanColumnAppend` | code.py:19 | Cleaning a column part by part gives the same rows. |
| `Pipeline.SentimentColumn` | code.py:31 | One label per cleaned row, in row order, each the rule applied to that row's score. |
| `Pipeline.SentimentColumnAppend` | code.py:31 | Labelling a column part by part gives the same labels. |
| `Pipeline.Process` | code.py:13-40 | Both added columns have as many rows as `Text`. Row i's cleaned text is `clean_text` of row i's text, and row i's label is the rule applied to the score of that cleaned text. The hashtag table is the `Hashtags` table of the column, with the ranking facts of `Hashtags.TopHashtags`. It is empty when the column is absent and has at most 20 rows. |
| `Pipeline.MissingTextIsNan` | code.py:15 | A missing `Text` cell reads as `nan` and is cleaned to `nan`. |
| `Pipeline.SymbolOnlyRowIsNeutral` | code.py:14-31 | A row of symbols only is cleaned to the empty text. When the scorer gives the empty text polarity zero, that row is Neutral. |

## Left out

- Reading the CSV, printing the column list and the messages, and writing
  the two Excel files are I/O. The model starts from the columns as values
  and ends at the added columns and the hashtag table.
- TextBlob's polarity is an external lexicon-based scorer. It is the
  parameter `polarity` of `Pipeline.SentimentColumn` and `Pipeline.Process`,
  read as an exact real, so floating-point rounding is not modelled.
- The `Timestamp` step (parsing with coercion to NaT, and the `Date` and
  `Hour` columns) is left out. It is a library call on dates with no logic of
  the script's own.
- The DataFrame itself is not modelled: its index, the column names given to
  the hashtag table, and the presence test on the columns other than
  `Hashtags`. `Text` is assumed present. Without it the script stops with a
  `KeyError`.
- `str()` coercion: a `Text` cell is a string or missing (`nan`).
  `Hashtags` cells are strings or missing. Numbers and other values in these
  cells, which `str()` / `astype(str)` would render, are not modelled.
- Character semantics are ASCII only. `\s`, `\S`, `\w` and `str.split()`
  treat every non-ASCII character as a non-space, non-word character, and
  `str.lower()` changes only A-Z. Python's Unicode whitespace, Unicode word
  characters and Unicode case mapping, which can change a string's length,
  are not modelled.
- `most_common(20)` selects with `heapq.nlargest`. Python documents that
  as equal to `sorted(..., reverse=True)[:n]`, and documents that
  `most_common` orders equal counts by first occurrence. The model gets the
  same table from a stable insertion sort of the whole counter, then takes
  the first 20 entries. The heap selection itself is not modelled.
- `sum(..., [])` concatenates lists, which takes quadratic time. Only its
  result is modelled.
