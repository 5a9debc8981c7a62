# Meeting-notes summariser, modelled in Dafny

This project models the extractive summariser of a meeting-capture tool.
The tool has two summarisers.

- The server's `makeSummary(text, style, lengthKey)`:
  - splits a transcript into sentences;
  - scores each sentence by the document-wide frequency of its non-stopword
    tokens, divided by the square root of its token count;
  - ranks the sentences by score, with a stable sort;
  - renders the best ones in one of five styles: concise, executive
    (bullets cut to 120 characters), action (bullets plus suggested next
    steps chosen by keyword rules), detailed, and the plain default.
- The browser's path:
  - `cleanTextForAI` strips `--- captured … ---` time-stamp markers and
    tidies whitespace;
  - `localSummarize` is the reduced fallback: the three best-scoring
    sentences, joined in score order.

The modules follow the program's structure:

| module | file | what it holds |
|---|---|---|
| `Chars` | `chars.dfy` | character classes: JavaScript `\s`, line terminators, `\w`, token characters, ASCII case mapping |
| `Strings` | `strings.dfy` | `trim`, whitespace collapsing, `join`/`split` on one character, `indexOf`; `Squeeze`, the non-whitespace characters of a string, is the measure of "no text lost" |
| `Sentences` | `sentences.dfy` | `splitSentences`, with `String.prototype.split` on the look-behind separator followed step by step |
| `Tokens` | `tokens.dfy` | `tokenizeWords` and both copies of `STOPWORDS` |
| `Scoring` | `scoring.dfy` | `scoreSentences`; a score is kept exact as the pair (weight, words) and compared by cross-multiplying squares |
| `Ranking` | `ranking.dfy` | the stable sort (`Array.prototype.sort`), `topByScore` and `topSentences` |
| `Format` | `format.dfy` | `clean`, `sentenceToLine`, the 120-character bullet limit, the `\b…\b` keyword rules, `new Set` de-duplication |
| `Summary` | `summary.dfy` | `makeSummary` and its five styles |
| `Fallback` | `fallback.dfy` | `cleanTextForAI`, `localSummarize`, and the summarize button's use of them |

The browser's `splitSentences`, `tokenizeWords` and `scoreSentences`
compute the same functions as the server's. Each is defined once here and
stands for both copies. The first two are the same code up to layout. In
`scoreSentences` the frequency loop is written differently: the browser
counts a word under `if (!STOPWORDS.has(w))` (app.js:46), and the server
skips stopwords with `if (STOPWORDS.has(w)) continue;` (hf-server.js:28).
Both count every non-stopword once per occurrence and never count a
stopword. The two stopword lists are written
out separately, and `Tokens.BrowserStopwordsAgree` shows they are equal.

Inputs are plain `string` values (`seq<char>`). A style or length key the
server does not recognise falls through to its default branch, as in the
source.

## Model

| member | source | states |
|---|---|---|
| `Tokens.BrowserStopwordsAgree` | app.js:24-28 | the browser's stopword list is the server's list (hf-server.js:12-14): the same 38 words in the same order |
| `Strings.Trim` | hf-server.js:17 | `trim` leaves no whitespace at either end and drops only whitespace, so the non-whitespace text is unchanged |
| `Strings.TrimIsSlice` | hf-server.js:17 | the trimmed string is a contiguous slice of the input with only whitespace on either side of it |
| `Strings.Collapse` | hf-server.js:48 | after `replace(/\s+/g, ' ')` the only whitespace is the plain space, never two in a row, and the result is empty, or starts or ends in whitespace, exactly when the input does |
| `Strings.CollapseKeepsText` | hf-server.js:48 | collapsing whitespace runs keeps every other character, in order |
| `Strings.CollapseFixesSingleSpaced` | hf-server.js:48 | a string that is already single-spaced is a fixed point of the collapse |
| `Sentences.CollapseNewlinesKeepsText` | hf-server.js:17 | turning line-feed runs into spaces keeps every non-whitespace character |
| `Sentences.Pieces` | hf-server.js:17 | `split(/(?<=[.!?])\s+/)` yields at least one piece; every piece but the last ends in `.`, `!` or `?`; no piece contains a place where the separator could match; no line feed appears that the input lacked |
| `Sentences.PiecesKeepText` | hf-server.js:17 | the pieces together hold every non-whitespace character of the text: the separators removed are whitespace only |
| `Sentences.SplitSentences` | hf-server.js:16-18 | every sentence is non-empty, trimmed, with no line feed (`\n`) and without an internal cut point, and every sentence but the last ends in terminal punctuation; a `\r` (from CRLF text), U+2028 or U+2029 can remain inside a sentence, as in the source, since only `\n+` runs are replaced; `clean` turns them into spaces, so no rendered line contains one |
| `Sentences.SplitSentencesKeepsText` | hf-server.js:16-18 | the sentences, concatenated, hold exactly the text's non-whitespace characters in order: nothing is lost or invented |
| `Sentences.SplitSentencesKeepsCarriageReturn` | hf-server.js:16-18 | the newline pass replaces `\n+` runs only, so the `\r` of a CRLF line ending stays inside its sentence: `"ab\r cd"` (what `"ab\r\ncd"` becomes) is one sentence, unchanged |
| `Sentences.SplitSentencesEmptyIff` | hf-server.js:16-18 | there is no sentence exactly when the text is whitespace only |
| `Sentences.SplitSentencesOfSentence` | hf-server.js:16-18 | a well-formed sentence splits into exactly itself, so splitting is idempotent on its own output |
| `Sentences.SplitSentencesOfJoin` | hf-server.js:16-18 | round trip: well-formed sentences, all but the last ending in `.`, `!` or `?`, joined by single spaces, split back into exactly those sentences; the cuts fall at the spaces after terminal punctuation and nowhere else |
| `Sentences.SplitSentencesKeepsWords` | hf-server.js:16-18 | the sentences hold exactly the text's whitespace-separated words, in order, and re-joining them with spaces changes no word: a cut only ever removes whitespace, so no word is split at a cut or merged across one |
| `Sentences.PiecesWords` | hf-server.js:17 | the pieces of `split(/(?<=[.!?])\s+/)`, taken in order, hold the words of the text from the piece start on |
| `Sentences.WordsOfCollapseNewlines` | hf-server.js:17 | turning line-feed runs into spaces does not change the whitespace-separated words |
| `Tokens.Words` | hf-server.js:21 | `split(/\s+/).filter(Boolean)` gives non-empty whitespace-free words drawn from the input |
| `Tokens.WordsKeepText` | hf-server.js:21 | the words, concatenated, are exactly the input's non-whitespace characters |
| `Tokens.WordsOfJoin` | hf-server.js:21 | splitting a space-join of words gives the words back (round trip) |
| `Tokens.WordsAppend` | hf-server.js:21 | a text followed by one that starts with whitespace splits into the first text's words followed by the second's |
| `Tokens.WordsOfJoinWith` | hf-server.js:21 | a space-join of texts splits into the words of each text, in order |
| `Tokens.WordsOfTrim` | hf-server.js:17 | `trim` does not change the whitespace-separated words |
| `Tokens.WordsOfCollapse` | hf-server.js:48 | `replace(/\s+/g, ' ')` does not change the whitespace-separated words |
| `Tokens.JoinOfSingleSpaced` | hf-server.js:48 | a string with no whitespace at the ends and single plain spaces inside is its words joined by spaces (the other half of the round trip) |
| `Tokens.CollapseTrimIsJoin` | hf-server.js:48 | `s.trim().replace(/\s+/g, ' ')` is exactly the words of `s` joined by single spaces |
| `Tokens.NormalizeChar` | hf-server.js:21 | after lower-casing and replacing `[^a-z0-9\s']`, each character is a token character or whitespace; a character whose lower case is a token character becomes that lower case; whitespace is kept as it is; every other character becomes a space |
| `Tokens.Tokenize` | hf-server.js:20-22 | every token is non-empty and made only of `a-z`, `0-9` and `'` |
| `Tokens.TokenizeKeepsText` | hf-server.js:20-22 | the tokens, concatenated, are the normalised text without its whitespace: no letter, digit or apostrophe is dropped |
| `Scoring.FrequenciesCount` | hf-server.js:25-31 | the frequency table gives each non-stopword its number of occurrences in the whole document and gives stopwords nothing |
| `Scoring.ScoreSentences` | hf-server.js:32-37 | one entry per sentence, in the given order, each holding its own sentence |
| `Scoring.ScoreMeaning` | hf-server.js:32-37 | a sentence's weight is the sum, over its tokens, of each token's document-wide count (stopwords add nothing), and its divisor is its token count, or 1 when it has none |
| `Scoring.ScorePositiveIff` | hf-server.js:34-36 | a sentence scores above zero exactly when it has a token that is not a stopword |
| `Scoring.AtLeastIsSquaredOrder` | hf-server.js:36 | the exact integer comparison of two scores agrees with comparing `weight² / words`, and so with comparing `weight / √words` |
| `Scoring.AtLeastTotalPreorder` | hf-server.js:46 | the comparator `b.score - a.score` orders scores totally and transitively, as a sort comparator must |
| `Ranking.SortBy` | hf-server.js:46 | the sort returns a permutation of its input |
| `Ranking.SortSorted` | hf-server.js:46 | with a total-preorder comparator, the sorted list is ordered by it |
| `Ranking.SortStable` | hf-server.js:46 | sorting a list given in document order keeps tied elements in document order, as `Array.prototype.sort` is stable |
| `Ranking.TopByScoreRanks` | hf-server.js:45-46 | `topByScore` is a permutation of the scored sentences, non-increasing by score, with ties in document order |
| `Ranking.RankingUnique` | hf-server.js:45-46 | two rankings of the same scored sentences, each non-increasing by score with ties in document order, are equal: the stable sort's result is fixed by that description alone |
| `Strings.FirstIndex` | hf-server.js:50 | `indexOf` is -1 exactly when the sentence is absent; otherwise it is the first position holding it |
| `Ranking.TopSentencesSelect` | hf-server.js:50 | `topSentences(n)` holds exactly the texts of the first `min(n, #sentences)` ranked entries, counted with multiplicity, ordered by the first position of each text in the document |
| `Ranking.TopSentencesInDocumentOrder` | hf-server.js:50 | when the sentences are pairwise distinct, `topSentences(n)` is a subsequence of them: the chosen sentences in document order |
| `Format.CleanIsClean` | hf-server.js:48 | `clean` leaves no whitespace at the ends, only single plain spaces inside, and no space before `, . ! ?` |
| `Format.CleanKeepsText` | hf-server.js:48 | `clean` removes and rewrites whitespace only |
| `Format.CleanIsGlue` | hf-server.js:48 | `clean(s)` is exactly the words of `s`, in order, with one space between words and none before a word that starts with `, . ! ?` |
| `Format.DropSpaceBeforePunctJoin` | hf-server.js:48 | pulling `, . ! ?` back onto a space-joined list of words removes exactly the spaces in front of the words that start with them |
| `Format.CleanIdempotent` | hf-server.js:48 | `clean(clean(s)) == clean(s)` |
| `Format.CleanEmptyIff` | hf-server.js:48 | `clean(s)` is empty exactly when `s` is all whitespace |
| `Format.SentenceToLineIsClean` | hf-server.js:49 | a line is itself clean, does not start with a lower-case letter, and is empty only for an all-whitespace sentence |
| `Format.SentenceToLineKeepsOpeningQuote` | hf-server.js:49 | a quote that opens the cleaned sentence is kept, because the quote removal applies to `t.slice(1)` only |
| `Format.FitBullet` | hf-server.js:63 | a bullet body is at most 120 characters; a line of at most 120 is unchanged; a longer one is cut to at most 118 characters ending in `…` |
| `Format.FitBulletKeepsPrefix` | hf-server.js:63 | a cut line keeps a non-empty prefix of the original, of at most 117 characters and ending in a non-space, and only whitespace was trimmed between it and character 117 |
| `Format.StripFinalPeriod` | hf-server.js:76 | `replace(/\.$/, '')` removes exactly one final full stop if there is one, and nothing else |
| `Format.HasWordIff` | hf-server.js:77-79 | the `\b(k1\|k2\|…)\b/i` search succeeds exactly when some keyword occurs as a whole word at some position, ignoring ASCII case |
| `Format.StepLineFirstMatch` | hf-server.js:77-80 | a step is the prefix of the first rule, in source order, whose keywords match, or "- Consider: " when none does, followed by the line and a full stop |
| `Format.StepForShape` | hf-server.js:76-80 | a step is one of the four prefixes, the line without its final full stop, and one full stop |
| `Format.Dedup` | hf-server.js:82 | `Array.from(new Set(xs))` has no repeats, has the same members as `xs`, and is no longer |
| `Format.DedupFirstOccurrences` | hf-server.js:82 | de-duplication keeps every value once, in the order of its first position in `xs` |
| `Format.DedupUnique` | hf-server.js:82 | any list that holds every value of `xs` once, in first-position order, is the de-duplication |
| `Strings.FirstOccurrencesUnique` | hf-server.js:82 | at most one list holds every value of `xs` once in first-position order, so that description fixes `new Set`'s order |
| `Format.DedupFixesDistinct` | hf-server.js:82 | a list without repeats is its own de-duplication |
| `Format.DedupKeepsFirst` | hf-server.js:82 | de-duplication keeps the first element first |
| `Summary.SelectionCountBounds` | hf-server.js:43-44 | the count is between 1 and the number of sentences; within that bound it is 1 for `short`, 6 for `long` and 3 for any other length key |
| `Summary.ChosenCount` | hf-server.js:50 | `topSentences(n)` has `min(n, #sentences)` entries |
| `Summary.ChosenAreSentences` | hf-server.js:50 | `topSentences(n)` returns only sentences of the text |
| `Summary.MakeSummaryEmptyIff` | hf-server.js:40-42 | the summary is empty exactly when the text is whitespace only, whatever the style and length key |
| `Summary.RenderNonEmpty` | hf-server.js:52-92 | every style renders a non-empty summary when there is a sentence |
| `Summary.ConciseIsPlain` | hf-server.js:52-59 | the concise branch, with its special case for one part and its optional follow-on, equals the default branch's space-join of lines |
| `Summary.ConciseIsDefault` | hf-server.js:52-59 | for any text and length key, the concise style renders exactly what an unrecognised style renders (hf-server.js:92) |
| `Summary.ExecutiveShape` | hf-server.js:61-66 | the executive summary reads back as exactly `count` lines, line `i` being `'• '` and the cut line of the `i`-th chosen sentence, each 3 to 122 characters long |
| `Summary.ActionSeedsMeaning` | hf-server.js:69-71 | the bullet seeds are 1 to `count` sentences of the ranking, in score order, no sentence twice: when some sentence has an action keyword, the first `count` action sentences of the ranking, so no action sentence left out scores higher than a seed; otherwise the best `count` sentences |
| `Summary.CandidatesNoDuplicates` | hf-server.js:70 | the keyword filter of a ranking without repeats has no repeats |
| `Summary.SeedsOutrankRest` | hf-server.js:69-71 | every action sentence that is not a seed scores no higher than every seed |
| `Summary.CandidatesComplete` | hf-server.js:70 | the keyword filter keeps every action sentence of the ranking |
| `Summary.CandidatesSorted` | hf-server.js:70 | the filter keeps the ranking's order, so candidates stay best score first |
| `Summary.ActionStepsMeaning` | hf-server.js:73-82 | there are 1 to 3 step lines without repeats; the first is the best sentence's step; they are exactly the distinct steps of the best three sentences, each once, in the order of first appearance |
| `Summary.StepsAllCandidates` | hf-server.js:73-82 | the cut to three drops no step: every distinct step of the best three sentences is listed, in the order of first appearance |
| `Summary.ActionShape` | hf-server.js:68-84 | the action summary reads back as the bullets, an empty line, `Suggested next steps:`, and the steps; the seeds are chosen as `Summary.ActionSeedsMeaning` states and have no repeats, and the steps are as `Summary.ActionStepsMeaning` states |
| `Summary.DetailedCount` | hf-server.js:86-90 | the detailed style takes `min(5, max(3, count))` sentences, or all of them when the text has fewer: never more than five, and fewer than three exactly when the text has fewer than three |
| `Fallback.Closer` | app.js:17 | the lazy `.*?---` tail matches nothing, or a length of at least 3 that fits in the input |
| `Fallback.CloserFound` | app.js:17 | a found tail ends just after the first `---`, with no line terminator before it |
| `Fallback.CloserFinds` | app.js:17 | conversely, the first `---` reachable without crossing a line is where the tail ends |
| `Fallback.CloserNone` | app.js:17 | when no tail is found, every `---` lies beyond a line terminator |
| `Fallback.MarkerLen` | app.js:17 | a marker match is absent, or at least 15 characters and within the input |
| `Fallback.StripMarkersNoMarker` | app.js:17 | a transcript without a marker passes through unchanged |
| `Fallback.StripMarkersFirstMatch` | app.js:17 | text before the first match is kept verbatim, the match is deleted whole, and the scan resumes after it |
| `Fallback.StripMarkersExample` | app.js:17 | `Hi --- Captured 9 --- there` becomes `Hi  there`: the match is case-insensitive and both surrounding spaces stay |
| `Fallback.StripMarkersKeepsBrokenMarker` | app.js:17 | a marker whose closing dashes are on the next line is not removed, because `.` does not match a line break |
| `Fallback.CleanTextForAI` | app.js:15-21 | the cleaned transcript has no whitespace at either end |
| `Fallback.NewlinePassRedundant` | app.js:18-19 | the newline pass changes nothing the whitespace collapse after it would not change anyway |
| `Fallback.CleanTextShape` | app.js:15-21 | the cleaned transcript is trimmed, single-spaced with plain spaces, on one line, and keeps every non-whitespace character of the marker-free text in order |
| `Fallback.LocalSummarizeEmptyIff` | app.js:57-59 | the fallback returns the empty string exactly when the text is whitespace only, that is when it has no sentence |
| `Fallback.LocalBestRanks` | app.js:60-61 | the sort yields a ranking by score with ties in document order, and the picks are the first `min(3, #sentences)` entries of every such ranking; each is a sentence, and every sentence left out scores no higher than every pick |
| `Fallback.LocalPicks` | app.js:57-63 | for a text with sentences, the fallback's output is the first `min(3, #sentences)` entries of any ranking of its scored sentences, joined by single spaces, with no cleaning and no capitalising |
| `Fallback.LocalPicksServerSelection` | app.js:57-63 | the fallback picks the same sentences, counted with multiplicity, as the server's default style at the default length (hf-server.js:92); only order and line formatting differ |
| `Fallback.LocalDiffersFromServer` | app.js:57-63 | a single well-formed sentence starting in lower case is summarised differently by the fallback and by the server's concise style, because only the server capitalises |
| `Fallback.FallbackAnswersCleanedText` | app.js:114-147 | when the trimmed and cleaned canvas text is non-empty, the fallback always produces a non-empty summary |

## Left out

- `mic.js` (speech capture) is not part of this model: it is browser I/O.
- The HTTP handler around `makeSummary` (hf-server.js:95-134) is left out. It covers request parsing, JSON bodies, status codes and the listening port. `MakeSummary` takes the text, style and length key directly.
- DOM access, `fetch`, the clock (`Date`) and the asynchronous flow of app.js are left out (app.js:3-12, 65-186). The only parts kept are the two calls the summarize button makes: trim and clean, then the fallback.
- The browser posts to port 5005 at `/summarize` (app.js:129). The server listens on `PORT` or 9000 and serves `/api/summarize`. Which of the two answers is a matter of deployment, so the model keeps both summarisers side by side and relates them (`Fallback.LocalPicksServerSelection`, `Fallback.LocalDiffersFromServer`).
- Scores are not floating-point numbers. A score is kept exactly as the pair (weight, token count) and compared through squares. Rounding of `score / Math.sqrt(words)` could make two mathematically different scores compare equal, or the reverse. The model orders by the exact values.
- Case mapping covers ASCII letters only. `toLowerCase`/`toUpperCase` on other scripts, and the Unicode-aware case folding of the `i` flag, are left out.
- Strings are sequences of code points. JavaScript measures `length` and `slice(0, 117)` in UTF-16 code units, so for text outside the Basic Multilingual Plane the 120-character limit counts differently.
- `\s` is the whitespace set of current ECMAScript. Differences between the Unicode versions that engines ship are left out.
- Missing arguments, and arguments that are not strings, are left out. The defaults `style = 'concise'` and `lengthKey = 'medium'` are stated in the doc comment of `Summary.MakeSummary`. Callers pass them explicitly.
- `Fallback.CleanTextForAI`: no idempotence is claimed. Deleting a marker can join the text around it into a new marker, so cleaning twice may remove more.
- `Ranking.TopSentencesInDocumentOrder`: proved only for pairwise-distinct sentences. `indexOf` returns the first occurrence, so repeated sentences all sort to the position of the first one. `Ranking.TopSentencesSelect` states what holds in general.
- `Summary.ActionShape`: does not restate the keyword rules; those are `Format.StepLineFirstMatch` and `Format.StepForShape`.
- `Strings.Collapse`: its own contract is about the shape of the result and the text it keeps. Which characters survive, and in which order, is stated by `Tokens.CollapseTrimIsJoin` and `Tokens.WordsOfCollapse`.
- `Format.Dedup`: its own contract leaves out the order of the result, to keep it cheap to use. `Format.DedupFirstOccurrences` states the order.
- `Format.CleanKeepsText`: compares texts without their whitespace only. The exact result, spaces included, is stated by `Format.CleanIsGlue`.
