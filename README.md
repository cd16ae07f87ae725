# Study assistant: page sampler, reply parser and resource list

A Dafny model of the logic in a student study-assistant web application.
The application uploads PDF study material, asks a generative-AI service to
describe it, and lists the uploaded resources. Four pieces are modelled:

- **The PDF page sampler** in `extractPDFText` (app.js), module `Sampler`.
  It takes the texts of at most the first five pages. It always keeps
  page 1 and page 2, each under a `--- Page N ---` header, and adds the
  longest later page as the "Content Heavy" page; the first such page wins
  on ties. It then collapses every whitespace run to one space and trims.
  A result shorter than 50 characters becomes a fixed sentinel sentence;
  anything else is cut to 4000 characters. The method keeps the source's
  shape: `finalText +=` steps, a `selectedPages` set, and a scan loop that
  updates `maxLength` and `maxPage`. It is proved equal to the function
  `Excerpt`, and the promised properties are proved about `Excerpt`.
- **The reply parser `parseGeminiResponse`**, in two copies. The copy in
  app.js is module `AppParser`; it also extracts the practice questions.
  The copy in functions/index.js is module `CloudParser`. Their shared
  regular expressions are written out as hand scanners in module
  `ResponseScan`:
  - each label (`Subject:`, `Topics:`, `Summary:`, `Questions:`) is found
    at its first case-insensitive occurrence anywhere in the text;
  - the `\s*` after a label is greedy and backs off to the last position
    where the capture can start;
  - the topics block runs on over non-empty lines that do not start with
    `Summary:`; its first line is not checked;
  - the question split `\n\d+\.\s+` keeps the text before the first
    numbered item.

  Each `ParseResponse` method fills the result record field by field and
  detects the subject with a loop that breaks. Each is proved equal to its
  `Parse` function.
- **The search filter of `filterResources`** (app.js), module `Resources`.
  It lists every resource for a blank query. Otherwise it lists, in order,
  the resources whose title, subject or one of whose topics contains the
  lower-cased query.
- **The newest-first sort of `allResources`** (app.js), module `Resources`.
  It is an in-place sort of an array by upload seconds, where a missing
  timestamp counts as 0.

Supporting modules:

- `Util` holds the JavaScript array operations the source chains together:
  `filter`, `find`, `slice(0, n)` and dropping `null`s.
- `Strings` holds the string primitives: the JavaScript `\s` class (the
  ECMAScript WhiteSpace and LineTerminator code points), `trim`, `split`,
  `includes`, `startsWith`, and ASCII case mapping.

Page `i + 1` of a document is `pages[i]`. Lengths are counted in
characters.

Details of the code that the model keeps:

- A summary line is kept when it has 11 to 199 characters (`length > 10`
  and `length < 200`).
- Labels may occur anywhere in the text, not only at the start of a line.
- The text before the first numbered question is the first question block.
- The topics block ends at an empty line or at a line starting with
  `Summary:`. Its first line is never checked for `Summary:`.
- The answer letter is the first character of the trimmed text between the
  first and the second colon of the answer line, upper-cased, whatever that
  character is (`B` for `Answer: B`).
- Cleaning a piece removes a leading bullet and then a leading `digits.`
  prefix, so a piece can lose both.

## Model

| member | source | states |
|---|---|---|
| Sampler.SampleText | app.js:556-605 | The sampled text equals `Excerpt(pages)` for at most five pages. |
| Sampler.AssembleBlocks | app.js:560-592 | The text built by the `+=` steps is the concatenation of the rendered blocks: page 1, page 2, then the heavy page. |
| Sampler.FindHeaviest | app.js:577-587 | The `forEach` scan over the pages not in `selectedPages` ends with the page `HeaviestIn` names. Its loop invariant ties `maxLength` to the length of the page chosen so far. |
| Sampler.HeaviestIn | app.js:577-592 | No heavy page exists exactly when there are at most two pages. Otherwise the result is a page numbered 3 or more that is as long as every such page and strictly longer than each earlier one. |
| Sampler.HeaviestUnique | app.js:582-585 | At most one page satisfies the heavy-page condition, so the strict `>` makes the choice unique. |
| Sampler.BlocksShape | app.js:563-592 | With at most two pages there are only plain blocks for pages 1 and 2. With three or more there are exactly three blocks: page 1, page 2, then one Content Heavy block for the longest later page, the earliest on ties. |
| Sampler.Excerpt | app.js:595-602 | The excerpt is never longer than 4000 characters. |
| Sampler.ExcerptSentinel | app.js:597-599 | The excerpt is the sentinel sentence exactly when the collapsed text is shorter than 50 characters. With no pages it is always the sentinel. |
| Sampler.ExcerptForm | app.js:595-601 | Outside the sentinel case the excerpt is a prefix of the collapsed text. It has no leading whitespace, only plain single spaces, and starts with `--- Page 1 ---` when there are pages. |
| Sampler.SqueezeIsNormal | app.js:595 | After `replace(/\s+/g, ' ')` every whitespace character is a plain space and no two are adjacent. |
| Sampler.CollapseForm | app.js:595 | The collapsed text is in that normal form and has no leading or trailing whitespace. |
| Sampler.SqueezeIsFold | app.js:595 | `replace(/\s+/g, ' ')` equals a left-to-right reading of the text: each whitespace character that starts a run gives one space, the rest of the run gives nothing, and every other character is copied. |
| Sampler.NonSpaceSqueeze | app.js:595 | The replacement keeps every non-whitespace character of the text, in order. |
| Sampler.NonSpaceTrim | app.js:595 | `trim` removes no non-whitespace character. |
| Sampler.NonSpaceCollapse | app.js:595 | The collapsed text has exactly the non-whitespace characters of the raw text, in order. |
| Sampler.CollapseIdempotent | app.js:595 | Collapsing collapsed text changes nothing. |
| Sampler.CollapseStartsWithHeader | app.js:565 | With a first page, the collapsed text starts with the page 1 header. |
| ResponseScan.BackOff | app.js:730 | The capture start found after a label is the last position in the whitespace run where the capture can begin. None is found only when no position in the run allows it. |
| ResponseScan.CaptureFrom | app.js:730 | A capture is found only at an occurrence of the label, ignoring case. Without any occurrence of the label there is no match. |
| ResponseScan.CaptureFromNone | app.js:730 | There is no match exactly when no occurrence of the label admits a capture. |
| ResponseScan.CaptureFromLeftmost | app.js:730 | A match belongs to the leftmost occurrence of the label that admits a capture, and its capture is the one that occurrence gives. |
| ResponseScan.SubjectLineSpec | app.js:730 | The captured subject line belongs to the first `Subject:` that admits a capture and runs to the end of that line. There is none exactly when no `Subject:` admits one. |
| ResponseScan.MatchSubjectSpec | app.js:733-741 | The subject is the first of Physics, Chemistry, Maths, Biology, Computer Science whose lower-case name occurs in the lower-cased line. It is `Other` exactly when none does. |
| ResponseScan.DetectSubject | app.js:736-741 | The indexed loop with `break` returns the subject `MatchSubject` specifies. |
| ResponseScan.SubjectSpec | app.js:730-742 | The subject is `Other` when no subject line is captured. Otherwise the captured line is non-empty and has no line break. The subject is the first ranked name that its trimmed, lower-cased form contains, and it is `Other` exactly when that form contains none. |
| ResponseScan.BlockEnd | app.js:745 | The topics block goes on over each following line that is non-empty and does not start with `Summary:`, ignoring case. It stops at the first line that is empty or starts with `Summary:`. |
| ResponseScan.CleanSpec | app.js:749 | A cleaned piece is a suffix of the trimmed piece that starts and ends with non-space characters. It equals the trimmed piece when that starts with neither a bullet nor a digit. |
| ResponseScan.StripBulletExact | app.js:749 | The bullet replacement removes exactly a leading bullet and all the whitespace after it, and nothing when the text does not start with a bullet. |
| ResponseScan.StripNumberExact | app.js:749 | The number replacement removes exactly a leading `digits.` and all the whitespace after it, and nothing when there is none. |
| ResponseScan.CleanExact | app.js:749 | The trimmed piece is its leading bullet with its whitespace (empty when it has none), then the leading `digits.` of the rest with its whitespace (empty when it has none), then the cleaned piece. |
| ResponseScan.TopicsSpec | app.js:745-753 | There are no topics without `Topics:`. Otherwise the topics are the cleaned pieces of 1 to 49 characters from some prefix of the cleaned pieces, in order and with repeats. That is at most 5 topics, and the prefix is the whole list when fewer than 5 are kept. |
| ResponseScan.SummarySpec | app.js:757-765 | There is no summary without `Summary:`. Otherwise the lines are the cleaned lines of 11 to 199 characters from some prefix of the cleaned lines, in order and with repeats. That is at most 5 lines, and the prefix is the whole list when fewer than 5 are kept. |
| AppParser.SeparatorAtSpec | app.js:775 | A separator is found at a position exactly when a line break, one or more digits, a dot and at least one whitespace character start there. It ends where the whitespace run after the dot ends. |
| AppParser.SplitBlocksFromCut | app.js:775 | The block under way ends at the first separator from the search position on, and the split goes on with a new block where that separator's whitespace run ends. |
| AppParser.SplitBlocksFromWhole | app.js:775 | Without a separator from the search position on, the block under way runs to the end of the text and is the last one. |
| AppParser.SplitBlocksFromFree | app.js:775 | No block of the split contains a separator. |
| AppParser.SplitBlocksSpec | app.js:775 | The first question block is the text before the first separator, and the remaining blocks are the split of the text after that separator; with no separator the whole text is the only block. The first block starts with the text's first character unless that is a line break, and no block contains a separator. |
| AppParser.SplitBlocksExample | app.js:775 | `a\n1. b` splits into the two blocks `a` and `b`. |
| AppParser.BlockLinesTrimmed | app.js:778 | Every line of a block is non-empty and trimmed. |
| AppParser.WordAt | app.js:787 | The difficulty word read at a position is one of easy, medium or hard, ignoring case. None is read when no such word starts there. |
| AppParser.DifficultyWordSpec | app.js:785-791 | The difficulty found follows some `difficulty:` and spaces. None is found when no `difficulty:` is followed by spaces and a difficulty word. |
| AppParser.DifficultyWordNone | app.js:787 | Nothing is found exactly when no `difficulty:` is followed by spaces and a difficulty word. |
| AppParser.DifficultyWordLeftmost | app.js:787 | The word found follows the leftmost `difficulty:` that is followed by spaces and a difficulty word. |
| AppParser.DifficultyOfSpec | app.js:783-791 | Without a difficulty line the difficulty is `Medium`. Otherwise it is the word the first difficulty line names, and `Medium` when that line names none. |
| AppParser.AnswerLetter | app.js:793-794 | The answer taken from an answer line is empty or one upper-cased character. |
| AppParser.AnswerLetterSpec | app.js:794 | The answer letter is the first character of the trimmed text between the first and second colons, upper-cased. It is empty exactly when that text is blank. |
| AppParser.AnswerOfSpec | app.js:793-794 | Without an answer line the answer is empty. Otherwise it is the letter of the first answer line. |
| AppParser.OptionGuardsRedundant | app.js:796-798 | A line starting like an option is never an answer line or a difficulty line, so the two extra guards never reject one. |
| AppParser.FilterSame | app.js:796-798 | The option filter with its guards keeps exactly the lines matching `^[A-D]\)`, ignoring case. |
| AppParser.ParseBlockSpec | app.js:777-806 | A block yields a question exactly when it has at least 3 non-empty lines. The question is the first line, the options are the block's lines matching `^[A-D]\)` in order, and the answer and difficulty come from the first answer and difficulty lines. It is kept exactly when it has 4 options and a non-empty answer, and a kept question is well formed. |
| AppParser.KeptMembers | app.js:806 | The kept questions are exactly the candidates that pass the final filter. |
| AppParser.KeptWellFormed | app.js:806 | Every kept question is well formed. |
| AppParser.KeptOrder | app.js:806 | The kept questions keep the order of their blocks. |
| AppParser.KeptCountsOf | app.js:806 | Each kept question appears exactly as often as among the candidates. |
| AppParser.QuestionsSpec | app.js:771-807 | There are no questions without `Questions:`. Otherwise the questions are exactly the candidates that pass the final filter, each as often as among the candidates, all well formed, in block order. |
| AppParser.ParseResponse | app.js:721-810 | The record filled field by field equals `Parse(responseText)`. |
| AppParser.KeepsRealBullet | app.js:749 | As written, a piece that starts with U+2022 keeps its bullet after cleaning. |
| AppParser.IntendedStripsRealBullet | app.js:749 | With the intended class `[-*•]`, that bullet is removed. |
| AppParser.BulletCounterexample | app.js:749 | The topic `• G` cleans to `• G` as written and to `G` with the intended class. |
| CloudParser.ParseResponse | functions/index.js:26-72 | The record filled field by field equals `Parse(responseText)`. |
| CloudParser.EmptyWithoutLabels | functions/index.js:27-31 | Without any of the three labels the result is `Other` with no topics and no summary. |
| CloudParser.CleanAgrees | functions/index.js:52 | A piece whose trimmed form does not start with •, â, € or ¢ is cleaned alike by both parsers. |
| CloudParser.CleanAllAgrees | functions/index.js:51-53 | When every piece is such a piece, the whole cleaned list is the same in both parsers. |
| CloudParser.AgreesWithApp | functions/index.js:26-69 | When no topic or summary piece starts with one of those characters, this parser and the app.js parser give the same subject, topics and summary. |
| CloudParser.Disagreement | functions/index.js:52 | On the topic `• G` the two parsers disagree. |
| CloudParser.AgreesWithIntendedApp | functions/index.js:26-69 | The app.js parser with the bullet class it evidently means agrees with this parser on every response. |
| Resources.MatchesResource | app.js:837-858 | The `filter` callback, with its early-return loop over the topics, returns exactly `Matches`: the title, the subject or some topic contains the lower-cased query. |
| Resources.BlankListsAll | app.js:825-832 | A blank query lists every resource in order. |
| Resources.BlankIffSpaces | app.js:825 | A query is blank exactly when it is all whitespace. |
| Resources.FilterSpec | app.js:834-858 | Otherwise the listing is a subsequence of the resources. A matching resource appears exactly as often as in the full list, and a non-matching one does not appear. |
| Resources.LowerKeepsBlank | app.js:825-834 | Lower-casing a query does not change whether it is blank. |
| Resources.QueryCaseIgnored | app.js:834 | The listing for a query equals the listing for its lower-cased form. |
| Resources.FilterKeepsNewestFirst | app.js:837-858 | Filtering a newest-first list leaves it newest first. |
| Resources.SortNewestFirst | app.js:237-241 | After the sort the array is ordered by non-increasing upload seconds, with a missing timestamp as 0. It holds the same resources as before (a permutation). |
| Resources.Insert | app.js:237-241 | One insertion step extends the newest-first prefix by one entry. It reorders only the first `i + 1` entries among themselves and leaves the rest unchanged. |
| Resources.InsertStep | app.js:237-241 | One swap of a newer resource past an older one keeps the insertion's invariants and moves the entry one place left. |

## Findings

| source | as written | input that shows it | evidently intended | confidence | as-written member | corrected member |
|---|---|---|---|---|---|---|
| app.js:749, app.js:761 | The bullet class is `[-*â€¢]`: the UTF-8 bytes of `•` read as Windows-1252. It strips `-`, `*`, `â`, `€` and `¢`, but not `•`. | The topic `• G` stays `• G`. | `[-*•]`, as in functions/index.js:52 and 64: `• G` becomes `G`. | high, not executed | AppParser.BulletCounterexample | AppParser.IntendedStripsRealBullet |

`AppParser.Parse` and `AppParser.ParseResponse` model the class as written.
`AppParser.ParseIntended` uses the intended class. `AppParser.KeepsRealBullet`
shows the difference for every piece starting with `•`.
`CloudParser.AgreesWithIntendedApp` shows that the corrected parser matches
the cloud parser on every response.

## Left out

- pdf.js, FileReader and the promise plumbing of `extractPDFText`. The page
  texts are the input. The cap of five pages is a precondition.
- The Gemini `fetch`, the rate-limit handling and the fallback record. The
  cloud function's `onCall` wrapper with its authentication and environment
  checks. Firebase authentication, Firestore, Storage, and all DOM
  rendering.
- The prompt templates, and the optional `"Unknown ..."` fallbacks for the
  prompt context. They are fixed string interpolation with nothing to
  prove.
- Unicode case mapping. `toLowerCase` and `toUpperCase` are modelled on
  ASCII letters only, and so are the case-insensitive label and word
  matches.
- Lengths are counted in characters, not UTF-16 code units.
  `substring(0, 4000)` and the length filters are stated on characters.
- Resources.SortNewestFirst: the stability of `Array.prototype.sort` is not
  stated. The contract gives order and permutation only.
- Resources.SortNewestFirst: the sort is modelled as an insertion sort.
  Only the result is modelled, not the engine's comparison sequence.
- The app.js difficulty is returned as a `Difficulty` value, not as the
  capitalised string. The two carry the same information.
- `resource.title` is assumed present, as the source assumes. A missing
  title would throw in the source and is not modelled.
