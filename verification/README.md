# Markdown semantic extraction, modelled in Dafny

This project models the text-extraction core of a Markdown/MDX blog. The
extractors recover structured records from loosely written Markdown by
regular-expression heuristics:

- `slugify` turns free text into a URL identifier;
- `calculateReadingTime` estimates minutes from the number of words;
- `sortPostsByDate` orders posts newest first, in place;
- `extractHeadings` returns the outline of `##` and `###` headings;
- `extractFAQ` returns the bold-question/answer pairs of the FAQ section;
- `extractReviews` pairs the item names of a comparison table's header with the
  `X/Y` ratings of its "Overall Quality Score" row;
- `getCategories` and `getTags` build the category and tag vocabularies from
  the front matter of every post file.

Every regular expression is modelled as a hand-written matcher that takes the
branches the JavaScript backtracking engine takes (greedy and lazy runs, `^`
and `$` in multiline mode, the `i` flag). Each `exec`/`match` loop is a
`method` proved equal to a specification function. Properties of that function
are proved as lemmas.

Modules, one per file:

- `Opt` (`option.dfy`): the shared `Option` type;
- `Text` (`text.dfy`): character classes and the string built-ins;
- `Slug`, `ReadingTime`, `PostOrder`, `Headings`, `Faq` and `Reviews`: one per
  function of `src/lib/utils.ts`;
- `Vocabulary`: the two vocabulary functions of `src/lib/data.ts`.

Behaviour of the code worth noting:

- `slugify` ends with `trim()`, which removes whitespace only. Leading and
  trailing hyphens are therefore kept (`Slug.SlugifyKeepsOuterHyphens`), not
  trimmed.
- The score-row pattern `\|\s*Overall Quality Score\s*\|(.*?)\|` captures only
  the first cell after the label. A table with several items therefore yields
  at most one review item (`Reviews.AtMostOneReview`), even though the comment
  at `src/lib/utils.ts:117` shows a row with several scores.
- A review item whose name has no bold mention gets the body `''`. The field is
  not left unset.
- Categories and tags are deduplicated by the extracted value, not by the
  normalized id, so `SEO` and `seo` are two entries. (A tag is trimmed and
  stripped of quotes first, so `"seo"` and `seo` are one.) Their `id` and
  `slug` come from `toLowerCase().replace(/\s+/g, '-')`, not from `slugify`.
- The front matter ends at the first `\n---`, even when more characters follow
  it on the same line.

## Model

| member | source | states |
|---|---|---|
| Text.Lower | src/lib/utils.ts:25 | `toLowerCase` keeps the length, lowers every ASCII letter position by position, and leaves no upper-case letter |
| Text.Filter | src/lib/utils.ts:26 | a global `replace` of a negated class with `''` leaves only input characters of the class, leaves every input character of the class, and never lengthens the text |
| Text.FilterOne | src/lib/utils.ts:26 | one character is kept exactly when it is in the class |
| Text.FilterAppend | src/lib/utils.ts:26 | filtering a concatenation filters each part: with `FilterOne`, the result is the class characters of the input, in order and with their repetitions |
| Text.ReplaceRuns | src/lib/utils.ts:27-28 | `replace(/X+/g, rep)` never lengthens the text, emits only characters of the text outside the class or `rep`, and keeps the first character unless it opens a run, which becomes `rep` |
| Text.ReplaceRunsKeepsOthers | src/lib/utils.ts:27-28 | every character outside the class other than `rep` comes through, in order and with its repetitions: only the runs are rewritten |
| Text.ReplaceRunsNoAdjacent | src/lib/utils.ts:27-28 | replacing every run of a class with a member of that class leaves no two class characters side by side |
| Text.ReplaceRunsIdentity | src/lib/utils.ts:28 | text whose class characters are all the replacement, never adjacent, is left unchanged |
| Text.Trim | src/lib/utils.ts:29 | `trim()` returns the slice of its input between a run of leading and a run of trailing whitespace, with whitespace at neither end; it is the identity on trimmed text and non-empty when the input has a non-whitespace character |
| Text.TrimKeepsNoAdjacent | src/lib/utils.ts:29 | trimming keeps "no two neighbouring characters in a class" |
| Text.JoinSplitOn | src/lib/utils.ts:149 | `split` on one character is undone by `join` on that character |
| Text.SplitOn | src/lib/utils.ts:149 | `split` yields at least one piece and no piece holds the separator |
| Slug.Slugify | src/lib/utils.ts:23-30 | the result uses only `[a-z0-9_-]` and never holds `--` |
| Slug.TrimKeepsEndHyphens | src/lib/utils.ts:29 | the final `trim()` never removes anything: the slug is the hyphenated text before it |
| Slug.SlugifyFixesSlugs | src/lib/utils.ts:23-30 | every slug is its own slug |
| Slug.SlugifyIdempotent | src/lib/utils.ts:23-30 | `slugify(slugify(x)) == slugify(x)` for every text |
| Slug.SlugifyKeepsOuterHyphens | src/lib/utils.ts:27-29 | `slugify(" a ")` is `"-a-"`: outer spaces become hyphens that survive |
| ReadingTime.SplitOnWhitespace | src/lib/utils.ts:18 | `split(/\s+/)` yields at least one piece and no piece holds whitespace |
| ReadingTime.PiecesAreRunsPlusOne | src/lib/utils.ts:18 | the number of words is one more than the number of maximal whitespace runs |
| ReadingTime.PiecesKeepText | src/lib/utils.ts:18 | the pieces concatenated are exactly the non-whitespace characters of the text |
| ReadingTime.CalculateReadingTime | src/lib/utils.ts:16-21 | the minutes are the ceiling of words / 200: at least one, and `(m - 1) * 200 < words <= m * 200` |
| ReadingTime.ReadingTimeByRuns | src/lib/utils.ts:16-21 | the minutes are `ceil((runs + 1) / 200)`, and the empty text takes one minute |
| PostOrder.InsertPermutes | src/lib/utils.ts:35-37 | inserting a post adds that post and loses none |
| PostOrder.SortedIsPermutation | src/lib/utils.ts:35-37 | the sorted posts are a permutation of the input |
| PostOrder.SortedIsNewestFirst | src/lib/utils.ts:35-37 | the comparator `b - a` orders posts newest first |
| PostOrder.SortIsStable | src/lib/utils.ts:35-37 | posts published at the same instant keep their input order |
| PostOrder.StableOrderIsUnique | src/lib/utils.ts:35-37 | two newest-first orders with the same posts at every instant are equal, so the stable sort has exactly one possible result |
| PostOrder.InsertLast | src/lib/utils.ts:35-37 | one in-place step shifts the older posts of the sorted prefix right and drops the next post into the gap; the rest of the array is unchanged |
| PostOrder.SortPostsByDate | src/lib/utils.ts:32-38 | the array is sorted in place into the stable newest-first order of its old contents, and that same array is returned |
| Headings.RestAt | src/lib/utils.ts:47 | after `n` marks, `\s+(.+)$` captures non-empty single-line text that follows whitespace starting right after the marks, ends the match, and is followed by a line break or the end of the text |
| Headings.MatchAt | src/lib/utils.ts:47 | a match of `^(#{2,3})\s+(.+)$` has depth 2 or 3, and its text is the rest of the heading line after the marks and the whitespace |
| Headings.MatchAtIsHeadingLine | src/lib/utils.ts:47 | the matcher accepts exactly the lines that open with two or three marks, whitespace, and later a non-line-break character; the depth is the number of marks |
| Headings.OtherMarkCountsIgnored | src/lib/utils.ts:47 | one mark, or four or more, yields no heading |
| Headings.NextMatchIsLeftmost | src/lib/utils.ts:51 | the match `exec` returns is the pattern's match at its own start |
| Headings.NoMatchBefore | src/lib/utils.ts:51 | no match starts between `lastIndex` and the match returned, nor anywhere after `lastIndex` when `exec` returns `null` |
| Headings.Scan | src/lib/utils.ts:51-57 | the matches of successive `exec` calls are valid, start at or after `lastIndex`, and do not overlap, in document order |
| Headings.ScanMatches | src/lib/utils.ts:51-57 | every match of the `exec` loop is the pattern's match at its start |
| Headings.ScanMissesNothing | src/lib/utils.ts:51-57 | every position where the pattern matches lies inside a match the loop returns |
| Headings.HeadingsOfWellFormed | src/lib/utils.ts:52-56 | one heading per match, each with depth 2 or 3, trimmed single-line text, and `slug == slugify(text)` |
| Headings.Outline | src/lib/utils.ts:46-60 | every heading of the outline is well formed in that sense |
| Headings.ExtractHeadings | src/lib/utils.ts:46-60 | the `exec` loop returns the outline, in document order |
| Faq.FirstFaqHeading | src/lib/utils.ts:71-72 | the FAQ heading found is the leftmost line `## FAQ`, `## Frequently Asked Questions` or `## Common Questions` (any case), and there is none only when no line qualifies |
| Faq.FaqSection | src/lib/utils.ts:71-86 | the FAQ section, when there is one, is a non-empty span of the document |
| Faq.SectionEndIsNextMark | src/lib/utils.ts:83-86 | the section opened by the heading holds no other `##` line and ends at the next one, or at the end of the document |
| Faq.FaqSectionBounds | src/lib/utils.ts:71-86 | there is an FAQ section exactly when there is an FAQ heading; it starts at the first one and ends at the next section mark |
| Faq.LastBlankLineIsLast | src/lib/utils.ts:90 | greedy `\s*` gives back as little as possible: no blank line follows the one used inside the whitespace run, and none is used only when the run has none |
| Faq.ParagraphShape | src/lib/utils.ts:90 | the answer paragraph has no `*`, ends in an answer character and never holds two consecutive line feeds |
| Faq.ParagraphIsMaximal | src/lib/utils.ts:90 | the answer paragraph extends as far as `(?:\n(?!\*\*)[^\n*]+)*` can reach |
| Faq.QAAt | src/lib/utils.ts:90 | a match of the question/answer pattern starts where it was tried and ends inside the text |
| Faq.QAAtSpans | src/lib/utils.ts:90 | the question is the text between the opening and closing `**`; whitespace ending in `\n\n` follows; the answer is the text from there to the end of the match |
| Faq.QAAtAccepts | src/lib/utils.ts:90 | the matcher accepts exactly where `**`, a `*`-free question ending in `?`, `**`, whitespace, a blank line and an answer character follow one another |
| Faq.QAAtShaped | src/lib/utils.ts:90 | a match has a question of at least two characters, ending in `?`, without `*`, and an answer paragraph of that shape |
| Faq.NextQAIsLeftmost | src/lib/utils.ts:93 | the match `exec` returns is the pattern's match at its own start |
| Faq.NoQABefore | src/lib/utils.ts:93 | no match starts between `lastIndex` and the match returned, nor anywhere after `lastIndex` when `exec` returns `null` |
| Faq.ScanQAMatches | src/lib/utils.ts:93-100 | every match of the `exec` loop is the pattern's match at its start |
| Faq.ScanQAMissesNothing | src/lib/utils.ts:93-100 | every position where the pattern matches lies inside a match the loop returns |
| Faq.QuestionNeverBlank | src/lib/utils.ts:94-97 | the trimmed question is never empty, so the `question &&` test never drops a pair |
| Faq.KeptUnlessBlankAnswer | src/lib/utils.ts:95-98 | a match is dropped exactly when its answer is all whitespace |
| Faq.FaqItems | src/lib/utils.ts:67-103 | pairs are only found inside an FAQ section |
| Faq.FaqItemsWellFormed | src/lib/utils.ts:67-103 | every pair has a trimmed question ending in `?` without `*`, and a trimmed non-empty answer without `*` and without two consecutive line feeds |
| Faq.NoFaqHeadingNoItems | src/lib/utils.ts:74-76 | without an FAQ heading there are no pairs |
| Faq.ExtractFAQ | src/lib/utils.ts:67-103 | the `exec` loop returns the pairs of the FAQ section, in document order |
| Reviews.ScoreLabelLoweredIsLower | src/lib/utils.ts:118 | comparing with the lowered label is the `i`-flag comparison with the label |
| Reviews.ScoreRowAt | src/lib/utils.ts:118 | a score row matched at a position is laid out there: a bar, whitespace, `Overall Quality Score` in any case, whitespace, a bar, then the group, which holds no bar or line break and is closed by the next bar |
| Reviews.ScoreRowAtAccepts | src/lib/utils.ts:118 | conversely, wherever such a row is laid out, the pattern matches at its opening bar and captures exactly its cell |
| Reviews.FirstScoreRow | src/lib/utils.ts:118-119 | the row found starts inside the text, at or after where the search began |
| Reviews.FirstScoreRowIsLeftmost | src/lib/utils.ts:118-119 | `match` returns the pattern's match at the row's own start |
| Reviews.NoScoreRowBefore | src/lib/utils.ts:118-119 | no score row starts before the one returned, nor anywhere when none is returned |
| Reviews.LastCandidateIsNearest | src/lib/utils.ts:135-142 | the header row is the candidate nearest the score row, and there is none only when no line of the window qualifies |
| Reviews.FindHeaderRow | src/lib/utils.ts:134-142 | the backward loop with `break` finds that nearest candidate within the last ten lines |
| Reviews.NonBlankCells | src/lib/utils.ts:149 | after `trim` and the truthiness filter every cell is non-empty, trimmed and free of `|` |
| Reviews.CellsShape | src/lib/utils.ts:149-153 | every cell of a split row is non-empty, trimmed and free of `|` |
| Reviews.OneCellWithoutBar | src/lib/utils.ts:153 | a captured group without `|` gives at most one rating cell |
| Reviews.RatingAt | src/lib/utils.ts:162 | a rating has a non-empty value of digits and dots and a non-empty scale of digits; the value is the text at the match position, `/` follows it, the scale is the text after the `/`, and no further digit follows the scale |
| Reviews.RatingAtAccepts | src/lib/utils.ts:162 | wherever a run of digits and dots is followed by `/` and a digit, the pattern matches there with that whole run as the value |
| Reviews.FirstRating | src/lib/utils.ts:162 | the rating found has a non-empty value of digits and dots and a non-empty scale of digits |
| Reviews.FirstRatingIsLeftmost | src/lib/utils.ts:162 | `match` returns the rating at the first position where `([\d.]+)\/(\d+)` matches |
| Reviews.NoRatingAnywhere | src/lib/utils.ts:162-164 | `match` returns `null` only when the pattern matches nowhere |
| Reviews.FirstRatingFound | src/lib/utils.ts:162 | whatever `match` returns is the rating at some position |
| Reviews.DecimalValueOfDigits | src/lib/utils.ts:166 | `parseInt` reads back the decimal digits of every number |
| Reviews.RemoveDoubleStarsKeepsText | src/lib/utils.ts:173 | every character other than `*` comes through, in order and with its repetitions: only stars are removed |
| Reviews.NoDoubleStarLeft | src/lib/utils.ts:173 | after `replace(/\*\*/g, '')` no `**` is left |
| Reviews.RemoveDoubleStarsIdentity | src/lib/utils.ts:173 | text without `**` is unchanged |
| Reviews.RemoveDoubleStarsIdempotent | src/lib/utils.ts:173 | removing `**` twice is the same as once |
| Reviews.MentionAt | src/lib/utils.ts:170-171 | a mention matched at a position is laid out there: `**`, the name in any case, text without `*` up to `**`, then text without `.` up to the `.` that ends the match |
| Reviews.MentionAtAccepts | src/lib/utils.ts:170-171 | conversely, wherever such a bold mention of the name is laid out, the pattern matches there and ends at that first `.` |
| Reviews.FirstMention | src/lib/utils.ts:170-171 | the mention found lies inside the text, at or after where the search began, and ends in `.` |
| Reviews.FirstMentionIsLeftmost | src/lib/utils.ts:170-171 | `match` returns the leftmost bold mention of the name, and none only when no position matches |
| Reviews.ReviewBody | src/lib/utils.ts:169-174 | the body is left unmodelled exactly when the name holds a regular-expression syntax character |
| Reviews.ReviewBodyShape | src/lib/utils.ts:169-174 | a body found is `''`, or text without `**` ending in `.`; for a name without regex syntax it is `''` exactly when the name has no bold mention |
| Reviews.ReviewItems | src/lib/utils.ts:113-187 | every item has a non-empty name, a non-empty rating value and worst rating 1 |
| Reviews.ExtractReviews | src/lib/utils.ts:113-187 | the extraction loop returns the review items of the document, in column order |
| Reviews.AtMostOneReview | src/lib/utils.ts:118-126 | the lazy capture stops at the first `|`, so at most one item is returned |
| Reviews.NoScoreRowNoReviews | src/lib/utils.ts:119-123 | without a score row there are no items |
| Reviews.NoHeaderNoReviews | src/lib/utils.ts:135-146 | without a header candidate among the ten lines before the score row there are no items |
| Reviews.NoRatingNoReviews | src/lib/utils.ts:162-164 | without a rating in the score cell there are no items |
| Reviews.ReviewFacts | src/lib/utils.ts:149-182 | an item returned names the header's first item column and carries the leftmost rating of the score cell, its scale's value, worst rating 1 and the body looked up for its name |
| Vocabulary.PostFiles | src/lib/data.ts:26 | the post files are exactly the listed names ending in `.mdx` or `.md` |
| Vocabulary.FrontMatter | src/lib/data.ts:33 | the front matter found is the text between a leading `---\n` and a following `\n---` |
| Vocabulary.FrontMatterIsShortest | src/lib/data.ts:33 | the front matter is the text after a leading `---\n` up to the first `\n---` |
| Vocabulary.CategoryAt | src/lib/data.ts:35 | a category match at a position captures a non-empty value without quotes or line feeds, which is the text of the front matter after `category:` and nothing but whitespace and quotes, and which no further value character follows |
| Vocabulary.CategoryAtAccepts | src/lib/data.ts:35 | conversely, wherever `category:` is followed by whitespace, quotes and a value character, the pattern matches there; when the whitespace ends where the quotes begin, the value is the run of value characters after the quotes |
| Vocabulary.FirstCategory | src/lib/data.ts:35 | the category found is a non-empty value without quotes or line feeds |
| Vocabulary.FirstCategoryIsLeftmost | src/lib/data.ts:35 | `match` returns the category at the first position where the pattern matches |
| Vocabulary.NoCategoryAnywhere | src/lib/data.ts:35-37 | `match` returns `null` only when the pattern matches nowhere |
| Vocabulary.FirstCategoryFound | src/lib/data.ts:35 | whatever `match` returns is the category at some position |
| Vocabulary.BlankCategoryEntry | src/lib/data.ts:35-38 | a `category:` entry holding only whitespace and quotes before its line ends matches exactly when a whitespace character other than a line feed follows the colon, and its value then trims to `''` |
| Vocabulary.BlankCategoryDeclared | src/lib/data.ts:35-38 | a post whose front matter is `category: ` declares the empty category name |
| Vocabulary.FileCategory | src/lib/data.ts:33-38 | a declared category is trimmed and holds no quote and no line feed |
| Vocabulary.TagsAt | src/lib/data.ts:85 | a tags match at a position captures a non-empty list without `]`, which is the text between the `[` that follows `tags:` and whitespace, and the next `]` |
| Vocabulary.TagsAtAccepts | src/lib/data.ts:85 | conversely, wherever `tags:`, whitespace, `[`, a non-empty list without `]` and `]` follow one another, the pattern matches there and captures that list |
| Vocabulary.FirstTags | src/lib/data.ts:85 | the list found is non-empty and holds no `]` |
| Vocabulary.FirstTagsIsLeftmost | src/lib/data.ts:85 | `match` returns the list at the first position where the pattern matches |
| Vocabulary.NoTagsAnywhere | src/lib/data.ts:85-86 | `match` returns `null` only when the pattern matches nowhere |
| Vocabulary.FirstTagsFound | src/lib/data.ts:85 | whatever `match` returns is the list at some position |
| Vocabulary.TagPiece | src/lib/data.ts:87 | a tag holds no quote and only characters of its list piece, and keeps every non-quote character of the trimmed piece; by `Text.FilterAppend`, exactly the quote characters of the trimmed piece are removed, the rest kept in order |
| Vocabulary.FileTags | src/lib/data.ts:83-87 | a file declares tags only through the first tags list of its front matter, one tag per comma-separated piece |
| Vocabulary.FileTagsShape | src/lib/data.ts:85-87 | a declared tag holds no quote, comma or `]` |
| Vocabulary.FileCategoryValues | src/lib/data.ts:30-44 | one listed file adds its declared category, or nothing when it cannot be read or declares none |
| Vocabulary.CategoryValuesFromFiles | src/lib/data.ts:30-44 | a value is gathered exactly when some readable listed post file declares it |
| Vocabulary.TagValuesFromFiles | src/lib/data.ts:80-94 | a tag is gathered exactly when some readable listed post file declares it |
| Vocabulary.ValuesIgnoreOtherFiles | src/lib/data.ts:26-32 | what a non-post file holds never changes the gathered values |
| Vocabulary.Dedup | src/lib/data.ts:28 | the insertion-ordered set holds exactly the values added to it |
| Vocabulary.DedupDistinct | src/lib/data.ts:28 | the insertion-ordered set holds no value twice |
| Vocabulary.DedupFirstSeenOrder | src/lib/data.ts:47 | the set lists values in the order of their first insertion |
| Vocabulary.Normalize | src/lib/data.ts:48 | an identifier holds no whitespace and no upper-case letter |
| Vocabulary.NormalizeIdempotent | src/lib/data.ts:48 | normalizing an identifier gives it back |
| Vocabulary.Records | src/lib/data.ts:47-51 | one record per name, in order, named by it, whose `id` and `slug` agree and hold no whitespace and no upper-case letter |
| Vocabulary.Categories | src/lib/data.ts:21-66 | the category list is never empty |
| Vocabulary.AddAll | src/lib/data.ts:88 | `forEach(add)` extends the insertion-ordered set by the new values, in order |
| Vocabulary.GetCategories | src/lib/data.ts:21-66 | the procedure returns the categories of the listing and contents |
| Vocabulary.GetTags | src/lib/data.ts:72-108 | the procedure returns the tags of the listing and contents |
| Vocabulary.RecordsOfValues | src/lib/data.ts:47-51 | the records are one per distinct value, in first-seen order, each with `id == slug ==` the normalized name |
| Vocabulary.CategoriesDefaultWhenNoneDeclared | src/lib/data.ts:53-64 | the three defaults are returned when the directory cannot be listed or no readable post file declares a category |
| Vocabulary.Tags | src/lib/data.ts:72-108 | every tag's `id` and `slug` agree and hold no whitespace and no upper-case letter |
| Vocabulary.NoTagsWhenUnlisted | src/lib/data.ts:104-107 | no tag is returned when the directory cannot be listed |
| Vocabulary.CategoriesAreDeclared | src/lib/data.ts:28-51 | otherwise every category is declared by a readable post file, every declared name is present, and no name appears twice |
| Vocabulary.TagsAreDeclared | src/lib/data.ts:78-103 | every tag is declared by a readable post file and no tag appears twice |
| Vocabulary.DeclaredTagsListed | src/lib/data.ts:85-88 | every tag a readable post file declares is among the tags |
| Vocabulary.OnlyPostFilesRead | src/lib/data.ts:26 | what a non-post file holds changes neither vocabulary |

## Left out

- `cn` and `formatDate` in `src/lib/utils.ts` wrap third-party class merging and `Intl` date formatting. The JSON loaders and other functions of `src/lib/data.ts` are pass-through I/O. None of these is modelled.
- Characters are ASCII: `\s`, `\w`, `toLowerCase` and the `i` flag are modelled on ASCII. Unicode whitespace such as U+00A0, non-ASCII case folding, and UTF-8 decoding are not modelled.
- Reviews.ExtractReviews: `ratingValue` is kept as the matched `[\d.]+` text. `parseFloat`, including `NaN` for a value such as `.` and the dropped text after a second dot, is not modelled. `bestRating` is the exact decimal value of its digits, without 64-bit float rounding.
- Reviews.ReviewBody: for a product name holding a regular-expression syntax character, the body is the marker `NotModelled`. Compiling such a name into a `RegExp` (including the exception an unbalanced name would throw) is not modelled.
- PostOrder.SortPostsByDate: the engine's sorting algorithm is modelled as an insertion sort. Only its observable result is fixed: the stable newest-first order, which `StableOrderIsUnique` shows is unique. Publish dates are integers of milliseconds, so invalid dates (`NaN`) and their comparator behaviour are not modelled.
- Vocabulary: the file system is a parameter. The listing is `None` when `readdir` fails. The contents are a map in which a missing name is a failed read. `path.join`, `process.cwd()`, `async` scheduling and `console.error` are not modelled.
- Vocabulary.DefaultCategories: that the three default records already have normalized `id`s and `slug`s is not proved. They are constants of the source, copied as written.
