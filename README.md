# English–Chinese paragraph alignment, modelled in Dafny

`script.py` reads an English and a Chinese PDF and splits each text into
paragraphs with `re.split(r'\n\n+|\r\n\r\n+', text)`. It then pairs an English
paragraph with the first Chinese paragraph whose average sentence-level BLEU
overlap is highest, provided that score is above 0 and that paragraph is not
empty; any other English paragraph gives no pair. The pairs are written to
`output.csv` and `output.xlsx`.

This project models the two parts of `main` that hold logic:

- `ParagraphSplit` (`paragraph_split.dfy`) is the paragraph splitter. The
  regular expression becomes a deterministic left-to-right scanner, `Scan`. At
  each position it first tries `\n\n+`, then `\r\n\r\n+`. Both are greedy, and
  everything else stays in the current paragraph. `Split` is the list `re.split`
  returns. `Separators` is the list of text the scanner consumed between
  paragraphs.
- `Scoring` (`scoring.dfy`) is the score of one paragraph pair. For each source
  sentence it takes the maximum score over the target sentences, or 0 when there
  are none. It then averages those maxima, or gives 0 when there is no source
  sentence.
- `Selection` (`selection.dfy`) is the running choice of the best target. It
  starts at threshold 0.0 with no paragraph, and a later candidate replaces the
  current one only with a strictly greater score.
- `Aligner` (`aligner.dfy`) holds the nested loops of `main` as methods:
  `ScorePair` (lines 42-56), `BestMatch` (lines 36-61), `Align` (lines 30-65) and
  `AlignTexts` (lines 24-65). `ScorePair` is proved to return the average of the
  per-sentence maxima (`Average(SentenceMaxima(...))`, which is `PairScore` of the
  paragraph pair once the source paragraph is tokenized); `BestMatch` is proved
  equal to `Running` over the pair scores, and `Align` to `Alignment`. The lemmas
  then state what those functions mean.
- `Wrappers` (`wrappers.dfy`) holds the `Option` type that stands for Python's
  `None`.

The sentence tokenizer (`sent_tokenize`) and the BLEU metric
(`bleu_score.sentence_bleu`, applied to whitespace-split tokens) are foreign
code. They are parameters here: `tokenize: string -> seq<string>` and
`score: (string, string) -> real`, where `score(e, c)` is the value for target
sentence `c` against source sentence `e`. Nothing is assumed about either, not
even that BLEU lies in [0, 1]. The bounds lemmas take the range as a hypothesis.

Two consequences of the pattern are easy to miss:

- An empty text is not zero paragraphs. `re.split` returns `[""]`, one empty
  paragraph (`SingleParagraphIffNoSeparator`, `EmptyEnglishTextNoRows`). An empty
  English text still yields no rows when the tokenizer finds no sentence in `""`.
- Blank lines count as separators only in the two forms the pattern names: a run
  of two or more `\n`, or `\r\n\r` followed by a run of `\n`. So
  `"\r\n\r\n\r\n"` splits into `["", "\r\n"]` (`CrLfTripleSplitsInTwo`), and a
  lone-`\r` convention is never split.

## Model

| member | source | states |
|---|---|---|
| ParagraphSplit.NewlineRun | script.py:24 | the run of line feeds `\n+` fits in the text and is non-empty when the text starts with `\n` |
| ParagraphSplit.NewlineRunIsMaximalRun | script.py:24 | the greedy `\n+`: every character of the run is `\n`, and the character after it is not |
| ParagraphSplit.SeparatorLength | script.py:24 | the pattern matches at a position (length > 0) exactly when the text there starts with `"\n\n"` or `"\r\n\r\n"` |
| ParagraphSplit.SeparatorLengthMatches | script.py:24 | a match is a whole word of `\n\n+` or `\r\n\r\n+`, and it is never followed by `\n` (greedy) |
| ParagraphSplit.Scan | script.py:24 | the scan yields exactly one more paragraph than separators |
| ParagraphSplit.Split | script.py:24 | `re.split` always returns at least one paragraph |
| ParagraphSplit.Separators | script.py:27 | the number of paragraphs is the number of separators plus one |
| ParagraphSplit.SplitLossless | script.py:24 | interleaving the paragraphs with the consumed separators gives back the input exactly, untrimmed |
| ParagraphSplit.SeparatorsMatchPattern | script.py:24 | every consumed separator is a whole word of the pattern `\n\n+` or `\r\n\r\n+` |
| ParagraphSplit.ParagraphsHaveNoSeparator | script.py:24 | no paragraph contains `"\n\n"` or `"\r\n\r\n"` anywhere |
| ParagraphSplit.SeparatorsAreMaximal | script.py:24 | a non-empty paragraph that follows a separator does not start with `\n`, because each match swallows the whole run |
| ParagraphSplit.FirstParagraphEndsAtFirstMatch | script.py:24 | the leftmost-match rule (`SplitsAtFirstMatch`): when m is the first position where the pattern matches (or the end of the text), the first paragraph is exactly the text before m, the first separator is the match at m, and the remaining paragraphs and separators are those of the text after it; with no match the text is the only paragraph |
| ParagraphSplit.SplitAtSeparator | script.py:24 | helper of `FirstParagraphEndsAtFirstMatch`: where the pattern matches at the start, the split is an empty paragraph, that match, then the split of the rest |
| ParagraphSplit.SplitAtCharacter | script.py:24 | helper of `FirstParagraphEndsAtFirstMatch`: where it does not match, the first character joins the first paragraph of the split of the rest |
| ParagraphSplit.SingleParagraphIffNoSeparator | script.py:24 | exactly one paragraph comes out iff the text contains no separator, and that paragraph is then the whole text (so `""` gives `[""]`) |
| ParagraphSplit.CrLfTripleSplitsInTwo | script.py:27 | `"\r\n\r\n\r\n"` splits into `["", "\r\n"]` with the one separator `"\r\n\r\n"` |
| Scoring.Sum | script.py:56 | Python's `sum`; no contract of its own, its meaning is stated by `SumBounds` (helper) and `AverageWithin` |
| Scoring.Average | script.py:56 | `sum / len`, or 0 for an empty list; no contract of its own, its meaning is stated by `AverageWithin` and `AverageBetween` |
| Scoring.SentenceScores | script.py:47-50 | the list comprehension of one source sentence's scores; no contract of its own, its meaning is stated by `BestSentenceScore` |
| Scoring.SentenceMaxima | script.py:46-53 | the list `bleu_scores`, one maximum per source sentence; no contract of its own, its meaning is stated by `PairScoreZeroCases`, `PairScoreBetweenMaxima` and `Aligner.ScorePair` |
| Scoring.PairScore | script.py:42-56 | `avg_bleu_score` of one paragraph pair; no contract of its own, its meaning is stated by `PairScoreZeroCases`, `PairScoreBetweenMaxima`, `PairScoreWithin` and `PairScoreSingleSentences` |
| Scoring.Max | script.py:52 | `max` of a non-empty list is a member of the list that no member exceeds |
| Scoring.BestSentenceScore | script.py:47-52 | the best score of one source sentence: 0 with no target sentences, otherwise the score against some target sentence that is at least its score against every target sentence |
| Scoring.AverageWithin | script.py:56 | an average of values in [lo, hi] lies in [lo, hi] |
| Scoring.AverageBetween | script.py:56 | a non-empty average lies between the smallest and the largest value averaged |
| Scoring.PairScoreZeroCases | script.py:47-56 | the pair score is 0 when the source paragraph has no sentences or the target paragraph has none |
| Scoring.PairScoreBetweenMaxima | script.py:52-56 | with at least one source sentence, the pair score lies between the smallest and the largest per-sentence maximum |
| Scoring.PairScoreWithin | script.py:47-56 | if every sentence pair of the two paragraphs scores in [lo, hi], so does the pair, given 0 in [lo, hi] or sentences on both sides |
| Scoring.PairScoreSingleSentences | script.py:47-56 | between two one-sentence paragraphs the pair score is that sentence pair's score |
| Selection.Running | script.py:36-61 | the kept score is 0.0 while nothing is chosen, and otherwise is the score of the chosen candidate, which is one of those seen |
| Selection.RunningIsFirstArgmax | script.py:36-61 | nothing is chosen iff no score exceeds 0.0; otherwise the chosen index is exactly the earliest position of the maximum, both directions, so later ties never replace it |
| Aligner.PairScores | script.py:40-56 | the score of one source paragraph against each target paragraph, in order; no contract of its own, its meaning is stated by `BestMatch`, `RowForNoPositiveScore` and `RowForChoosesFirstArgmax` |
| Aligner.RowFor | script.py:36-65 | the row, if any, one source paragraph yields; no contract of its own, its meaning is stated by `RowForNoPositiveScore`, `RowForChoosesFirstArgmax` and `RowForShape` |
| Aligner.ScorePair | script.py:42-56 | the loop over source sentences builds the list of per-sentence maxima, and the result is its average |
| Aligner.BestMatch | script.py:36-61 | the loop over target paragraphs ends with the running strict maximum from 0.0 and the paragraph at its index, or `None` |
| Aligner.Collect | script.py:33-65 | the loop that appends at most one row per source paragraph yields at most as many rows as source paragraphs |
| Aligner.CollectInSourceOrder | script.py:33-65 | collected row r belongs to source paragraph idx[r]; the idx are strictly increasing; a source paragraph is among them iff it yields a row |
| Aligner.Alignment | script.py:30-65 | there are at most as many rows as source paragraphs |
| Aligner.Align | script.py:30-65 | the nested loops produce exactly the specified alignment rows |
| Aligner.AlignTexts | script.py:24-65 | splitting both texts and then aligning gives the specified rows, at most one per English paragraph |
| Aligner.RowForNoPositiveScore | script.py:36-64 | a source paragraph gives no row when no target paragraph scores above 0.0 |
| Aligner.RowForChoosesFirstArgmax | script.py:59-65 | when target k is the earliest best and scores above 0.0, the row pairs the source paragraph with target k, or there is no row when target k is the empty string |
| Aligner.RowForShape | script.py:64-65 | any row pairs the source paragraph with a non-empty target paragraph |
| Aligner.NoSentencesNoRow | script.py:35-65 | a source paragraph with no sentences produces no row |
| Aligner.AlignmentInSourceOrder | script.py:33-65 | row r belongs to source paragraph idx[r]; the idx are strictly increasing; a source paragraph is among them iff it produces a row |
| Aligner.RowsComeFromInputs | script.py:33-65 | every row's first element is a source paragraph and its second is a non-empty target paragraph |
| Aligner.OneToOneExample | script.py:33-65 | with one-sentence paragraphs and a scorer that gives 1.0 to the matching pairs and 0.0 to the others, two English paragraphs pair first with first and second with second |
| Aligner.EmptyEnglishTextNoRows | script.py:24-65 | an empty English text is one empty paragraph, and it produces no rows when the tokenizer finds no sentence in it |

## Left out

- PDF text extraction with `extract_text` (script.py:20-21): file I/O through a foreign library. The texts are parameters of `AlignTexts`.
- `nltk.download('punkt')` (script.py:10): a network download at module load.
- The internals of `sent_tokenize` (script.py:35, 42): a foreign model. It is the uninterpreted parameter `tokenize`.
- The internals of `bleu_score.sentence_bleu` and the `.split()` that feeds it (script.py:48): a foreign floating-point metric. It is the uninterpreted parameter `score`, with no range assumed.
- Scoring.Average: scores are exact reals, so the IEEE rounding of `sum(...) / len(...)` (script.py:56) is not modelled.
- Scoring.Max: Python's `max` returns the first maximal element; the model keeps only its value, which is all the script uses.
- The DataFrame construction and the CSV/XLSX export (script.py:68-70): output I/O. The rows they would write are the result of `Align`.
- The completion message (script.py:71): console output. It names `paired_paragraphs.csv` and `paired_paragraphs.xlsx`, while the files written are `output.csv` and `output.xlsx`.
- Idempotence across runs: every operation here is a mathematical function of its inputs, so two runs on the same texts trivially agree. No separate lemma is stated.
