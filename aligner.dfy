/**
 * The greedy paragraph aligner of script.py lines 30-65: for each source
 * (English) paragraph, in order, score every target (Chinese) paragraph, keep the
 * first one with the strictly highest score above 0.0, and emit the pair when the
 * kept paragraph is truthy (not `None` and not the empty string).
 */
module Aligner {
  import opened Wrappers
  import opened Scoring
  import opened Selection
  import ParagraphSplit

  /** One output row: (`eng_paragraph`, `best_chi_paragraph`). */
  datatype AlignedPair = AlignedPair(english: string, chinese: string)

  /** The score of source paragraph `ep` against each target paragraph, in order. */
  function PairScores(tokenize: string -> seq<string>, score: (string, string) -> real,
                      ep: string, cps: seq<string>): seq<real>
  {
    seq(|cps|, j requires 0 <= j < |cps| => PairScore(tokenize, score, ep, cps[j]))
  }

  /** The row, if any, that source paragraph `ep` contributes. */
  function RowFor(tokenize: string -> seq<string>, score: (string, string) -> real,
                  ep: string, cps: seq<string>): Option<AlignedPair>
  {
    match Running(PairScores(tokenize, score, ep, cps)).choice
    case None => None
    case Some(k) => if cps[k] != "" then Some(AlignedPair(ep, cps[k])) else None
  }

  /**
   * What each source paragraph contributes, as one function of the paragraph.
   * It is named so that `Alignment` is an instance of the generic `Collect`, whose
   * order lemma `CollectInSourceOrder` is then proved without `RowFor`'s
   * definition in its context.
   */
  function RowOf(tokenize: string -> seq<string>, score: (string, string) -> real,
                 cps: seq<string>): string -> Option<AlignedPair>
  {
    ep => RowFor(tokenize, score, ep, cps)
  }

  /**
   * The rows of the loop `for ep in eps: if rowOf(ep) is a row: append it`, for any
   * `rowOf`; at most one row per source paragraph.
   */
  function Collect(rowOf: string -> Option<AlignedPair>, eps: seq<string>): (rows: seq<AlignedPair>)
    ensures |rows| <= |eps|
    decreases |eps|
  {
    if eps == [] then []
    else
      var last := |eps| - 1;
      var prev := Collect(rowOf, eps[..last]);
      match rowOf(eps[last])
      case None => prev
      case Some(row) => prev + [row]
  }

  /** The list `paired_paragraphs` after the source paragraphs `eps` were processed. */
  function Alignment(tokenize: string -> seq<string>, score: (string, string) -> real,
                     eps: seq<string>, cps: seq<string>): (rows: seq<AlignedPair>)
    ensures |rows| <= |eps|
  {
    Collect(RowOf(tokenize, score, cps), eps)
  }

  /**
   * The innermost loop and the average of script.py lines 42-56: the score of
   * one paragraph pair, `avg_bleu_score`.
   */
  method ScorePair(tokenize: string -> seq<string>, score: (string, string) -> real,
                   engSentences: seq<string>, chiParagraph: string)
    returns (avgBleuScore: real)
    ensures avgBleuScore == Average(SentenceMaxima(score, engSentences, tokenize(chiParagraph)))
  {
    var chiSentences := tokenize(chiParagraph);
    var bleuScores: seq<real> := [];
    for k := 0 to |engSentences|
      invariant bleuScores == SentenceMaxima(score, engSentences[..k], chiSentences)
    {
      var maxBleuScorePerSentence := BestSentenceScore(score, engSentences[k], chiSentences);
      bleuScores := bleuScores + [maxBleuScorePerSentence];
    }
    assert engSentences[..|engSentences|] == engSentences;
    avgBleuScore := Average(bleuScores);
  }

  /**
   * The loop over target paragraphs of script.py lines 36-61: the running
   * strict maximum from 0.0, with the paragraph that reached it.
   */
  method BestMatch(tokenize: string -> seq<string>, score: (string, string) -> real,
                   engParagraph: string, chineseParagraphs: seq<string>)
    returns (bestBleuScore: real, bestChiParagraph: Option<string>)
    ensures var leader := Running(PairScores(tokenize, score, engParagraph, chineseParagraphs));
      && bestBleuScore == leader.best
      && bestChiParagraph == match leader.choice
                             case None => None
                             case Some(k) => Some(chineseParagraphs[k])
  {
    var engSentences := tokenize(engParagraph);
    bestBleuScore := 0.0;
    bestChiParagraph := None;
    ghost var scores := PairScores(tokenize, score, engParagraph, chineseParagraphs);
    for j := 0 to |chineseParagraphs|
      invariant Running(scores[..j]).best == bestBleuScore
      invariant bestChiParagraph == match Running(scores[..j]).choice
                                    case None => None
                                    case Some(k) => Some(chineseParagraphs[k])
    {
      var chiParagraph := chineseParagraphs[j];
      var avgBleuScore := ScorePair(tokenize, score, engSentences, chiParagraph);
      assert avgBleuScore == scores[j];
      assert scores[..j + 1][..j] == scores[..j];
      assert scores[..j + 1][j] == scores[j];
      if avgBleuScore > bestBleuScore {
        bestBleuScore := avgBleuScore;
        bestChiParagraph := Some(chiParagraph);
      }
    }
    assert scores[..|chineseParagraphs|] == scores;
  }

  /** `main`'s loop over the source paragraphs (script.py lines 30-65), with I/O left out. */
  method Align(tokenize: string -> seq<string>, score: (string, string) -> real,
               englishParagraphs: seq<string>, chineseParagraphs: seq<string>)
    returns (pairedParagraphs: seq<AlignedPair>)
    ensures pairedParagraphs == Alignment(tokenize, score, englishParagraphs, chineseParagraphs)
  {
    pairedParagraphs := [];
    for i := 0 to |englishParagraphs|
      invariant pairedParagraphs == Alignment(tokenize, score, englishParagraphs[..i], chineseParagraphs)
    {
      var engParagraph := englishParagraphs[i];
      var _, bestChiParagraph := BestMatch(tokenize, score, engParagraph, chineseParagraphs);
      assert englishParagraphs[..i + 1][..i] == englishParagraphs[..i];
      if bestChiParagraph.Some? && bestChiParagraph.value != "" {
        pairedParagraphs := pairedParagraphs + [AlignedPair(engParagraph, bestChiParagraph.value)];
      }
    }
    assert englishParagraphs[..|englishParagraphs|] == englishParagraphs;
  }

  /** A source paragraph gives no row when no target paragraph scores above 0.0. */
  lemma RowForNoPositiveScore(tokenize: string -> seq<string>, score: (string, string) -> real,
                              ep: string, cps: seq<string>)
    requires forall j :: 0 <= j < |cps| ==> PairScore(tokenize, score, ep, cps[j]) <= 0.0
    ensures RowFor(tokenize, score, ep, cps) == None
  {
    var scores := PairScores(tokenize, score, ep, cps);
    RunningIsFirstArgmax(scores);
    assert forall j :: 0 <= j < |cps| ==> scores[j] == PairScore(tokenize, score, ep, cps[j]);
  }

  /**
   * Otherwise the row pairs the source paragraph with the earliest best target,
   * unless that target is the empty string, which is falsy in Python.
   */
  lemma RowForChoosesFirstArgmax(tokenize: string -> seq<string>, score: (string, string) -> real,
                                 ep: string, cps: seq<string>, k: nat)
    requires IsFirstArgmax(PairScores(tokenize, score, ep, cps), k)
    ensures RowFor(tokenize, score, ep, cps) == if cps[k] != "" then Some(AlignedPair(ep, cps[k])) else None
  {
    RunningIsFirstArgmax(PairScores(tokenize, score, ep, cps));
  }

  /** Any row pairs the source paragraph with a non-empty target paragraph. */
  lemma RowForShape(tokenize: string -> seq<string>, score: (string, string) -> real,
                    ep: string, cps: seq<string>)
    requires RowFor(tokenize, score, ep, cps).Some?
    ensures RowFor(tokenize, score, ep, cps).value.english == ep
    ensures RowFor(tokenize, score, ep, cps).value.chinese in cps
    ensures RowFor(tokenize, score, ep, cps).value.chinese != ""
  {
  }

  /** A source paragraph with no sentences never produces a row. */
  lemma NoSentencesNoRow(tokenize: string -> seq<string>, score: (string, string) -> real,
                         ep: string, cps: seq<string>)
    requires tokenize(ep) == []
    ensures RowFor(tokenize, score, ep, cps) == None
  {
    forall j | 0 <= j < |cps|
      ensures PairScore(tokenize, score, ep, cps[j]) <= 0.0
    {
      PairScoreZeroCases(tokenize, score, ep, cps[j]);
    }
    RowForNoPositiveScore(tokenize, score, ep, cps);
  }

  /** The positions of the source paragraphs that produce a row, in order. */
  ghost function Emitters(rowOf: string -> Option<AlignedPair>, eps: seq<string>): seq<nat>
    decreases |eps|
  {
    if eps == [] then []
    else
      var last := |eps| - 1;
      Emitters(rowOf, eps[..last]) + if rowOf(eps[last]).Some? then [last] else []
  }

  /**
   * Collecting keeps source order: row r is the row of source paragraph idx[r],
   * the positions idx are strictly increasing, and a position is among them
   * exactly when its paragraph produces a row.
   */
  lemma {:induction false} CollectInSourceOrder(rowOf: string -> Option<AlignedPair>, eps: seq<string>)
    ensures var rows, idx := Collect(rowOf, eps), Emitters(rowOf, eps);
      && |idx| == |rows|
      && (forall r :: 0 <= r < |idx| ==> idx[r] < |eps| && rowOf(eps[idx[r]]) == Some(rows[r]))
      && (forall r, r' :: 0 <= r < r' < |idx| ==> idx[r] < idx[r'])
      && (forall i :: 0 <= i < |eps| ==> (rowOf(eps[i]).Some? <==> i in idx))
    decreases |eps|
  {
    if eps != [] {
      var last := |eps| - 1;
      var init := eps[..last];
      CollectInSourceOrder(rowOf, init);
      assert forall i :: 0 <= i < last ==> init[i] == eps[i];
      var idx0 := Emitters(rowOf, init);
      assert forall r :: 0 <= r < |idx0| ==> idx0[r] < last;
    }
  }

  /**
   * The aligner's output in source order: row r is the row of source paragraph
   * idx[r], the idx are strictly increasing, and a source paragraph is among them
   * exactly when it produces a row.
   */
  lemma {:induction false} AlignmentInSourceOrder(tokenize: string -> seq<string>, score: (string, string) -> real,
                               eps: seq<string>, cps: seq<string>)
    ensures var rows, idx := Alignment(tokenize, score, eps, cps), Emitters(RowOf(tokenize, score, cps), eps);
      && |idx| == |rows|
      && (forall r :: 0 <= r < |idx| ==> idx[r] < |eps| && RowFor(tokenize, score, eps[idx[r]], cps) == Some(rows[r]))
      && (forall r, r' :: 0 <= r < r' < |idx| ==> idx[r] < idx[r'])
      && (forall i :: 0 <= i < |eps| ==> (RowFor(tokenize, score, eps[i], cps).Some? <==> i in idx))
  {
    CollectInSourceOrder(RowOf(tokenize, score, cps), eps);
  }

  /** Every row pairs a source paragraph with a non-empty target paragraph. */
  lemma RowsComeFromInputs(tokenize: string -> seq<string>, score: (string, string) -> real,
                           eps: seq<string>, cps: seq<string>)
    ensures forall row :: row in Alignment(tokenize, score, eps, cps) ==>
      row.english in eps && row.chinese in cps && row.chinese != ""
  {
    var rows := Alignment(tokenize, score, eps, cps);
    AlignmentInSourceOrder(tokenize, score, eps, cps);
    var idx := Emitters(RowOf(tokenize, score, cps), eps);
    forall row | row in rows
      ensures row.english in eps && row.chinese in cps && row.chinese != ""
    {
      var r :| 0 <= r < |rows| && rows[r] == row;
      RowForShape(tokenize, score, eps[idx[r]], cps);
    }
  }

  /**
   * Two source paragraphs, each one sentence, where each scores 1.0 against "its"
   * one-sentence target paragraph and 0.0 against the other, align one to one:
   * first with first, second with second.
   */
  lemma OneToOneExample(tokenize: string -> seq<string>, score: (string, string) -> real,
                        eps: seq<string>, cps: seq<string>)
    requires |eps| == 2 && |cps| == 2 && cps[0] != "" && cps[1] != ""
    requires forall p :: tokenize(p) == [p]
    requires score(eps[0], cps[0]) == 1.0 && score(eps[0], cps[1]) == 0.0
    requires score(eps[1], cps[0]) == 0.0 && score(eps[1], cps[1]) == 1.0
    ensures Alignment(tokenize, score, eps, cps) == [AlignedPair(eps[0], cps[0]), AlignedPair(eps[1], cps[1])]
  {
    forall i, j | 0 <= i < 2 && 0 <= j < 2
      ensures PairScore(tokenize, score, eps[i], cps[j]) == score(eps[i], cps[j])
    {
      assert tokenize(eps[i]) == [eps[i]] && tokenize(cps[j]) == [cps[j]];
      PairScoreSingleSentences(tokenize, score, eps[i], cps[j]);
    }
    assert PairScores(tokenize, score, eps[0], cps) == [1.0, 0.0];
    assert PairScores(tokenize, score, eps[1], cps) == [0.0, 1.0];
    RowForChoosesFirstArgmax(tokenize, score, eps[0], cps, 0);
    RowForChoosesFirstArgmax(tokenize, score, eps[1], cps, 1);
    var rowOf := RowOf(tokenize, score, cps);
    assert eps[..1][..0] == [];
    assert Collect(rowOf, eps[..1]) == [AlignedPair(eps[0], cps[0])];
    assert eps[..2] == eps;
  }

  /**
   * `main` between the text extraction and the export (script.py lines 24-65):
   * split both texts into paragraphs, then align them.
   */
  method AlignTexts(tokenize: string -> seq<string>, score: (string, string) -> real,
                    englishText: string, chineseText: string)
    returns (pairedParagraphs: seq<AlignedPair>)
    ensures pairedParagraphs == Alignment(tokenize, score, ParagraphSplit.Split(englishText), ParagraphSplit.Split(chineseText))
    ensures |pairedParagraphs| <= |ParagraphSplit.Split(englishText)|
  {
    var englishParagraphs := ParagraphSplit.Split(englishText);
    var chineseParagraphs := ParagraphSplit.Split(chineseText);
    pairedParagraphs := Align(tokenize, score, englishParagraphs, chineseParagraphs);
  }

  /**
   * An empty English text is one empty paragraph, not zero paragraphs; it still
   * yields no rows when the tokenizer finds no sentence in "".
   */
  lemma EmptyEnglishTextNoRows(tokenize: string -> seq<string>, score: (string, string) -> real, chineseText: string)
    requires tokenize("") == []
    ensures ParagraphSplit.Split("") == [""]
    ensures Alignment(tokenize, score, ParagraphSplit.Split(""), ParagraphSplit.Split(chineseText)) == []
  {
    var cps := ParagraphSplit.Split(chineseText);
    NoSentencesNoRow(tokenize, score, "", cps);
    assert [""][..0] == [];
  }
}
