/**
 * Paragraph splitting: the effect of `re.split(r'\n\n+|\r\n\r\n+', text)`.
 *
 * The regular expression is modelled as a deterministic left-to-right scanner.
 * At each position the first alternative `\n\n+` is tried, then the second
 * `\r\n\r\n+`; both are greedy, so a match swallows the whole following run of
 * line feeds.  Characters where neither alternative matches stay in the current
 * paragraph.  Neither alternative matches the empty string, so the scanner always
 * makes progress.
 */
module ParagraphSplit {

  /** True when `t` begins with "\n\n", where the first alternative matches. */
  predicate StartsLfLf(t: string) {
    |t| >= 2 && t[0] == '\n' && t[1] == '\n'
  }

  /** True when `t` begins with "\r\n\r\n", where the second alternative matches. */
  predicate StartsCrLfCrLf(t: string) {
    |t| >= 4 && t[0] == '\r' && t[1] == '\n' && t[2] == '\r' && t[3] == '\n'
  }

  /** True when the pattern matches at the start of `t`. */
  predicate StartsSeparator(t: string) {
    StartsLfLf(t) || StartsCrLfCrLf(t)
  }

  /** True when some position of `t` starts a separator. */
  ghost predicate ContainsSeparator(t: string) {
    exists k :: 0 <= k < |t| && StartsSeparator(t[k..])
  }

  /** The language of the pattern `\n\n+|\r\n\r\n+`. */
  ghost predicate IsSeparator(sep: string) {
    || (|sep| >= 2 && forall k :: 0 <= k < |sep| ==> sep[k] == '\n')
    || (&& |sep| >= 4 && sep[0] == '\r' && sep[1] == '\n' && sep[2] == '\r'
        && forall k :: 3 <= k < |sep| ==> sep[k] == '\n')
  }

  /** Length of the run of line feeds at the start of `t`. */
  function NewlineRun(t: string): (n: nat)
    ensures n <= |t|
    ensures t != [] && t[0] == '\n' ==> n > 0
    decreases |t|
  {
    if t != [] && t[0] == '\n' then 1 + NewlineRun(t[1..]) else 0
  }

  /** The run is all line feeds, and it is maximal: the next character is not one. */
  lemma {:induction false} NewlineRunIsMaximalRun(t: string)
    ensures forall k :: 0 <= k < NewlineRun(t) ==> t[k] == '\n'
    ensures NewlineRun(t) < |t| ==> t[NewlineRun(t)] != '\n'
    decreases |t|
  {
    if t != [] && t[0] == '\n' {
      NewlineRunIsMaximalRun(t[1..]);
      assert forall k :: 1 <= k < |t| ==> t[k] == t[1..][k - 1];
    }
  }

  /**
   * Length of the separator matched at the start of `t`, or 0 when the pattern
   * does not match there.
   */
  function SeparatorLength(t: string): (n: nat)
    ensures n <= |t|
    ensures n > 0 <==> StartsSeparator(t)
  {
    if StartsLfLf(t) then NewlineRun(t)
    else if StartsCrLfCrLf(t) then 3 + NewlineRun(t[3..])
    else 0
  }

  /** A match is a whole word of the pattern, and it is greedy: never followed by '\n'. */
  lemma SeparatorLengthMatches(t: string)
    requires StartsSeparator(t)
    ensures IsSeparator(t[..SeparatorLength(t)])
    ensures SeparatorLength(t) < |t| ==> t[SeparatorLength(t)] != '\n'
  {
    if StartsLfLf(t) {
      NewlineRunIsMaximalRun(t);
    } else {
      var u := t[3..];
      NewlineRunIsMaximalRun(u);
      var m := NewlineRun(u);
      var sep := t[..3 + m];
      assert forall k :: 3 <= k < |sep| ==> sep[k] == u[k - 3];
      assert 3 + m < |t| ==> t[3 + m] == u[m];
    }
  }

  /** The paragraphs and the separators between them, in text order. */
  datatype Pieces = Pieces(paragraphs: seq<string>, separators: seq<string>)

  /** The scanner: one step per character or per separator. */
  function Scan(s: string): (r: Pieces)
    ensures |r.paragraphs| == |r.separators| + 1
    decreases |s|
  {
    if s == [] then
      Pieces([""], [])
    else
      var n := SeparatorLength(s);
      if n > 0 then
        var rest := Scan(s[n..]);
        Pieces([""] + rest.paragraphs, [s[..n]] + rest.separators)
      else
        var rest := Scan(s[1..]);
        Pieces([[s[0]] + rest.paragraphs[0]] + rest.paragraphs[1..], rest.separators)
  }

  /** The list `re.split` returns (script.py lines 24 and 27). */
  function Split(s: string): (paragraphs: seq<string>)
    ensures |paragraphs| >= 1
  {
    Scan(s).paragraphs
  }

  /** The separators `re.split` consumed, in text order. */
  function Separators(s: string): (separators: seq<string>)
    ensures |separators| + 1 == |Split(s)|
  {
    Scan(s).separators
  }

  /** Interleaves paragraphs with the separators between them. */
  function Join(paragraphs: seq<string>, separators: seq<string>): string
    requires |paragraphs| == |separators| + 1
    decreases |separators|
  {
    if separators == [] then paragraphs[0]
    else paragraphs[0] + separators[0] + Join(paragraphs[1..], separators[1..])
  }

  lemma JoinPrepend(c: char, paragraphs: seq<string>, separators: seq<string>)
    requires |paragraphs| == |separators| + 1
    ensures Join([[c] + paragraphs[0]] + paragraphs[1..], separators) == [c] + Join(paragraphs, separators)
  {
    var ps := [[c] + paragraphs[0]] + paragraphs[1..];
    assert ps[1..] == paragraphs[1..];
  }

  lemma JoinSeparatorFirst(sep: string, paragraphs: seq<string>, separators: seq<string>)
    requires |paragraphs| == |separators| + 1
    ensures Join([""] + paragraphs, [sep] + separators) == sep + Join(paragraphs, separators)
  {
    var ps, ss := [""] + paragraphs, [sep] + separators;
    assert ps[1..] == paragraphs && ss[1..] == separators;
    assert Join(ps, ss) == ps[0] + ss[0] + Join(paragraphs, separators);
    assert ps[0] + ss[0] == sep;
  }

  /** Splitting is lossless: putting the separators back gives the text, untrimmed. */
  lemma {:induction false} SplitLossless(s: string)
    ensures Join(Split(s), Separators(s)) == s
    decreases |s|
  {
    if s != [] {
      var n := SeparatorLength(s);
      if n > 0 {
        var rest := Scan(s[n..]);
        assert Scan(s) == Pieces([""] + rest.paragraphs, [s[..n]] + rest.separators);
        SplitLossless(s[n..]);
        JoinSeparatorFirst(s[..n], rest.paragraphs, rest.separators);
        assert s == s[..n] + s[n..];
      } else {
        var rest := Scan(s[1..]);
        assert Scan(s) == Pieces([[s[0]] + rest.paragraphs[0]] + rest.paragraphs[1..], rest.separators);
        SplitLossless(s[1..]);
        JoinPrepend(s[0], rest.paragraphs, rest.separators);
        assert s == [s[0]] + s[1..];
      }
    }
  }

  /** Every separator that was consumed is a whole match of the pattern. */
  lemma {:induction false} SeparatorsMatchPattern(s: string)
    ensures forall i :: 0 <= i < |Separators(s)| ==> IsSeparator(Separators(s)[i])
    decreases |s|
  {
    if s != [] {
      var n := SeparatorLength(s);
      if n > 0 {
        SeparatorsMatchPattern(s[n..]);
        SeparatorLengthMatches(s);
        var rest := Separators(s[n..]);
        forall i | 0 <= i < |Separators(s)|
          ensures IsSeparator(Separators(s)[i])
        {
          if i > 0 {
            assert Separators(s)[i] == rest[i - 1];
          }
        }
      } else {
        SeparatorsMatchPattern(s[1..]);
        assert Separators(s) == Separators(s[1..]);
      }
    }
  }

  /** The first paragraph is a prefix of the text. */
  lemma {:induction false} FirstParagraphIsPrefix(s: string)
    ensures Split(s)[0] <= s
    decreases |s|
  {
    if s != [] && SeparatorLength(s) == 0 {
      FirstParagraphIsPrefix(s[1..]);
    }
  }

  lemma StartsSeparatorOfPrefix(p: string, t: string)
    requires p <= t && StartsSeparator(p)
    ensures StartsSeparator(t)
  {
  }

  /** No paragraph contains "\n\n" or "\r\n\r\n": each occurrence was consumed. */
  lemma {:induction false} ParagraphsHaveNoSeparator(s: string)
    ensures forall i :: 0 <= i < |Split(s)| ==> !ContainsSeparator(Split(s)[i])
    decreases |s|
  {
    if s != [] {
      var n := SeparatorLength(s);
      if n > 0 {
        ParagraphsHaveNoSeparator(s[n..]);
        forall i | 0 <= i < |Split(s)|
          ensures !ContainsSeparator(Split(s)[i])
        {
          if i > 0 {
            assert Split(s)[i] == Split(s[n..])[i - 1];
          }
        }
      } else {
        ParagraphsHaveNoSeparator(s[1..]);
        FirstParagraphIsPrefix(s[1..]);
        var rest := Scan(s[1..]);
        var p := [s[0]] + rest.paragraphs[0];
        assert p <= s;
        forall k | 0 <= k < |p|
          ensures !StartsSeparator(p[k..])
        {
          if k == 0 {
            if StartsSeparator(p) {
              StartsSeparatorOfPrefix(p, s);
            }
          } else {
            assert p[k..] == rest.paragraphs[0][k - 1..];
          }
        }
        forall i | 0 <= i < |Split(s)|
          ensures !ContainsSeparator(Split(s)[i])
        {
          if i == 0 {
            assert Split(s)[0] == p;
          } else {
            assert Split(s)[i] == Split(s[1..])[i];
          }
        }
      }
    }
  }

  /** A paragraph after a separator never starts with '\n': the match was greedy. */
  lemma {:induction false} SeparatorsAreMaximal(s: string)
    ensures forall i :: 1 <= i < |Split(s)| && Split(s)[i] != [] ==> Split(s)[i][0] != '\n'
    decreases |s|
  {
    if s != [] {
      var n := SeparatorLength(s);
      if n > 0 {
        SeparatorsAreMaximal(s[n..]);
        SeparatorLengthMatches(s);
        var rest := Scan(s[n..]);
        FirstParagraphIsPrefix(s[n..]);
        forall i | 1 <= i < |Split(s)| && Split(s)[i] != []
          ensures Split(s)[i][0] != '\n'
        {
          assert Split(s)[i] == rest.paragraphs[i - 1];
          if i == 1 {
            assert rest.paragraphs[0][0] == s[n..][0] == s[n];
          }
        }
      } else {
        SeparatorsAreMaximal(s[1..]);
        var rest := Scan(s[1..]);
        forall i | 1 <= i < |Split(s)| && Split(s)[i] != []
          ensures Split(s)[i][0] != '\n'
        {
          assert Split(s)[i] == Split(s[1..])[i];
        }
      }
    }
  }

  /** One scanner step where the pattern matches: an empty paragraph ends there. */
  lemma SplitAtSeparator(s: string)
    requires StartsSeparator(s)
    ensures var n := SeparatorLength(s);
      && Split(s) == [""] + Split(s[n..])
      && Separators(s) == [s[..n]] + Separators(s[n..])
  {
  }

  /** One scanner step where it does not: the character joins the first paragraph. */
  lemma SplitAtCharacter(s: string)
    requires s != [] && !StartsSeparator(s)
    ensures Split(s)[0] == [s[0]] + Split(s[1..])[0]
    ensures Split(s)[1..] == Split(s[1..])[1..]
    ensures Separators(s) == Separators(s[1..])
  {
  }

  /**
   * What `re.split` does when position m is the first where the pattern matches
   * (or m is the end of the text): the first paragraph is exactly the text before
   * m; with no match at all it is the only paragraph and nothing is consumed;
   * otherwise the first separator is the match at m, and the remaining paragraphs
   * and separators are those of the text after that match.
   */
  ghost predicate SplitsAtFirstMatch(s: string, m: nat)
    requires m <= |s|
  {
    && Split(s)[0] == s[..m]
    && (m == |s| ==> Split(s) == [s] && Separators(s) == [])
    && (m < |s| ==>
      var after := m + SeparatorLength(s[m..]);
      && |Separators(s)| >= 1
      && Separators(s)[0] == s[m..after]
      && Split(s)[1..] == Split(s[after..])
      && Separators(s)[1..] == Separators(s[after..]))
  }

  /** The leftmost-match rule where the pattern matches at the very start. */
  lemma FirstMatchAtStart(s: string)
    requires s == [] || StartsSeparator(s)
    ensures SplitsAtFirstMatch(s, 0)
  {
    assert s[0..] == s;
    if s != [] {
      SplitAtSeparator(s);
    }
  }

  /** No match before m in s means no match before m - 1 in s[1..]. */
  lemma NoMatchBeforeShift(s: string, m: nat)
    requires 0 < m <= |s|
    requires forall k :: 0 <= k < m ==> !StartsSeparator(s[k..])
    ensures forall k :: 0 <= k < m - 1 ==> !StartsSeparator(s[1..][k..])
  {
    forall k | 0 <= k < m - 1
      ensures !StartsSeparator(s[1..][k..])
    {
      assert s[1..][k..] == s[k + 1..];
    }
  }

  /** The step of the leftmost-match rule when the text has no match at all. */
  lemma NoMatchStep(s: string)
    requires s != [] && !StartsSeparator(s)
    requires SplitsAtFirstMatch(s[1..], |s| - 1)
    ensures SplitsAtFirstMatch(s, |s|)
  {
    SplitAtCharacter(s);
    assert [s[0]] + s[1..] == s;
  }

  /** The first paragraph grows by the character the scanner stepped over. */
  lemma FirstParagraphStep(s: string, m: nat)
    requires 0 < m <= |s| && !StartsSeparator(s)
    requires Split(s[1..])[0] == s[1..][..m - 1]
    ensures Split(s)[0] == s[..m]
  {
    SplitAtCharacter(s);
    assert [s[0]] + s[1..][..m - 1] == s[..m];
  }

  /** What follows the first match is the same whether seen from s or from s[1..]. */
  lemma AfterFirstMatchStep(s: string, m: nat)
    requires 0 < m < |s| && !StartsSeparator(s)
    requires var t, after := s[1..], m - 1 + SeparatorLength(s[1..][m - 1..]);
      && |Separators(t)| >= 1
      && Separators(t)[0] == t[m - 1..after]
      && Split(t)[1..] == Split(t[after..])
      && Separators(t)[1..] == Separators(t[after..])
    ensures var after := m + SeparatorLength(s[m..]);
      && |Separators(s)| >= 1
      && Separators(s)[0] == s[m..after]
      && Split(s)[1..] == Split(s[after..])
      && Separators(s)[1..] == Separators(s[after..])
  {
    var t := s[1..];
    assert t[m - 1..] == s[m..];
    var after := m + SeparatorLength(s[m..]);
    assert t[m - 1..after - 1] == s[m..after];
    assert t[after - 1..] == s[after..];
    SplitAtCharacter(s);
  }

  /**
   * The step of the leftmost-match rule from s[1..] back to s, when the
   * pattern does not match at the start of s and first matches at 0 < m < |s|.
   */
  lemma FirstMatchStep(s: string, m: nat)
    requires 0 < m < |s| && !StartsSeparator(s)
    requires SplitsAtFirstMatch(s[1..], m - 1)
    ensures SplitsAtFirstMatch(s, m)
  {
    FirstParagraphStep(s, m);
    AfterFirstMatchStep(s, m);
  }

  /**
   * The leftmost-match rule: if position m is the first one where the pattern
   * matches (or m is the end of the text), the split is as `SplitsAtFirstMatch`
   * describes.  Applied repeatedly, this determines the whole split.
   */
  lemma {:induction false} FirstParagraphEndsAtFirstMatch(s: string, m: nat)
    requires m <= |s|
    requires forall k :: 0 <= k < m ==> !StartsSeparator(s[k..])
    requires m == |s| || StartsSeparator(s[m..])
    ensures SplitsAtFirstMatch(s, m)
    decreases m
  {
    if m == 0 {
      FirstMatchAtStart(s);
    } else {
      assert s[0..] == s;
      NoMatchBeforeShift(s, m);
      assert s[1..][m - 1..] == s[m..];
      FirstParagraphEndsAtFirstMatch(s[1..], m - 1);
      if m == |s| {
        NoMatchStep(s);
      } else {
        FirstMatchStep(s, m);
      }
    }
  }

  /**
   * Exactly one paragraph comes out precisely when the text contains no
   * separator, and that paragraph is then the whole text (so "" gives [""]).
   */
  lemma {:induction false} SingleParagraphIffNoSeparator(s: string)
    ensures |Split(s)| == 1 <==> !ContainsSeparator(s)
    ensures !ContainsSeparator(s) ==> Split(s) == [s]
    decreases |s|
  {
    if s != [] {
      var n := SeparatorLength(s);
      if n > 0 {
        assert StartsSeparator(s[0..]);
      } else {
        SingleParagraphIffNoSeparator(s[1..]);
        if ContainsSeparator(s) {
          var k :| 0 <= k < |s| && StartsSeparator(s[k..]);
          assert k > 0;
          assert s[1..][k - 1..] == s[k..];
        } else {
          forall k | 0 <= k < |s[1..]|
            ensures !StartsSeparator(s[1..][k..])
          {
            assert s[1..][k..] == s[k + 1..];
          }
        }
      }
    }
    if !ContainsSeparator(s) {
      SplitLossless(s);
    }
  }

  /** The quirk of the second alternative: "\r\n\r\n" is a separator, the trailing "\r\n" is not. */
  lemma CrLfTripleSplitsInTwo()
    ensures Split("\r\n\r\n\r\n") == ["", "\r\n"]
    ensures Separators("\r\n\r\n\r\n") == ["\r\n\r\n"]
  {
    var s := "\r\n\r\n\r\n";
    assert SeparatorLength(s) == 4 by {
      assert StartsCrLfCrLf(s);
      assert NewlineRun(s[3..]) == 1 by {
        assert s[3..][1..] == "\r\n";
      }
    }
    var t := s[4..];
    assert t == "\r\n";
    assert SeparatorLength(t) == 0;
    var u := t[1..];
    assert u == "\n";
    assert SeparatorLength(u) == 0;
    assert u[1..] == [];
    assert Scan(u[1..]) == Pieces([""], []);
    assert [u[0]] + "" == "\n";
    assert [""][1..] == [];
    assert Scan(u) == Pieces(["\n"], []);
    assert SeparatorLength(t) == 0;
    assert [t[0]] + "\n" == "\r\n";
    assert ["\n"][1..] == [];
    assert Scan(t) == Pieces(["\r\n"], []);
    assert s[..4] == "\r\n\r\n";
  }
}
