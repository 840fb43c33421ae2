/**
 * `renderHighlighted`: a cell's text is split around the case-insensitive
 * occurrences of the query, `text.split(/(q)/gi)`, and each part is then
 * classified with `pattern.test(part)`, whose `g` flag makes it resume from
 * the regular expression's `lastIndex`.
 *
 * The pattern is the escaped query in a capturing group; by
 * `RegexEscape.EscapedIsLiteral` it matches the query literally, so the model
 * searches for the query itself.
 */
module Highlighting {
  import opened JsText
  import opened Grid
  import opened Search

  /** A run of cell text, marked when it is an occurrence of the query. */
  datatype Segment = Segment(text: string, matched: bool)

  /** Some segment is marked: the cell shows at least one highlighted part. */
  predicate Marks(segs: seq<Segment>) {
    exists k :: 0 <= k < |segs| && segs[k].matched
  }

  /** The leftmost index at or after `from` where the query matches `s`. */
  function FirstMatch(s: string, q: string, from: nat): (r: Option<nat>)
    decreases |s| - from
    ensures r.Some? ==> from <= r.value && r.value + |q| <= |s|
  {
    if from + |q| > |s| then None
    else if MatchesAt(s, q, from) then Some(from)
    else FirstMatch(s, q, from + 1)
  }

  /**
   * `FirstMatch` finds an occurrence that no earlier position at or after
   * `from` has, and finds none only when there is none.
   */
  lemma {:induction false} FirstMatchSpec(s: string, q: string, from: nat)
    decreases |s| - from
    ensures var r := FirstMatch(s, q, from);
      && (r.Some? ==> MatchesAt(s, q, r.value))
      && (r.Some? ==> forall i: nat :: from <= i < r.value ==> !MatchesAt(s, q, i))
      && (r.None? ==> forall i: nat :: from <= i ==> !MatchesAt(s, q, i))
  {
    if from + |q| <= |s| && !MatchesAt(s, q, from) {
      FirstMatchSpec(s, q, from + 1);
    }
  }

  function Concat(parts: seq<string>): string {
    if parts == [] then [] else parts[0] + Concat(parts[1..])
  }

  /**
   * `s.split(/(q)/gi)` for a non-empty query: the text before the leftmost
   * occurrence, the occurrence itself (the captured group), then the split of
   * what follows it. The scan resumes after each occurrence, so occurrences
   * never overlap.
   */
  function SplitAround(s: string, q: string): seq<string>
    requires |q| > 0
    decreases |s|
  {
    match FirstMatch(s, q, 0)
    case None => [s]
    case Some(j) =>
      var gap, m, after := s[..j], s[j..j + |q|], s[j + |q|..];
      [gap, m] + SplitAround(after, q)
  }

  lemma ConcatTwo(gap: string, m: string, rest: seq<string>)
    ensures Concat([gap, m] + rest) == gap + (m + Concat(rest))
  {
    assert ([gap, m] + rest)[1..] == [m] + rest;
    assert ([m] + rest)[1..] == rest;
  }

  /**
   * `pattern.test(part)` for the global pattern: it searches from `lastIndex`
   * and returns whether it found an occurrence together with the new
   * `lastIndex`: the end of the occurrence, or 0 when there was none.
   */
  function Test(q: string, part: string, lastIndex: nat): (bool, nat) {
    if lastIndex > |part| then (false, 0)
    else
      match FirstMatch(part, q, lastIndex)
      case None => (false, 0)
      case Some(j) => (true, j + |q|)
  }

  /** `parts.map(part => pattern.test(part))`, threading `lastIndex` from part to part. */
  function Classify(q: string, parts: seq<string>, lastIndex: nat): (kinds: seq<bool>)
    ensures |kinds| == |parts|
  {
    if parts == [] then []
    else
      var (found, next) := Test(q, parts[0], lastIndex);
      [found] + Classify(q, parts[1..], next)
  }

  /**
   * The segments `renderHighlighted` draws for `text`: the text unmarked when
   * the query is blank, otherwise the split parts, marked where `test` says so.
   */
  function Highlight(text: string, query: string): (segs: seq<Segment>)
    ensures IsBlank(query) ==> segs == [Segment(text, false)]
  {
    if IsBlank(query) then [Segment(text, false)]
    else
      var parts := SplitAround(text, query);
      var kinds := Classify(query, parts, 0);
      seq(|parts|, k requires 0 <= k < |parts| => Segment(parts[k], kinds[k]))
  }

  function Texts(segs: seq<Segment>): seq<string> {
    seq(|segs|, k requires 0 <= k < |segs| => segs[k].text)
  }

  /** The text the segments spell out, read left to right. */
  function Join(segs: seq<Segment>): string {
    Concat(Texts(segs))
  }

  /**
   * What highlighting should produce, stated without the split: segments that
   * spell out `text`, unmarked and marked in turn (first and last unmarked),
   * each marked one equal to the query up to case, and no occurrence of the
   * query starting inside an unmarked one. The last condition is "leftmost":
   * each marked segment is the first occurrence after the previous one.
   */
  ghost predicate IsLeftmostSegmentation(text: string, q: string, segs: seq<Segment>) {
    && |segs| % 2 == 1
    && Join(segs) == text
    && (forall k :: 0 <= k < |segs| ==> segs[k].matched == (k % 2 == 1))
    && (forall k :: 0 <= k < |segs| && segs[k].matched ==> SameUpToCase(segs[k].text, q))
    && (forall k, i: nat :: 0 <= k < |segs| && !segs[k].matched && i < |segs[k].text| ==>
          !MatchesAt(Join(segs[k..]), q, i))
  }

  // ---------------------------------------------------------------------------
  // Facts about the split
  // ---------------------------------------------------------------------------

  lemma ConcatCons(parts: seq<string>)
    requires parts != []
    ensures Concat(parts) == parts[0] + Concat(parts[1..])
  {
  }

  /** An occurrence with none before it, at or after `from`, is the one `FirstMatch` finds. */
  lemma {:induction false} FirstMatchAt(s: string, q: string, from: nat, j: nat)
    requires from <= j && MatchesAt(s, q, j)
    requires forall i: nat :: from <= i < j ==> !MatchesAt(s, q, i)
    decreases j - from
    ensures FirstMatch(s, q, from) == Some(j)
  {
    if from < j {
      FirstMatchAt(s, q, from + 1, j);
    }
  }

  /** The leftmost occurrence found is the query up to case. */
  lemma FoundOccurrence(s: string, q: string, j: nat)
    requires FirstMatch(s, q, 0) == Some(j)
    ensures j + |q| <= |s| && SameUpToCase(s[j..j + |q|], q)
  {
    FirstMatchSpec(s, q, 0);
    var m := s[j..j + |q|];
    forall k | 0 <= k < |q|
      ensures LowerChar(m[k]) == LowerChar(q[k])
    {
      assert m[k] == s[j + k];
    }
  }

  /** One step of the split, when the query occurs: gap, occurrence, the split of the rest. */
  lemma SplitFound(s: string, q: string, j: nat)
    requires |q| > 0 && FirstMatch(s, q, 0) == Some(j)
    ensures j + |q| <= |s| && SameUpToCase(s[j..j + |q|], q)
    ensures SplitAround(s, q) == [s[..j], s[j..j + |q|]] + SplitAround(s[j + |q|..], q)
  {
    FoundOccurrence(s, q, j);
  }

  /** The facts about even and odd positions that the proofs below step through. */
  lemma Parity(k: nat)
    ensures k % 2 == 0 || k % 2 == 1
    ensures k % 2 == 0 && k != 0 ==> k >= 2
    ensures k % 2 == 1 && k > 1 ==> k >= 3
    ensures k >= 2 ==> (k - 2) % 2 == k % 2
    ensures (k + 2) % 2 == k % 2
  {
  }

  lemma DropTwo<T>(a: T, b: T, rest: seq<T>, k: nat)
    requires 2 <= k < |rest| + 2
    ensures ([a, b] + rest)[k..] == rest[k - 2..] && ([a, b] + rest)[k] == rest[k - 2]
  {
  }

  /** The split of a text where the query does not occur is the text alone. */
  lemma SplitNone(s: string, q: string)
    requires |q| > 0 && FirstMatch(s, q, 0) == None
    ensures SplitAround(s, q) == [s]
  {
  }

  lemma SliceThree(s: string, a: nat, b: nat)
    requires a <= b <= |s|
    ensures s == s[..a] + (s[a..b] + s[b..])
  {
  }

  /** The split has an odd number of parts, and read left to right they spell out the text. */
  lemma {:induction false} SplitSpells(s: string, q: string)
    requires |q| > 0
    decreases |s|
    ensures |SplitAround(s, q)| % 2 == 1
    ensures Concat(SplitAround(s, q)) == s
  {
    var first := FirstMatch(s, q, 0);
    if first.None? {
      SplitNone(s, q);
      assert Concat([s]) == s + Concat([]);
    } else {
      var j := first.value;
      SplitFound(s, q, j);
      var gap, m, after := s[..j], s[j..j + |q|], s[j + |q|..];
      SplitSpells(after, q);
      ConcatTwo(gap, m, SplitAround(after, q));
      SliceThree(s, j, j + |q|);
      assert |SplitAround(s, q)| == |SplitAround(after, q)| + 2;
      Parity(|SplitAround(s, q)|);
    }
  }

  /** The odd parts of the split are occurrences of the query. */
  lemma {:induction false} SplitMatchedParts(s: string, q: string)
    requires |q| > 0
    decreases |s|
    ensures var parts := SplitAround(s, q);
      forall k :: 0 <= k < |parts| && k % 2 == 1 ==> SameUpToCase(parts[k], q)
  {
    match FirstMatch(s, q, 0)
    case None =>
      SplitNone(s, q);
    case Some(j) =>
      var parts := SplitAround(s, q);
      var rest := SplitAround(s[j + |q|..], q);
      SplitMatchedParts(s[j + |q|..], q);
      SplitFound(s, q, j);
      forall k | 2 <= k < |parts| && k % 2 == 1
        ensures SameUpToCase(parts[k], q)
      {
        assert parts[k] == rest[k - 2];
      }
  }

  /**
   * No occurrence of the query starts inside an even part of the split,
   * measured in the text that remains from that part on.
   */
  lemma {:induction false} SplitGapLeftmost(s: string, q: string, k: nat, i: nat)
    requires |q| > 0
    requires k < |SplitAround(s, q)| && k % 2 == 0 && i < |SplitAround(s, q)[k]|
    decreases |s|
    ensures !MatchesAt(Concat(SplitAround(s, q)[k..]), q, i)
  {
    var parts := SplitAround(s, q);
    var first := FirstMatch(s, q, 0);
    FirstMatchSpec(s, q, 0);
    if first.None? {
      SplitNone(s, q);
      SplitSpells(s, q);
      assert parts[k..] == parts;
    } else if k == 0 {
      SplitSpells(s, q);
      assert parts[k..] == parts;
    } else {
      var j := first.value;
      Parity(k);
      SplitFound(s, q, j);
      var rest := SplitAround(s[j + |q|..], q);
      DropTwo(s[..j], s[j..j + |q|], rest, k);
      SplitGapLeftmost(s[j + |q|..], q, k - 2, i);
    }
  }

  lemma AllGapsLeftmost(s: string, q: string)
    requires |q| > 0
    ensures var parts := SplitAround(s, q);
      forall k, i: nat :: 0 <= k < |parts| && k % 2 == 0 && i < |parts[k]| ==>
        !MatchesAt(Concat(parts[k..]), q, i)
  {
    var parts := SplitAround(s, q);
    forall k, i: nat | 0 <= k < |parts| && k % 2 == 0 && i < |parts[k]|
      ensures !MatchesAt(Concat(parts[k..]), q, i)
    {
      SplitGapLeftmost(s, q, k, i);
    }
  }

  /** An even part contains no occurrence of the query at all. */
  lemma GapHasNoMatch(s: string, q: string, k: nat, i: nat)
    requires |q| > 0
    requires k < |SplitAround(s, q)| && k % 2 == 0
    ensures !MatchesAt(SplitAround(s, q)[k], q, i)
  {
    var parts := SplitAround(s, q);
    AllGapsLeftmost(s, q);
    if MatchesAt(parts[k], q, i) {
      ConcatCons(parts[k..]);
      assert parts[k..][1..] == parts[k + 1..];
      MatchesAtPrefix(parts[k], Concat(parts[k + 1..]), q, i);
      assert false;
    }
  }

  /** `test` on a string without an occurrence fails and resets `lastIndex`. */
  lemma TestMiss(q: string, part: string, lastIndex: nat)
    requires forall i: nat :: !MatchesAt(part, q, i)
    ensures Test(q, part, lastIndex) == (false, 0)
  {
    FirstMatchSpec(part, q, lastIndex);
  }

  /** `test` from index 0 on an occurrence of the query succeeds and moves `lastIndex` past it. */
  lemma TestHit(q: string, part: string)
    requires SameUpToCase(part, q)
    ensures Test(q, part, 0) == (true, |q|)
  {
    assert MatchesAt(part, q, 0);
  }

  /**
   * Whatever `lastIndex` the pattern starts with, `test` marks exactly the
   * odd parts of the split: each unmarked part resets `lastIndex` to 0, from
   * where the following occurrence is found at once.
   */
  lemma {:induction false} ClassifyAlternates(s: string, q: string, lastIndex: nat)
    requires |q| > 0
    decreases |s|
    ensures var parts := SplitAround(s, q);
      forall k :: 0 <= k < |parts| ==> Classify(q, parts, lastIndex)[k] == (k % 2 == 1)
  {
    var parts := SplitAround(s, q);
    var first := FirstMatch(s, q, 0);
    if first.None? {
      SplitNone(s, q);
      FirstMatchSpec(s, q, 0);
      TestMiss(q, s, lastIndex);
    } else {
      var j := first.value;
      SplitFound(s, q, j);
      var gap, m, after := s[..j], s[j..j + |q|], s[j + |q|..];
      var rest := SplitAround(after, q);
      forall i: nat ensures !MatchesAt(gap, q, i) {
        GapHasNoMatch(s, q, 0, i);
      }
      TestMiss(q, gap, lastIndex);
      TestHit(q, m);
      ClassifyTwo(q, gap, m, rest, lastIndex);
      ClassifyAlternates(after, q, |q|);
      var tail := Classify(q, rest, |q|);
      forall k | 2 <= k < |parts|
        ensures Classify(q, parts, lastIndex)[k] == (k % 2 == 1)
      {
        Parity(k);
        assert ([false, true] + tail)[k] == tail[k - 2];
      }
    }
  }

  /** Two steps of the classification: an unmarked part, then a marked one. */
  lemma ClassifyTwo(q: string, gap: string, m: string, rest: seq<string>, lastIndex: nat)
    requires Test(q, gap, lastIndex) == (false, 0)
    requires Test(q, m, 0) == (true, |q|)
    ensures Classify(q, [gap, m] + rest, lastIndex) == [false, true] + Classify(q, rest, |q|)
  {
    var parts := [gap, m] + rest;
    assert parts[1..] == [m] + rest;
    assert parts[1..][1..] == rest;
  }

  // ---------------------------------------------------------------------------
  // Highlighting meets its specification
  // ---------------------------------------------------------------------------

  lemma TextsSuffix(segs: seq<Segment>, k: nat)
    requires k <= |segs|
    ensures Texts(segs[k..]) == Texts(segs)[k..]
  {
  }

  /**
   * For a query that is not blank, highlighting yields the leftmost
   * segmentation: the parts spell out the text, marked and unmarked parts
   * alternate starting and ending unmarked, each marked part is the query up
   * to case, and no occurrence starts inside an unmarked part.
   */
  lemma HighlightIsLeftmost(text: string, query: string)
    requires !IsBlank(query)
    ensures IsLeftmostSegmentation(text, query, Highlight(text, query))
  {
    var segs := Highlight(text, query);
    HighlightParts(text, query);
    var parts := SplitAround(text, query);
    SplitSpells(text, query);
    SplitMatchedParts(text, query);
    AllGapsLeftmost(text, query);
    forall k | 0 <= k < |segs| && segs[k].matched
      ensures SameUpToCase(segs[k].text, query)
    {
      assert k % 2 == 1;
    }
    forall k, i: nat | 0 <= k < |segs| && !segs[k].matched && i < |segs[k].text|
      ensures !MatchesAt(Join(segs[k..]), query, i)
    {
      Parity(k);
      TextsSuffix(segs, k);
      assert Join(segs[k..]) == Concat(parts[k..]);
    }
  }

  /** The parts of a split, marked at the odd positions. */
  function Alternating(parts: seq<string>): seq<Segment> {
    seq(|parts|, k requires 0 <= k < |parts| => Segment(parts[k], k % 2 == 1))
  }

  /**
   * Classifying the parts with the stateful `test` marks exactly the odd
   * positions, as if it went by position alone.
   */
  lemma HighlightByPosition(text: string, query: string)
    requires !IsBlank(query)
    ensures Highlight(text, query) == Alternating(SplitAround(text, query))
  {
    ClassifyAlternates(text, query, 0);
  }

  /** The segments carry the parts of the split, marked at the odd positions. */
  lemma HighlightParts(text: string, query: string)
    requires !IsBlank(query)
    ensures Texts(Highlight(text, query)) == SplitAround(text, query)
    ensures forall k :: 0 <= k < |Highlight(text, query)| ==> Highlight(text, query)[k].matched == (k % 2 == 1)
  {
    HighlightByPosition(text, query);
  }

  // ---------------------------------------------------------------------------
  // The leftmost segmentation is unique
  // ---------------------------------------------------------------------------

  lemma JoinCons(segs: seq<Segment>)
    requires segs != []
    ensures Join(segs) == segs[0].text + Join(segs[1..])
  {
    assert Texts(segs)[1..] == Texts(segs[1..]);
  }

  /** No occurrence starts inside the first (unmarked) segment. */
  lemma LeftmostFirstGap(text: string, q: string, segs: seq<Segment>, i: nat)
    requires IsLeftmostSegmentation(text, q, segs)
    requires i < |segs[0].text|
    ensures !MatchesAt(text, q, i)
  {
    assert segs[0..] == segs;
  }

  /**
   * A segmentation with a marked segment: the query occurs right after the
   * first segment, and what follows the marked segment is segmented the same
   * way.
   */
  lemma LeftmostNext(text: string, q: string, segs: seq<Segment>)
    requires IsLeftmostSegmentation(text, q, segs) && |segs| > 1
    ensures |segs| >= 3
    ensures text == segs[0].text + (segs[1].text + Join(segs[2..]))
    ensures MatchesAt(text, q, |segs[0].text|)
    ensures IsLeftmostSegmentation(Join(segs[2..]), q, segs[2..])
  {
    var n := |segs|;
    assert n % 2 == 1;
    Parity(n);
    JoinCons(segs);
    JoinCons(segs[1..]);
    assert segs[1..][1..] == segs[2..];
    var g, m, rest := segs[0].text, segs[1].text, Join(segs[2..]);
    assert segs[1].matched;
    assert MatchesAt(m, q, 0);
    MatchesAtPrefix(m, rest, q, 0);
    MatchesAtSuffix(g, m + rest, q, 0);
    var tail := segs[2..];
    forall k | 0 <= k < |tail|
      ensures tail[k].matched == (k % 2 == 1)
    {
      Parity(k);
    }
    forall k, i: nat | 0 <= k < |tail| && !tail[k].matched && i < |tail[k].text|
      ensures !MatchesAt(Join(tail[k..]), q, i)
    {
      assert tail[k..] == segs[k + 2..];
    }
  }

  /**
   * At most one segmentation meets the specification, so `Highlight` is
   * exactly the leftmost segmentation of the text.
   */
  lemma {:induction false} LeftmostUnique(text: string, q: string, a: seq<Segment>, b: seq<Segment>)
    requires |q| > 0
    requires IsLeftmostSegmentation(text, q, a) && IsLeftmostSegmentation(text, q, b)
    decreases |text|
    ensures a == b
  {
    if |a| == 1 && |b| == 1 {
      JoinCons(a);
      JoinCons(b);
      assert Texts(a[1..]) == [] && Texts(b[1..]) == [];
      assert a[0] == Segment(text, false) == b[0];
      assert a == [a[0]] && b == [b[0]];
    } else if |a| == 1 {
      JoinCons(a);
      LeftmostNext(text, q, b);
      LeftmostFirstGap(text, q, a, |b[0].text|);
      assert false;
    } else if |b| == 1 {
      JoinCons(b);
      LeftmostNext(text, q, a);
      LeftmostFirstGap(text, q, b, |a[0].text|);
      assert false;
    } else {
      LeftmostNext(text, q, a);
      LeftmostNext(text, q, b);
      var ga, gb := |a[0].text|, |b[0].text|;
      if ga < gb {
        LeftmostFirstGap(text, q, b, ga);
        assert false;
      } else if gb < ga {
        LeftmostFirstGap(text, q, a, gb);
        assert false;
      } else {
        assert a[0].text == text[..ga] == b[0].text;
        assert a[1].text == text[ga..ga + |q|] == b[1].text;
        assert Join(a[2..]) == text[ga + |q|..] == Join(b[2..]);
        LeftmostUnique(Join(a[2..]), q, a[2..], b[2..]);
        assert a == [a[0], a[1]] + a[2..];
        assert b == [b[0], b[1]] + b[2..];
      }
    }
  }

  /** Highlighting for a non-blank query is the one segmentation that meets the specification. */
  lemma HighlightIsTheLeftmost(text: string, query: string, segs: seq<Segment>)
    requires !IsBlank(query)
    ensures IsLeftmostSegmentation(text, query, segs) <==> segs == Highlight(text, query)
  {
    HighlightIsLeftmost(text, query);
    if IsLeftmostSegmentation(text, query, segs) {
      LeftmostUnique(text, query, segs, Highlight(text, query));
    }
  }

  /** Some part is marked when the query occurs in the text, and only then. */
  lemma HighlightMarksIffOccurs(text: string, query: string)
    requires !IsBlank(query)
    ensures Marks(Highlight(text, query)) <==> exists i: nat :: MatchesAt(text, query, i)
  {
    var segs := Highlight(text, query);
    HighlightParts(text, query);
    MoreThanOnePart(text, query);
    if Marks(segs) {
      var k :| 0 <= k < |segs| && segs[k].matched;
      assert k % 2 == 1;
    }
    if |segs| > 1 {
      assert segs[1].matched;
    }
  }

  /** The highlighting has more than one part exactly when the query occurs in the text. */
  lemma MoreThanOnePart(text: string, query: string)
    requires !IsBlank(query)
    ensures |Highlight(text, query)| > 1 <==> exists i: nat :: MatchesAt(text, query, i)
  {
    assert |Highlight(text, query)| == |SplitAround(text, query)|;
    var first := FirstMatch(text, query, 0);
    FirstMatchSpec(text, query, 0);
    if first.None? {
      SplitNone(text, query);
    } else {
      SplitFound(text, query, first.value);
    }
  }

  /**
   * The filter keeps a row exactly when some cell of it, highlighted, shows a
   * marked part: the two use the same notion of an occurrence.
   */
  lemma FilterAgreesWithHighlight(row: seq<Cell>, query: string)
    requires !IsBlank(query)
    ensures RowMatches(row, query) <==>
      exists j :: 0 <= j < |row| && Marks(Highlight(CellText(row[j]), query))
  {
    forall j | 0 <= j < |row|
      ensures CellMatches(row[j], query) <==> Marks(Highlight(CellText(row[j]), query))
    {
      IncludesLowerIffMatch(CellText(row[j]), query);
      HighlightMarksIffOccurs(CellText(row[j]), query);
    }
  }

  /** An unmarked segment contains no occurrence of the query anywhere in it. */
  lemma HighlightGapsClean(text: string, query: string, k: nat, i: nat)
    requires !IsBlank(query)
    requires k < |Highlight(text, query)| && !Highlight(text, query)[k].matched
    ensures !MatchesAt(Highlight(text, query)[k].text, query, i)
  {
    HighlightParts(text, query);
    Parity(k);
    assert Highlight(text, query)[k].text == Texts(Highlight(text, query))[k];
    GapHasNoMatch(text, query, k, i);
  }
}
