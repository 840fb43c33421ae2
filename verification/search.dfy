/**
 * The row filter behind the search box (the `filtered` memo): a row stays when
 * one of its cells, lower-cased, contains the lower-cased query.
 */
module Search {
  import opened JsText
  import opened Grid

  /** `String(cell ?? "").toLowerCase().includes(query.toLowerCase())`. */
  predicate CellMatches(c: Cell, query: string) {
    Includes(Lower(CellText(c)), Lower(query))
  }

  /** `row.some(...)`: every cell of the row is searched, also those beyond the header width. */
  predicate RowMatches(row: seq<Cell>, query: string) {
    exists j :: 0 <= j < |row| && CellMatches(row[j], query)
  }

  /** `a` is `b` with some elements left out and the rest in their order. */
  ghost predicate IsSubsequence<T>(a: seq<T>, b: seq<T>)
    decreases |b|
  {
    a == [] || (b != [] && ((a[0] == b[0] && IsSubsequence(a[1..], b[1..])) || IsSubsequence(a, b[1..])))
  }

  /** `rows.filter(row => row.some(...))`: the matching rows, in their order. */
  function KeepMatching(rows: seq<seq<Cell>>, query: string): (kept: seq<seq<Cell>>)
    ensures |kept| <= |rows|
    ensures forall row :: row in kept <==> row in rows && RowMatches(row, query)
    ensures IsSubsequence(kept, rows)
  {
    if rows == [] then []
    else
      var rest := KeepMatching(rows[1..], query);
      if RowMatches(rows[0], query) then
        assert ([rows[0]] + rest)[1..] == rest;
        [rows[0]] + rest
      else rest
  }

  /**
   * The rows the table shows for `query`: all of them when the query is blank
   * after trimming, otherwise the matching ones for the untrimmed query.
   */
  function Filter(rows: seq<seq<Cell>>, query: string): (shown: seq<seq<Cell>>)
    ensures IsBlank(query) ==> shown == rows
    ensures !IsBlank(query) ==> forall row :: row in shown <==> row in rows && RowMatches(row, query)
    ensures |shown| <= |rows|
    ensures IsSubsequence(shown, rows)
  {
    if IsBlank(query) then
      SubsequenceReflexive(rows);
      rows
    else KeepMatching(rows, query)
  }

  /** A subsequence of itself: the relation is reflexive. */
  lemma {:induction false} SubsequenceReflexive<T>(a: seq<T>)
    ensures IsSubsequence(a, a)
  {
    if a != [] {
      SubsequenceReflexive(a[1..]);
    }
  }

  /** Filtering splits over concatenation, so it decides each row on its own. */
  lemma {:induction false} KeepAppend(a: seq<seq<Cell>>, b: seq<seq<Cell>>, query: string)
    ensures KeepMatching(a + b, query) == KeepMatching(a, query) + KeepMatching(b, query)
  {
    if a == [] {
      assert a + b == b;
    } else {
      assert (a + b)[0] == a[0] && (a + b)[1..] == a[1..] + b;
      KeepAppend(a[1..], b, query);
      var ka, kb := KeepMatching(a[1..], query), KeepMatching(b, query);
      if RowMatches(a[0], query) {
        assert [a[0]] + (ka + kb) == ([a[0]] + ka) + kb;
      }
    }
  }

  /** Every row is kept exactly when every row matches. */
  lemma {:induction false} KeepAllIff(rows: seq<seq<Cell>>, query: string)
    ensures KeepMatching(rows, query) == rows <==> forall k :: 0 <= k < |rows| ==> RowMatches(rows[k], query)
  {
    if rows != [] {
      KeepAllIff(rows[1..], query);
      if !RowMatches(rows[0], query) {
        assert |KeepMatching(rows, query)| < |rows|;
      } else {
        forall k | 1 <= k < |rows|
          ensures rows[k] == rows[1..][k - 1]
        {
        }
      }
    }
  }

  /** Filtering what a filter already returned changes nothing. */
  lemma FilterIdempotent(rows: seq<seq<Cell>>, query: string)
    ensures Filter(Filter(rows, query), query) == Filter(rows, query)
  {
    KeepIdempotent(rows, query);
  }

  lemma KeepIdempotent(rows: seq<seq<Cell>>, query: string)
    ensures KeepMatching(KeepMatching(rows, query), query) == KeepMatching(rows, query)
  {
    var kept := KeepMatching(rows, query);
    forall k | 0 <= k < |kept|
      ensures RowMatches(kept[k], query)
    {
      assert kept[k] in kept;
    }
    KeepAllIff(kept, query);
  }

  /** Example: "ali" keeps the row with "Alice" and drops the row with "Bob". */
  lemma ExampleAli()
    ensures Filter([[Str("Alice"), Num(30)], [Str("Bob"), Num(40)]], "ali") == [[Str("Alice"), Num(30)]]
  {
    NotBlankWitness("ali", 0);
    AliceMatchesAli();
    BobMissesAli();
    KeepFirstOfTwo([Str("Alice"), Num(30)], [Str("Bob"), Num(40)], "ali");
  }

  lemma KeepFirstOfTwo(a: seq<Cell>, b: seq<Cell>, query: string)
    requires RowMatches(a, query) && !RowMatches(b, query)
    ensures KeepMatching([a, b], query) == [a]
  {
    assert [a, b][1..] == [b];
    assert [b][1..] == [];
  }

  lemma AliceMatchesAli()
    ensures RowMatches([Str("Alice"), Num(30)], "ali")
  {
    var row := [Str("Alice"), Num(30)];
    assert MatchesAt("Alice", "ali", 0) by {
      assert LowerChar('A') == 'a';
    }
    IncludesLowerIffMatch(CellText(row[0]), "ali");
  }

  lemma BobMissesAli()
    ensures !RowMatches([Str("Bob"), Num(40)], "ali")
  {
    var bob := [Str("Bob"), Num(40)];
    BobCellMisses();
    ShortCellMisses(bob[1], "ali");
    assert bob[0] == Str("Bob");
  }

  lemma BobCellMisses()
    ensures !CellMatches(Str("Bob"), "ali")
  {
    forall i: nat
      ensures !MatchesAt("Bob", "ali", i)
    {
      if i == 0 {
        assert LowerChar("Bob"[0]) != LowerChar("ali"[0]);
      }
    }
    IncludesLowerIffMatch("Bob", "ali");
  }

  /** A cell whose text is shorter than the query cannot match it. */
  lemma ShortCellMisses(c: Cell, query: string)
    requires |CellText(c)| < |query|
    ensures !CellMatches(c, query)
  {
  }
}
