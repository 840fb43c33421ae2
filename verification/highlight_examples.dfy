/**
 * Worked examples of the highlighting: where the occurrences fall and which
 * segments are marked.
 */
module HighlightExamples {
  import opened JsText
  import opened Highlighting

  lemma AnaSplit()
    ensures SplitAround("ana", "an") == ["", "an", "a"]
  {
    assert MatchesAt("ana", "an", 0);
    FirstMatchAt("ana", "an", 0, 0);
    SplitFound("ana", "an", 0);
    assert "ana"[2..] == "a" && "ana"[..0] == "" && "ana"[0..2] == "an";
    assert FirstMatch("a", "an", 0) == None;
    SplitNone("a", "an");
  }

  lemma BananaSplit()
    ensures SplitAround("banana", "an") == ["b", "an", "", "an", "a"]
  {
    var s := "banana";
    assert ["b", "an"] + ["", "an", "a"] == ["b", "an", "", "an", "a"];
    assert s[..1] == "b" && s[1..3] == "an" && s[3..] == "ana";
    BananaFirst();
    SplitFound(s, "an", 1);
    AnaSplit();
  }

  /** The first "an" in "banana" is at index 1: "ba" is not a match. */
  lemma BananaFirst()
    ensures FirstMatch("banana", "an", 0) == Some(1)
  {
    assert !MatchesAt("banana", "an", 0) by {
      assert LowerChar("banana"[0]) != LowerChar("an"[0]);
    }
    assert MatchesAt("banana", "an", 1);
    FirstMatchAt("banana", "an", 0, 1);
  }

  /** Example: "banana" with "an" gives b|an||an|a, occurrences taken left to right. */
  lemma ExampleBanana()
    ensures Highlight("banana", "an") == [Segment("b", false), Segment("an", true), Segment("", false),
                                          Segment("an", true), Segment("a", false)]
  {
    var parts := ["b", "an", "", "an", "a"];
    assert Alternating(parts) == [Segment("b", false), Segment("an", true), Segment("", false),
                                  Segment("an", true), Segment("a", false)];
    NotBlankWitness("an", 0);
    BananaSplit();
    HighlightByPosition("banana", "an");
  }

  lemma NoPlus()
    ensures FirstMatch("3=6", "+", 0) == None
  {
    forall i: nat
      ensures !MatchesAt("3=6", "+", i)
    {
      if i < 3 {
        assert LowerChar("3=6"[i]) != LowerChar("+"[0]);
      }
    }
    FirstMatchSpec("3=6", "+", 0);
  }

  lemma PlusSplit()
    ensures SplitAround("3+3=6", "+") == ["3", "+", "3=6"]
  {
    assert !MatchesAt("3+3=6", "+", 0) by {
      assert LowerChar("3+3=6"[0]) != LowerChar("+"[0]);
    }
    assert MatchesAt("3+3=6", "+", 1);
    FirstMatchAt("3+3=6", "+", 0, 1);
    NoPlus();
    SplitFound("3+3=6", "+", 1);
    assert "3+3=6"[2..] == "3=6" && "3+3=6"[..1] == "3" && "3+3=6"[1..2] == "+";
    SplitNone("3=6", "+");
  }

  /** Example: the metacharacter "+" is searched for literally. */
  lemma ExamplePlus()
    ensures Highlight("3+3=6", "+") == [Segment("3", false), Segment("+", true), Segment("3=6", false)]
  {
    var parts := ["3", "+", "3=6"];
    assert Alternating(parts) == [Segment("3", false), Segment("+", true), Segment("3=6", false)];
    NotBlankWitness("+", 0);
    PlusSplit();
    HighlightByPosition("3+3=6", "+");
  }
}
