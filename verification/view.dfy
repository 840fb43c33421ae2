/**
 * The table's caption and its empty-state row.
 */
module View {
  import opened JsText
  import opened Grid
  import opened Search

  const UploadPrompt: string := "Upload an .xlsx file to display its contents"

  /**
   * The separator between the file name and the count: an em dash between
   * spaces, stored in the page as the three characters its UTF-8 bytes read
   * as in Windows-1252, which are what the page displays.
   */
  const Separator: string := " \U{E2}\U{20AC}\U{201D} "

  /**
   * The caption: the upload prompt before any file is chosen, otherwise the
   * file name, the separator, the number of rows shown and " row", with an
   * "s" unless exactly one row is shown.
   */
  function Caption(fileName: string, shownCount: nat): (c: string)
    ensures fileName == "" ==> c == UploadPrompt
    ensures fileName != "" ==> |c| > |fileName| + |Separator| && c[..|fileName|] == fileName
    ensures fileName != "" ==> (c[|c| - 1] == 's' <==> shownCount != 1)
    ensures fileName != "" ==>
      var w := if shownCount == 1 then " row" else " rows";
      && |c| == |fileName| + |Separator| + |NatToString(shownCount)| + |w|
      && c[|fileName|..|fileName| + |Separator|] == Separator
      && c[|c| - |w|..] == w
  {
    if fileName == "" then UploadPrompt
    else fileName + Separator + NatToString(shownCount) + " row" + (if shownCount == 1 then "" else "s")
  }

  /** The prompt shows exactly when there is no file name. */
  lemma CaptionPromptIff(fileName: string, shownCount: nat)
    ensures Caption(fileName, shownCount) == UploadPrompt <==> fileName == ""
  {
    if fileName != "" {
      var c := Caption(fileName, shownCount);
      assert c[|fileName| + 1] == Separator[1] == '\U{E2}';
      PromptIsAscii();
    }
  }

  /** The upload prompt is plain ASCII, so it holds no character of the separator. */
  lemma PromptIsAscii()
    ensures forall i :: 0 <= i < |UploadPrompt| ==> UploadPrompt[i] < '\U{80}'
  {
  }

  /** The number in the caption reads back as the count of rows shown. */
  lemma CaptionShowsCount(fileName: string, shownCount: nat)
    requires fileName != ""
    ensures var c := Caption(fileName, shownCount);
      var digits := NatToString(shownCount);
      && |fileName| + |Separator| + |digits| <= |c|
      && c[|fileName| + |Separator|..|fileName| + |Separator| + |digits|] == digits
      && ParseNat(c[|fileName| + |Separator|..|fileName| + |Separator| + |digits|]) == shownCount
  {
    ParseNatToString(shownCount);
    var c := Caption(fileName, shownCount);
    var digits := NatToString(shownCount);
    var pre := fileName + Separator;
    var post := " row" + (if shownCount == 1 then "" else "s");
    assert c == pre + digits + post;
    assert |pre| == |fileName| + |Separator|;
    assert (pre + digits + post)[|pre|..|pre| + |digits|] == digits;
  }

  /** Whether the body shows the "No matching rows" row. */
  predicate ShowsNoMatchingRows(headers: seq<string>, shown: seq<seq<Cell>>) {
    |headers| > 0 && |shown| == 0
  }

  /**
   * "No matching rows" shows exactly when there are headers and either the
   * query is blank and there are no body rows, or no body row matches it.
   */
  lemma NoMatchingRowsIff(headers: seq<string>, rows: seq<seq<Cell>>, query: string)
    ensures ShowsNoMatchingRows(headers, Filter(rows, query)) <==>
      |headers| > 0 &&
      (if IsBlank(query) then rows == [] else forall k :: 0 <= k < |rows| ==> !RowMatches(rows[k], query))
  {
    var shown := Filter(rows, query);
    if !IsBlank(query) && shown != [] {
      assert shown[0] in shown;
    }
    if !IsBlank(query) && exists k :: 0 <= k < |rows| && RowMatches(rows[k], query) {
      var k :| 0 <= k < |rows| && RowMatches(rows[k], query);
      assert rows[k] in rows;
    }
  }
}
