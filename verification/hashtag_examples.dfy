/**
 A worked example of tokenising one `Hashtags` cell: tokens are lowercased
 and keep their leading `#`.
 */
module HashtagExamples {
  import opened Chars
  import opened Hashtags

  const MixedCell: string := "#AI #ml"

  const LoweredCell: string := "#ai #ml"

  const CellTags: seq<string> := ["#ai", "#ml"]

  lemma MixedCellLowered()
    ensures Lower(MixedCell) == LoweredCell
  {
    LowerIs(MixedCell, LoweredCell);
  }

  lemma CellTagsJoined()
    ensures JoinSpaces(CellTags) == LoweredCell
  {
  }

  lemma CellTagsPlain()
    ensures forall i :: 0 <= i < |CellTags| ==> |CellTags[i]| > 0
    ensures forall i, j :: 0 <= i < |CellTags| && 0 <= j < |CellTags[i]| ==> NonSpace(CellTags[i][j])
  {
  }

  /** `"#AI #ml"` yields the tokens `"#ai"` and `"#ml"`. */
  lemma MixedCellTokens()
    ensures CellTokens(MixedCell) == CellTags
  {
    MixedCellLowered();
    CellTagsJoined();
    CellTagsPlain();
    SplitJoin(CellTags);
  }
}
