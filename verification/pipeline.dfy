/**
 The script's data flow over one dataset: the `Text` column is cleaned row by
 row into `Cleaned_Text`, each cleaned row gets a label in
 `Calculated_Sentiment`, and the optional `Hashtags` column yields the
 trending-hashtag table. The polarity scorer is a parameter.
 */
module Pipeline {
  import opened Chars
  import opened Options
  import opened TextCleaning
  import opened Sentiment
  import opened Hashtags

  /** The columns the script reads. A cell is `None` when it is missing;
      the `Hashtags` column itself may be absent. */
  datatype Dataset = Dataset(text: seq<Option<string>>, hashtags: Option<seq<Option<string>>>)

  /** The columns the script adds, and the hashtag table. */
  datatype Report = Report(cleaned: seq<string>, sentiment: seq<Label>, topHashtags: seq<Entry>)

  /** `str()` of a missing cell (a float NaN). */
  const MissingText: string := "nan"

  /** `str(text)` of a `Text` cell: a missing cell reads as `nan`. */
  function CellText(c: Option<string>): (t: string)
    ensures c.Some? ==> t == c.value
    ensures c.None? ==> t == "nan"
  {
    match c
    case None => MissingText
    case Some(s) => s
  }

  /** `df['Text'].apply(clean_text)`: one cleaned text per row, in row
      order. */
  function CleanColumn(texts: seq<Option<string>>): (r: seq<string>)
    ensures |r| == |texts|
    ensures forall i :: 0 <= i < |r| ==> r[i] == CleanText(CellText(texts[i]))
    ensures forall i :: 0 <= i < |r| ==> |r[i]| <= |CellText(texts[i])|
    ensures forall i, j :: 0 <= i < |r| && 0 <= j < |r[i]| ==> IsCleanChar(r[i][j])
  {
    if texts == [] then []
    else [CleanText(CellText(texts[0]))] + CleanColumn(texts[1..])
  }

  /** `df['Cleaned_Text'].apply(get_sentiment)` with `polarity` standing for
      the external scorer: one label per row, in row order. */
  function SentimentColumn(cleaned: seq<string>, polarity: string -> real): (r: seq<Label>)
    ensures |r| == |cleaned|
    ensures forall i :: 0 <= i < |r| ==> r[i] == Classify(polarity(cleaned[i]))
  {
    if cleaned == [] then []
    else [Classify(polarity(cleaned[0]))] + SentimentColumn(cleaned[1..], polarity)
  }

  /** The whole script on one dataset, without the file I/O and the
      timestamp columns. */
  function Process(d: Dataset, polarity: string -> real): (r: Report)
    ensures |r.cleaned| == |d.text| && |r.sentiment| == |d.text|
    ensures forall i :: 0 <= i < |d.text| ==>
      r.cleaned[i] == CleanText(CellText(d.text[i])) &&
      r.sentiment[i] == Classify(polarity(r.cleaned[i]))
    ensures r.topHashtags == TopHashtags(d.hashtags)
    ensures d.hashtags.None? ==> r.topHashtags == []
    ensures |r.topHashtags| <= TopCount
  {
    var cleaned := CleanColumn(d.text);
    Report(cleaned, SentimentColumn(cleaned, polarity), TopHashtags(d.hashtags))
  }

  // ---------------------------------------------------------------------------
  // Row-wise maps

  /** Cleaning a column part by part gives the same rows: each row is
      cleaned on its own. */
  lemma {:induction false} CleanColumnAppend(a: seq<Option<string>>, b: seq<Option<string>>)
    ensures CleanColumn(a + b) == CleanColumn(a) + CleanColumn(b)
  {
    if a == [] {
      assert a + b == b;
    } else {
      assert (a + b)[0] == a[0];
      assert (a + b)[1..] == a[1..] + b;
      CleanColumnAppend(a[1..], b);
    }
  }

  lemma {:induction false} SentimentColumnAppend(a: seq<string>, b: seq<string>, polarity: string -> real)
    ensures SentimentColumn(a + b, polarity) == SentimentColumn(a, polarity) + SentimentColumn(b, polarity)
  {
    if a == [] {
      assert a + b == b;
    } else {
      assert (a + b)[0] == a[0];
      assert (a + b)[1..] == a[1..] + b;
      SentimentColumnAppend(a[1..], b, polarity);
    }
  }

  // ---------------------------------------------------------------------------
  // Consequences for single rows

  /** A missing `Text` cell is cleaned to the word `nan`. */
  lemma MissingTextIsNan()
    ensures CleanColumn([None]) == [MissingText]
  {
    CleanTextKeepsCleanInput(MissingText);
  }

  /** A row made only of symbols is cleaned to the empty text; when the
      scorer gives the empty text polarity zero, that row is Neutral. */
  lemma SymbolOnlyRowIsNeutral(d: Dataset, polarity: string -> real, i: nat)
    requires i < |d.text| && d.text[i].Some?
    requires forall j :: 0 <= j < |d.text[i].value| ==> !IsKept(d.text[i].value[j])
    requires polarity("") == 0.0
    ensures Process(d, polarity).cleaned[i] == ""
    ensures Process(d, polarity).sentiment[i] == Neutral
  {
    SymbolsOnlyCleanToEmpty(d.text[i].value);
  }
}
