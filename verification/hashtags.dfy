/**
 The trending-hashtag table. The non-missing cells of the `Hashtags` column
 are lowercased and split on runs of whitespace, the tokens of all cells are
 concatenated in row order and counted (a `Counter`, which remembers the order
 in which each token was first seen), and the 20 most common tokens are kept,
 most frequent first, ties in first-seen order (`Counter.most_common`, a
 stable sort by count). Tokens keep their leading `#`.
 */
module Hashtags {
  import opened Chars
  import opened Options

  /** The number of rows `most_common` is asked for. */
  const TopCount: nat := 20

  /** One row of the table: a tag and the number of times it occurs. */
  datatype Entry = Entry(tag: string, freq: nat)

  function Min(a: nat, b: nat): nat {
    if a <= b then a else b
  }

  // ---------------------------------------------------------------------------
  // Tokenising cells

  /** A token as `str.split()` yields it from lowercased text: non-empty, no
      whitespace and no upper-case letter. */
  predicate IsTag(t: string) {
    |t| > 0 && forall j :: 0 <= j < |t| ==> NonSpace(t[j]) && !IsUpper(t[j])
  }

  /** `str.split()` with no separator: the maximal runs of non-whitespace
      characters, in order; leading, trailing and repeated whitespace yield no
      empty token. */
  function Split(s: string): (ts: seq<string>)
    ensures forall i :: 0 <= i < |ts| ==> |ts[i]| > 0
    ensures forall i, j :: 0 <= i < |ts| && 0 <= j < |ts[i]| ==> NonSpace(ts[i][j]) && ts[i][j] in s
    decreases |s|
  {
    if s == [] then []
    else if IsSpace(s[0]) then Split(s[1..])
    else
      var n := Span(s, NonSpace);
      assert forall j :: 0 <= j < n ==> s[..n][j] == s[j];
      [s[..n]] + Split(s[n..])
  }

  /** The tokens joined by single spaces. */
  function JoinSpaces(ts: seq<string>): string {
    if ts == [] then ""
    else if |ts| == 1 then ts[0]
    else ts[0] + " " + JoinSpaces(ts[1..])
  }

  /** The tokens of one cell: `.str.lower().str.split()`. */
  function CellTokens(cell: string): (ts: seq<string>)
    ensures forall i :: 0 <= i < |ts| ==> IsTag(ts[i])
  {
    var low := Lower(cell);
    var ts := Split(low);
    assert forall i, j :: 0 <= i < |ts| && 0 <= j < |ts[i]| ==> !IsUpper(ts[i][j]) by {
      forall i, j | 0 <= i < |ts| && 0 <= j < |ts[i]| ensures !IsUpper(ts[i][j]) {
        var k :| 0 <= k < |low| && low[k] == ts[i][j];
      }
    }
    ts
  }

  /** `sum(column.dropna().astype(str).str.lower().str.split(), [])`: the
      tokens of every non-missing cell, row after row. */
  function HashtagTokens(cells: seq<Option<string>>): (ts: seq<string>)
    ensures forall i :: 0 <= i < |ts| ==> IsTag(ts[i])
  {
    if cells == [] then [] else RowTokens(cells[0]) + HashtagTokens(cells[1..])
  }

  /** The tokens one row contributes: none for a missing cell (`dropna`). */
  function RowTokens(cell: Option<string>): (ts: seq<string>)
    ensures cell.None? ==> ts == []
    ensures forall i :: 0 <= i < |ts| ==> IsTag(ts[i])
  {
    match cell
    case None => []
    case Some(c) => CellTokens(c)
  }

  /** A run of non-whitespace followed by whitespace (or nothing) is the
      first token. */
  lemma SplitWord(w: string, rest: string)
    requires |w| > 0 && forall j :: 0 <= j < |w| ==> NonSpace(w[j])
    requires rest == [] || IsSpace(rest[0])
    ensures Split(w + rest) == [w] + Split(rest)
  {
    var s := w + rest;
    var n := Span(s, NonSpace);
    assert forall j :: 0 <= j < |w| ==> s[j] == w[j];
    assert |w| < |s| ==> s[|w|] == rest[0];
    assert n == |w|;
    assert s[..n] == w && s[n..] == rest;
  }

  /** Whitespace separates tokens: splitting a text at one whitespace
      character and splitting the two sides gives the same tokens. With
      `SplitBlank` and `SplitWord` this fixes `Split` on every text. */
  lemma {:induction false} SplitAppend(a: string, c: char, b: string)
    requires IsSpace(c)
    ensures Split(a + [c] + b) == Split(a) + Split(b)
    decreases |a|
  {
    var s := a + [c] + b;
    if a == [] {
      assert s[1..] == b;
    } else if IsSpace(a[0]) {
      assert s[1..] == a[1..] + [c] + b;
      SplitAppend(a[1..], c, b);
    } else {
      var m := Span(a, NonSpace);
      SpanThrough(a, c, b, m);
      var n := Span(s, NonSpace);
      assert n == m;
      assert s[..n] == a[..m];
      if m < |a| {
        assert s[n..] == a[m..] + [c] + b;
        SplitAppend(a[m..], c, b);
      } else {
        assert a[m..] == [];
        assert s[n..] == [c] + b;
        assert ([c] + b)[1..] == b;
      }
    }
  }

  /** The non-whitespace run at the front of `a` is the run at the front of
      `a + [c] + b` when `c` is whitespace. */
  lemma SpanThrough(a: string, c: char, b: string, m: nat)
    requires IsSpace(c) && m == Span(a, NonSpace)
    ensures Span(a + [c] + b, NonSpace) == m
  {
    var s := a + [c] + b;
    assert forall i :: 0 <= i < |a| ==> s[i] == a[i];
    assert s[|a|] == c;
  }

  /** A text of whitespace only has no token. */
  lemma {:induction false} SplitBlank(s: string)
    requires forall i :: 0 <= i < |s| ==> IsSpace(s[i])
    ensures Split(s) == []
    decreases |s|
  {
    if s != [] {
      SplitBlank(s[1..]);
    }
  }

  /** All characters of a token list, in order. */
  function Concat(ts: seq<string>): string {
    if ts == [] then "" else ts[0] + Concat(ts[1..])
  }

  /** The non-whitespace characters of a text, in order. */
  function NonSpaceChars(s: string): (r: string)
    ensures forall i :: 0 <= i < |r| ==> NonSpace(r[i])
  {
    if s == [] then ""
    else if IsSpace(s[0]) then NonSpaceChars(s[1..])
    else [s[0]] + NonSpaceChars(s[1..])
  }

  lemma {:induction false} NonSpaceCharsAppend(a: string, b: string)
    ensures NonSpaceChars(a + b) == NonSpaceChars(a) + NonSpaceChars(b)
    decreases |a|
  {
    if a == [] {
      assert a + b == b;
    } else {
      assert (a + b)[0] == a[0];
      assert (a + b)[1..] == a[1..] + b;
      NonSpaceCharsAppend(a[1..], b);
    }
  }

  lemma {:induction false} NonSpaceCharsOfWord(w: string)
    requires forall j :: 0 <= j < |w| ==> NonSpace(w[j])
    ensures NonSpaceChars(w) == w
    decreases |w|
  {
    if w != [] {
      NonSpaceCharsOfWord(w[1..]);
      assert w == [w[0]] + w[1..];
    }
  }

  /** Splitting loses, adds and reorders no character: the tokens, put
      together, are the text's non-whitespace characters in order. */
  lemma {:induction false} SplitKeepsChars(s: string)
    ensures Concat(Split(s)) == NonSpaceChars(s)
    decreases |s|
  {
    if s != [] {
      if IsSpace(s[0]) {
        SplitKeepsChars(s[1..]);
      } else {
        var n := Span(s, NonSpace);
        SplitKeepsChars(s[n..]);
        SplitKeepsCharsWord(s, n);
      }
    }
  }

  lemma SplitKeepsCharsWord(s: string, n: nat)
    requires s != [] && NonSpace(s[0]) && n == Span(s, NonSpace)
    requires Concat(Split(s[n..])) == NonSpaceChars(s[n..])
    ensures Concat(Split(s)) == NonSpaceChars(s)
  {
    var w := s[..n];
    SplitFront(s, n);
    ConcatCons(w, Split(s[n..]));
    SpanWord(s, n);
    NonSpaceCharsOfWord(w);
    TakeDrop(s, n);
    NonSpaceCharsAppend(w, s[n..]);
  }

  lemma SpanWord(s: string, n: nat)
    requires n == Span(s, NonSpace)
    ensures forall j :: 0 <= j < |s[..n]| ==> NonSpace(s[..n][j])
  {
    assert forall j :: 0 <= j < n ==> s[..n][j] == s[j];
  }

  lemma SplitFront(s: string, n: nat)
    requires s != [] && NonSpace(s[0]) && n == Span(s, NonSpace)
    ensures Split(s) == [s[..n]] + Split(s[n..])
  {
  }

  lemma ConcatCons(w: string, ts: seq<string>)
    ensures Concat([w] + ts) == w + Concat(ts)
  {
    assert ([w] + ts)[1..] == ts;
  }

  /** `str.split()` undoes joining whitespace-free tokens with spaces. */
  lemma {:induction false} SplitJoin(ts: seq<string>)
    requires forall i :: 0 <= i < |ts| ==> |ts[i]| > 0
    requires forall i, j :: 0 <= i < |ts| && 0 <= j < |ts[i]| ==> NonSpace(ts[i][j])
    ensures Split(JoinSpaces(ts)) == ts
  {
    if |ts| == 1 {
      SplitWord(ts[0], "");
      assert ts[0] + "" == ts[0];
    } else if |ts| > 1 {
      var rest := JoinSpaces(ts[1..]);
      SplitJoin(ts[1..]);
      assert (" " + rest)[1..] == rest;
      assert Split(" " + rest) == Split(rest);
      assert ts[0] + " " + rest == ts[0] + (" " + rest);
      SplitWord(ts[0], " " + rest);
      assert ts == [ts[0]] + ts[1..];
    }
  }

  /** The token list of a column is the concatenation of the token lists of
      its parts. */
  lemma {:induction false} HashtagTokensAppend(a: seq<Option<string>>, b: seq<Option<string>>)
    ensures HashtagTokens(a + b) == HashtagTokens(a) + HashtagTokens(b)
  {
    if a != [] {
      HashtagTokensAppend(a[1..], b);
      HashtagTokensUnfold(a, b);
      ConcatAssoc(RowTokens(a[0]), HashtagTokens(a[1..]), HashtagTokens(b));
    } else {
      assert a + b == b;
    }
  }

  /** One step of the recursion, on a column and on its extension. */
  lemma HashtagTokensUnfold(a: seq<Option<string>>, b: seq<Option<string>>)
    requires a != []
    ensures HashtagTokens(a) == RowTokens(a[0]) + HashtagTokens(a[1..])
    ensures HashtagTokens(a + b) == RowTokens(a[0]) + HashtagTokens(a[1..] + b)
  {
    assert (a + b)[1..] == a[1..] + b;
  }

  /** Missing cells contribute no tokens. */
  lemma {:induction false} HashtagTokensSkipsMissing(cells: seq<Option<string>>)
    requires forall i :: 0 <= i < |cells| ==> cells[i].None?
    ensures HashtagTokens(cells) == []
  {
    if cells != [] {
      HashtagTokensSkipsMissing(cells[1..]);
    }
  }

  // ---------------------------------------------------------------------------
  // Counting

  /** The index of the first occurrence of `t` in `ts`, or `|ts|` when it
      does not occur. */
  function FirstIndex(ts: seq<string>, t: string): (k: nat)
    ensures k <= |ts|
    ensures k < |ts| <==> t in ts
    ensures k < |ts| ==> ts[k] == t
    ensures forall j :: 0 <= j < k ==> ts[j] != t
  {
    if ts == [] then 0
    else if ts[0] == t then 0
    else 1 + FirstIndex(ts[1..], t)
  }

  predicate HasTag(es: seq<Entry>, t: string) {
    exists i :: 0 <= i < |es| && es[i].tag == t
  }

  predicate DistinctTags(es: seq<Entry>) {
    forall i, j :: 0 <= i < j < |es| ==> es[i].tag != es[j].tag
  }

  /** Every entry names a token of `ts` and carries its number of
      occurrences there. */
  predicate ValidCounts(es: seq<Entry>, ts: seq<string>) {
    forall i :: 0 <= i < |es| ==> es[i].tag in ts && es[i].freq == multiset(ts)[es[i].tag]
  }

  /** The entries appear in the order in which their tags first occur. */
  predicate FirstSeenOrder(es: seq<Entry>, ts: seq<string>) {
    forall i, j :: 0 <= i < j < |es| ==> FirstIndex(ts, es[i].tag) < FirstIndex(ts, es[j].tag)
  }

  /** `es` is `Counter(ts)` as a sequence of its items: one entry per
      distinct token, with its count, in first-seen order. */
  predicate Tallies(es: seq<Entry>, ts: seq<string>) {
    && DistinctTags(es)
    && ValidCounts(es, ts)
    && (forall t :: t in ts ==> HasTag(es, t))
    && FirstSeenOrder(es, ts)
  }

  /** One `Counter` update: the entry of `t` goes up by one, or a new entry
      for `t` with count one is appended. */
  function Bump(es: seq<Entry>, t: string): (r: seq<Entry>)
    requires DistinctTags(es)
    ensures HasTag(es, t) ==> |r| == |es| && forall i :: 0 <= i < |es| ==>
      r[i].tag == es[i].tag && r[i].freq == es[i].freq + (if es[i].tag == t then 1 else 0)
    ensures !HasTag(es, t) ==> r == es + [Entry(t, 1)]
  {
    if es == [] then [Entry(t, 1)]
    else if es[0].tag == t then [Entry(t, es[0].freq + 1)] + es[1..]
    else
      assert DistinctTags(es[1..]) by {
        forall i, j | 0 <= i < j < |es[1..]| ensures es[1..][i].tag != es[1..][j].tag {
          assert es[1..][i] == es[i + 1] && es[1..][j] == es[j + 1];
        }
      }
      assert HasTag(es, t) <==> HasTag(es[1..], t) by {
        if HasTag(es, t) {
          var i :| 0 <= i < |es| && es[i].tag == t;
          assert es[1..][i - 1] == es[i];
        }
        if HasTag(es[1..], t) {
          var i :| 0 <= i < |es[1..]| && es[1..][i].tag == t;
          assert es[i + 1] == es[1..][i];
        }
      }
      [es[0]] + Bump(es[1..], t)
  }

  /** `Counter(ts)`: the tokens counted one at a time, left to right. */
  function Tally(ts: seq<string>): (es: seq<Entry>)
    ensures Tallies(es, ts)
  {
    if ts == [] then []
    else
      var init := ts[..|ts| - 1];
      assert ts == init + [ts[|ts| - 1]];
      var es := Tally(init);
      BumpTallies(es, init, ts[|ts| - 1]);
      Bump(es, ts[|ts| - 1])
  }

  /** Counting one more token keeps the counter exact. */
  lemma BumpTallies(es: seq<Entry>, ts: seq<string>, t: string)
    requires Tallies(es, ts)
    ensures Tallies(Bump(es, t), ts + [t])
  {
    BumpDistinct(es, t);
    BumpCounts(es, ts, t);
    BumpCovers(es, ts, t);
    BumpOrder(es, ts, t);
  }

  lemma BumpDistinct(es: seq<Entry>, t: string)
    requires DistinctTags(es)
    ensures DistinctTags(Bump(es, t))
  {
    var r := Bump(es, t);
    if !HasTag(es, t) {
      forall i, j | 0 <= i < j < |r| ensures r[i].tag != r[j].tag {
        assert r[i] == es[i];
        if j < |es| {
          assert r[j] == es[j];
        }
      }
    }
  }

  lemma BumpCounts(es: seq<Entry>, ts: seq<string>, t: string)
    requires DistinctTags(es) && ValidCounts(es, ts)
    requires forall x :: x in ts ==> HasTag(es, x)
    ensures ValidCounts(Bump(es, t), ts + [t])
  {
    var r := Bump(es, t);
    var ts' := ts + [t];
    assert multiset(ts') == multiset(ts) + multiset{t};
    if HasTag(es, t) {
      forall i | 0 <= i < |r| ensures r[i].tag in ts' && r[i].freq == multiset(ts')[r[i].tag] {
      }
    } else {
      forall i | 0 <= i < |r| ensures r[i].tag in ts' && r[i].freq == multiset(ts')[r[i].tag] {
        if i < |es| {
          assert r[i] == es[i];
        } else {
          assert t !in ts;
        }
      }
    }
  }

  lemma BumpCovers(es: seq<Entry>, ts: seq<string>, t: string)
    requires DistinctTags(es) && forall x :: x in ts ==> HasTag(es, x)
    ensures forall x :: x in ts + [t] ==> HasTag(Bump(es, t), x)
  {
    var r := Bump(es, t);
    forall x | x in ts + [t] ensures HasTag(r, x) {
      if HasTag(es, x) {
        var i :| 0 <= i < |es| && es[i].tag == x;
        assert r[i].tag == x;
      } else {
        assert x == t;
        assert r[|es|].tag == x;
      }
    }
  }

  lemma BumpOrder(es: seq<Entry>, ts: seq<string>, t: string)
    requires DistinctTags(es) && ValidCounts(es, ts) && FirstSeenOrder(es, ts)
    requires forall x :: x in ts ==> HasTag(es, x)
    ensures FirstSeenOrder(Bump(es, t), ts + [t])
  {
    FirstIndexesKept(es, ts, t);
    if HasTag(es, t) {
      BumpOrderExisting(es, ts, t);
    } else {
      FirstIndexAppend(ts, t, t);
      BumpOrderNew(es, ts, t);
    }
  }

  /** Appending a token moves no first occurrence of a counted tag. */
  lemma FirstIndexesKept(es: seq<Entry>, ts: seq<string>, t: string)
    requires ValidCounts(es, ts)
    ensures forall i :: 0 <= i < |es| ==>
      FirstIndex(ts + [t], es[i].tag) == FirstIndex(ts, es[i].tag) < |ts|
  {
    forall i | 0 <= i < |es| ensures FirstIndex(ts + [t], es[i].tag) == FirstIndex(ts, es[i].tag) < |ts| {
      FirstIndexAppend(ts, t, es[i].tag);
    }
  }

  lemma BumpOrderExisting(es: seq<Entry>, ts: seq<string>, t: string)
    requires DistinctTags(es) && FirstSeenOrder(es, ts) && HasTag(es, t)
    requires forall i :: 0 <= i < |es| ==>
      FirstIndex(ts + [t], es[i].tag) == FirstIndex(ts, es[i].tag) < |ts|
    ensures FirstSeenOrder(Bump(es, t), ts + [t])
  {
    var r := Bump(es, t);
    forall i, j | 0 <= i < j < |r| ensures FirstIndex(ts + [t], r[i].tag) < FirstIndex(ts + [t], r[j].tag) {
      assert r[i].tag == es[i].tag && r[j].tag == es[j].tag;
    }
  }

  lemma BumpOrderNew(es: seq<Entry>, ts: seq<string>, t: string)
    requires DistinctTags(es) && FirstSeenOrder(es, ts) && !HasTag(es, t)
    requires forall i :: 0 <= i < |es| ==>
      FirstIndex(ts + [t], es[i].tag) == FirstIndex(ts, es[i].tag) < |ts|
    requires FirstIndex(ts + [t], t) == |ts|
    ensures FirstSeenOrder(Bump(es, t), ts + [t])
  {
    var r := Bump(es, t);
    forall i, j | 0 <= i < j < |r| ensures FirstIndex(ts + [t], r[i].tag) < FirstIndex(ts + [t], r[j].tag) {
      assert r[i] == es[i];
      if j < |es| {
        assert r[j] == es[j];
      }
    }
  }

  lemma FirstIndexAppend(ts: seq<string>, t: string, x: string)
    ensures x in ts ==> FirstIndex(ts + [t], x) == FirstIndex(ts, x)
    ensures x !in ts && x == t ==> FirstIndex(ts + [t], x) == |ts|
  {
    var k := FirstIndex(ts + [t], x);
    var k0 := FirstIndex(ts, x);
    if x in ts {
      assert (ts + [t])[k0] == x;
      assert forall j :: 0 <= j < k0 ==> (ts + [t])[j] == ts[j];
    } else if x == t {
      assert (ts + [t])[|ts|] == x;
      assert forall j :: 0 <= j < |ts| ==> (ts + [t])[j] == ts[j];
    }
  }

  // ---------------------------------------------------------------------------
  // Ranking

  predicate NonIncreasing(es: seq<Entry>) {
    forall i, j :: 0 <= i < j < |es| ==> es[i].freq >= es[j].freq
  }

  /** Insert `x` in front of the first entry whose count is not greater. */
  function InsertByFreq(x: Entry, l: seq<Entry>): (r: seq<Entry>)
    ensures multiset(r) == multiset(l) + multiset{x}
    ensures |r| == |l| + 1
    ensures r[0] == x || (|l| > 0 && r[0] == l[0])
  {
    if l == [] || x.freq >= l[0].freq then [x] + l
    else
      assert l == [l[0]] + l[1..];
      [l[0]] + InsertByFreq(x, l[1..])
  }

  lemma {:induction false} InsertNonIncreasing(x: Entry, l: seq<Entry>)
    requires NonIncreasing(l)
    ensures NonIncreasing(InsertByFreq(x, l))
    decreases |l|
  {
    var r := InsertByFreq(x, l);
    if l == [] || x.freq >= l[0].freq {
      assert r == [x] + l;
      forall i, j | 0 <= i < j < |r| ensures r[i].freq >= r[j].freq {
        assert r[j] == l[j - 1];
        if i > 0 {
          assert r[i] == l[i - 1];
        }
      }
    } else {
      var tail := l[1..];
      assert NonIncreasing(tail) by {
        forall i, j | 0 <= i < j < |tail| ensures tail[i].freq >= tail[j].freq {
          assert tail[i] == l[i + 1] && tail[j] == l[j + 1];
        }
      }
      InsertNonIncreasing(x, tail);
      var r' := InsertByFreq(x, tail);
      assert r == [l[0]] + r';
      assert r'[0] == x || r'[0] == l[1];
      forall i, j | 0 <= i < j < |r| ensures r[i].freq >= r[j].freq {
        assert r[j] == r'[j - 1];
        if i > 0 {
          assert r[i] == r'[i - 1];
        } else {
          assert r'[0].freq >= r'[j - 1].freq;
        }
      }
    }
  }

  /** Stable sort by descending count: an insertion sort in which each entry
      goes in front of every later entry with the same count. */
  function SortByFreq(es: seq<Entry>): (r: seq<Entry>)
    ensures multiset(r) == multiset(es)
    ensures |r| == |es|
    ensures NonIncreasing(r)
  {
    if es == [] then []
    else
      assert es == [es[0]] + es[1..];
      InsertNonIncreasing(es[0], SortByFreq(es[1..]));
      InsertByFreq(es[0], SortByFreq(es[1..]))
  }

  /** `a` comes before `b` in `most_common`: a higher count, or the same count
      and an earlier first occurrence. */
  predicate Precedes(a: Entry, b: Entry, ts: seq<string>) {
    a.freq > b.freq || (a.freq == b.freq && FirstIndex(ts, a.tag) < FirstIndex(ts, b.tag))
  }

  /** The entries are exact counts of tokens of `ts`, in `most_common`
      order. */
  predicate Ranked(r: seq<Entry>, ts: seq<string>) {
    ValidCounts(r, ts) && InOrder(r, ts)
  }

  predicate InOrder(r: seq<Entry>, ts: seq<string>) {
    forall i, j :: 0 <= i < j < |r| ==> Precedes(r[i], r[j], ts)
  }

  /** `Counter(ts).most_common(n)`. */
  function MostCommon(ts: seq<string>, n: nat): (r: seq<Entry>)
    ensures |r| == Min(n, |set t | t in ts|)
    ensures Ranked(r, ts)
    ensures DistinctTags(r)
    ensures forall t :: t in ts && !HasTag(r, t) ==>
      |r| == n && (n > 0 ==> Precedes(r[n - 1], Entry(t, multiset(ts)[t]), ts))
  {
    var es := Tally(ts);
    var sorted := SortByFreq(es);
    TallySize(es, ts);
    SortRanks(es, ts);
    var r := sorted[..Min(n, |sorted|)];
    PrefixRanked(sorted, Min(n, |sorted|), ts);
    RankedDistinct(r, ts);
    MostCommonPrefix(es, sorted, ts, n);
    r
  }

  /** The `Hashtags` table: empty when the column is absent, otherwise the
      20 most common tokens of its non-missing cells. */
  function TopHashtags(column: Option<seq<Option<string>>>): (r: seq<Entry>)
    ensures column.None? ==> r == []
    ensures column.Some? ==> |r| == Min(TopCount, |set t | t in HashtagTokens(column.value)|)
    ensures column.Some? ==> Ranked(r, HashtagTokens(column.value)) && DistinctTags(r)
    ensures column.Some? ==> var ts := HashtagTokens(column.value);
      forall t :: t in ts && !HasTag(r, t) ==>
        |r| == TopCount && Precedes(r[TopCount - 1], Entry(t, multiset(ts)[t]), ts)
    ensures forall i :: 0 <= i < |r| ==> IsTag(r[i].tag)
  {
    match column
    case None => []
    case Some(cells) =>
      var ts := HashtagTokens(cells);
      var r := MostCommon(ts, TopCount);
      assert forall i :: 0 <= i < |r| ==> r[i].tag in ts;
      r
  }

  // ---------------------------------------------------------------------------
  // Proofs about counting and ranking

  function TagSet(es: seq<Entry>): set<string> {
    set i | 0 <= i < |es| :: es[i].tag
  }

  /** Distinct tags: as many tags as entries. */
  lemma {:induction false} DistinctTagsCard(es: seq<Entry>)
    requires DistinctTags(es)
    ensures |TagSet(es)| == |es|
    decreases |es|
  {
    if es != [] {
      var rest := es[1..];
      assert DistinctTags(rest) by {
        forall i, j | 0 <= i < j < |rest| ensures rest[i].tag != rest[j].tag {
          assert rest[i] == es[i + 1] && rest[j] == es[j + 1];
        }
      }
      DistinctTagsCard(rest);
      assert TagSet(es) == {es[0].tag} + TagSet(rest) by {
        forall x | x in TagSet(es) ensures x in {es[0].tag} + TagSet(rest) {
          var i :| 0 <= i < |es| && es[i].tag == x;
          if i > 0 {
            assert rest[i - 1].tag == x;
          }
        }
        forall x | x in TagSet(rest) ensures x in TagSet(es) {
          var i :| 0 <= i < |rest| && rest[i].tag == x;
          assert es[i + 1].tag == x;
        }
        assert es[0].tag in TagSet(es);
      }
      assert es[0].tag !in TagSet(rest);
    }
  }

  /** The counter has one entry per distinct token. */
  lemma TallySize(es: seq<Entry>, ts: seq<string>)
    requires Tallies(es, ts)
    ensures |es| == |set t | t in ts|
  {
    DistinctTagsCard(es);
    assert TagSet(es) == set t | t in ts by {
      forall x | x in TagSet(es) ensures x in ts {
        var i :| 0 <= i < |es| && es[i].tag == x;
      }
      forall x | x in ts ensures x in TagSet(es) {
        var i :| 0 <= i < |es| && es[i].tag == x;
      }
    }
  }

  /** Exact counts have distinct tags when they are ranked. */
  lemma RankedDistinct(r: seq<Entry>, ts: seq<string>)
    requires Ranked(r, ts)
    ensures DistinctTags(r)
  {
    forall i, j | 0 <= i < j < |r| ensures r[i].tag != r[j].tag {
      assert Precedes(r[i], r[j], ts);
    }
  }

  /** A permutation of exact counts is exact counts. */
  lemma ValidCountsPermutation(a: seq<Entry>, b: seq<Entry>, ts: seq<string>)
    requires multiset(a) == multiset(b) && ValidCounts(b, ts)
    ensures ValidCounts(a, ts)
  {
    forall i | 0 <= i < |a| ensures a[i].tag in ts && a[i].freq == multiset(ts)[a[i].tag] {
      assert a[i] in multiset(b);
      var k :| 0 <= k < |b| && b[k] == a[i];
    }
  }

  lemma InOrderTail(l: seq<Entry>, ts: seq<string>)
    requires |l| > 0 && InOrder(l, ts)
    ensures InOrder(l[1..], ts)
  {
    forall i, j | 0 <= i < j < |l[1..]| ensures Precedes(l[1..][i], l[1..][j], ts) {
      assert l[1..][i] == l[i + 1] && l[1..][j] == l[j + 1];
    }
  }

  /** Inserting an entry that was seen before every entry of an ordered list
      keeps it ordered: among equal counts it goes first, as a stable sort
      leaves it. */
  lemma {:induction false} InsertInOrder(x: Entry, l: seq<Entry>, ts: seq<string>)
    requires InOrder(l, ts)
    requires forall k :: 0 <= k < |l| ==> FirstIndex(ts, x.tag) < FirstIndex(ts, l[k].tag)
    ensures InOrder(InsertByFreq(x, l), ts)
    decreases |l|
  {
    if l == [] || x.freq >= l[0].freq {
      InsertInFront(x, l, ts);
    } else {
      var tail := l[1..];
      InOrderTail(l, ts);
      forall k | 0 <= k < |tail| ensures FirstIndex(ts, x.tag) < FirstIndex(ts, tail[k].tag) {
        assert tail[k] == l[k + 1];
      }
      InsertInOrder(x, tail, ts);
      InsertBehind(x, l, ts);
    }
  }

  lemma InsertInFront(x: Entry, l: seq<Entry>, ts: seq<string>)
    requires InOrder(l, ts) && (l == [] || x.freq >= l[0].freq)
    requires forall k :: 0 <= k < |l| ==> FirstIndex(ts, x.tag) < FirstIndex(ts, l[k].tag)
    ensures InOrder(InsertByFreq(x, l), ts)
  {
    var r := InsertByFreq(x, l);
    assert r == [x] + l;
    forall k | 0 <= k < |l| ensures Precedes(x, l[k], ts) {
      if k > 0 {
        assert Precedes(l[0], l[k], ts);
      }
    }
    forall i, j | 0 <= i < j < |r| ensures Precedes(r[i], r[j], ts) {
      assert r[j] == l[j - 1];
      if i > 0 {
        assert r[i] == l[i - 1];
      }
    }
  }

  lemma InsertBehind(x: Entry, l: seq<Entry>, ts: seq<string>)
    requires InOrder(l, ts) && |l| > 0 && x.freq < l[0].freq
    requires InOrder(InsertByFreq(x, l[1..]), ts)
    ensures InOrder(InsertByFreq(x, l), ts)
  {
    var r' := InsertByFreq(x, l[1..]);
    var r := InsertByFreq(x, l);
    assert r == [l[0]] + r';
    forall k | 0 <= k < |r'| ensures Precedes(l[0], r'[k], ts) {
      assert r'[k] in multiset(r');
      if r'[k] != x {
        assert r'[k] in multiset(l[1..]);
        var m :| 0 <= m < |l[1..]| && l[1..][m] == r'[k];
        assert Precedes(l[0], l[m + 1], ts);
      }
    }
    forall i, j | 0 <= i < j < |r| ensures Precedes(r[i], r[j], ts) {
      assert r[j] == r'[j - 1];
      if i > 0 {
        assert r[i] == r'[i - 1];
      }
    }
  }

  /** Sorting the counter's entries, which are in first-seen order, puts
      them in `most_common` order. */
  lemma {:induction false} SortInOrder(es: seq<Entry>, ts: seq<string>)
    requires FirstSeenOrder(es, ts)
    ensures InOrder(SortByFreq(es), ts)
    decreases |es|
  {
    if es != [] {
      var rest := es[1..];
      assert FirstSeenOrder(rest, ts) by {
        forall i | 0 <= i < |rest| ensures rest[i] == es[i + 1] {
        }
      }
      SortInOrder(rest, ts);
      var sr := SortByFreq(rest);
      forall k | 0 <= k < |sr| ensures FirstIndex(ts, es[0].tag) < FirstIndex(ts, sr[k].tag) {
        assert sr[k] in multiset(rest);
        var m :| 0 <= m < |rest| && rest[m] == sr[k];
        assert es[m + 1] == sr[k];
      }
      InsertInOrder(es[0], sr, ts);
    }
  }

  lemma SortRanks(es: seq<Entry>, ts: seq<string>)
    requires ValidCounts(es, ts) && FirstSeenOrder(es, ts)
    ensures Ranked(SortByFreq(es), ts)
  {
    SortInOrder(es, ts);
    ValidCountsPermutation(SortByFreq(es), es, ts);
  }

  lemma PrefixRanked(r: seq<Entry>, k: nat, ts: seq<string>)
    requires Ranked(r, ts) && k <= |r|
    ensures Ranked(r[..k], ts)
  {
    forall i | 0 <= i < k ensures r[..k][i] == r[i] {
    }
  }

  /** The first `n` entries of the ranked counter are the `most_common(n)`
      table: every token left out ranks after the last row kept. */
  lemma MostCommonPrefix(es: seq<Entry>, sorted: seq<Entry>, ts: seq<string>, n: nat)
    requires Tallies(es, ts) && multiset(sorted) == multiset(es) && Ranked(sorted, ts)
    ensures var r := sorted[..Min(n, |sorted|)];
      forall t :: t in ts && !HasTag(r, t) ==>
        |r| == n && (n > 0 ==> Precedes(r[n - 1], Entry(t, multiset(ts)[t]), ts))
  {
    var r := sorted[..Min(n, |sorted|)];
    forall t | t in ts && !HasTag(r, t)
      ensures |r| == n && (n > 0 ==> Precedes(r[n - 1], Entry(t, multiset(ts)[t]), ts))
    {
      OmittedRanksLater(es, sorted, ts, n, t);
    }
  }

  lemma OmittedRanksLater(es: seq<Entry>, sorted: seq<Entry>, ts: seq<string>, n: nat, t: string)
    requires Tallies(es, ts) && multiset(sorted) == multiset(es) && Ranked(sorted, ts)
    requires t in ts && !HasTag(sorted[..Min(n, |sorted|)], t)
    ensures Min(n, |sorted|) == n
    ensures n > 0 ==> Precedes(sorted[n - 1], Entry(t, multiset(ts)[t]), ts)
  {
    var k := Min(n, |sorted|);
    var i :| 0 <= i < |es| && es[i].tag == t;
    assert es[i] in multiset(sorted);
    var j :| 0 <= j < |sorted| && sorted[j] == es[i];
    forall m | 0 <= m < k ensures sorted[m].tag != t {
      assert sorted[..k][m] == sorted[m];
    }
    assert j >= k;
    assert sorted[j] == Entry(t, multiset(ts)[t]);
    if n > 0 {
      assert Precedes(sorted[k - 1], sorted[j], ts);
    }
  }
}
