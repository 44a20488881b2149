/** The evaluation table and its join to the uploaded images (app.py:7-15):
    scores are coerced to numbers, rows are sorted by total score in
    descending order with missing scores last, and each row is attached to
    the image whose synthetic key `No<k>.png` equals its `FileName`. */
module Evaluation {
  import opened Wrappers
  import Decimal

  /** A score after `pd.to_numeric(..., errors="coerce")`: a number, or
      `None` for a missing or non-numeric cell (pandas' NaN). */
  type Score = Option<real>

  /** One row of the uploaded evaluation table. The four display fields hold
      the text `str()` gives for each cell. */
  datatype Row = Row(fileName: string, total: Score, buzz: string, still: string,
                     video: string, reason: string)

  /** An entry of `sorted_items`: an image index and the row attached to it. */
  datatype Item = Item(index: nat, row: Row)

  // ---------------------------------------------------------------- keys

  /** The synthetic name of the image at 0-based position `idx`: `No{idx+1}.png`. */
  function Key(idx: nat): (k: string)
    ensures |k| >= 7
    ensures k[..2] == "No" && k[|k| - 4..] == ".png"
    ensures k[2..|k| - 4] == Decimal.NatToString(idx + 1)
  {
    "No" + Decimal.NatToString(idx + 1) + ".png"
  }

  /** Different images never share a key. */
  lemma KeyInjective(i: nat, j: nat)
    requires Key(i) == Key(j)
    ensures i == j
  {
    Decimal.NatToStringInjective(i + 1, j + 1);
  }

  lemma KeysDistinct()
    ensures forall i: nat, j: nat :: Key(i) == Key(j) ==> i == j
  {
    forall i: nat, j: nat | Key(i) == Key(j)
      ensures i == j
    {
      KeyInjective(i, j);
    }
  }

  /** The dictionary `fname2idx` of app.py:7 for `n` uploaded images. */
  function FileIndexMap(n: nat): (m: map<string, nat>)
    ensures forall idx: nat :: idx < n ==> Key(idx) in m && m[Key(idx)] == idx
    ensures forall name :: name in m ==> m[name] < n && Key(m[name]) == name
  {
    KeysDistinct();
    map idx: nat | idx < n :: Key(idx) := idx
  }

  /** `fname2idx.get(name)` of app.py:13: the image whose key is `name`, or
      nothing when no uploaded image has that key. */
  function FileIndex(n: nat, name: string): (r: Option<nat>)
    ensures forall idx: nat :: r == Some(idx) <==> idx < n && Key(idx) == name
  {
    var m := FileIndexMap(n);
    if name in m then Some(m[name]) else None
  }

  /** An independent reading of the key format: `No`, a decimal without
      leading zeros for a number `k >= 1`, then `.png`; the image is `k - 1`. */
  function ParseKey(name: string): Option<nat> {
    if |name| >= 6 && name[..2] == "No" && name[|name| - 4..] == ".png" then
      match Decimal.ParseNat(name[2..|name| - 4])
      case Some(k) => if k >= 1 then Some(k - 1) else None
      case None => None
    else None
  }

  /** Reading a key back gives its image. */
  lemma ParseKeyOfKey(idx: nat)
    ensures ParseKey(Key(idx)) == Some(idx)
  {
    Decimal.ParseRendered(idx + 1);
  }

  /** A name that reads as the key of `idx` is that key, character for character. */
  lemma KeyOfParseKey(name: string)
    requires ParseKey(name).Some?
    ensures Key(ParseKey(name).value) == name
  {
    var mid := name[2..|name| - 4];
    Decimal.RenderParsed(mid);
    assert name == name[..2] + mid + name[|name| - 4..];
  }

  /** A file name resolves to image `idx` exactly when it parses as the key
      of `idx` and `idx` is one of the `n` uploaded images. */
  lemma FileIndexIsParseKey(n: nat, name: string)
    ensures FileIndex(n, name) == match ParseKey(name)
                                  case Some(idx) => if idx < n then Some(idx) else None
                                  case None => None
  {
    var m := FileIndexMap(n);
    if name in m {
      ParseKeyOfKey(m[name]);
    } else if ParseKey(name).Some? {
      KeyOfParseKey(name);
    }
  }

  // ------------------------------------------------------------- ordering

  /** `a` may come before `b` in `sort_values(ascending=False)`: larger
      numbers first, missing values last. */
  predicate AtLeast(a: Score, b: Score) {
    b.None? || (a.Some? && a.value >= b.value)
  }

  /** Non-increasing in total score, every numeric score before every missing one. */
  predicate ScoreSorted(rows: seq<Row>) {
    forall i, j :: 0 <= i < j < |rows| ==> AtLeast(rows[i].total, rows[j].total)
  }

  /** Puts `r` into an already sorted sequence. */
  function Insert(r: Row, sorted: seq<Row>): (s: seq<Row>)
    requires ScoreSorted(sorted)
    ensures ScoreSorted(s)
    ensures multiset(s) == multiset(sorted) + multiset{r}
    ensures forall x :: x in s ==> x == r || x in sorted
  {
    if |sorted| == 0 then [r]
    else if AtLeast(r.total, sorted[0].total) then
      ConsSorted(r, sorted);
      [r] + sorted
    else
      var rest := Insert(r, sorted[1..]);
      assert sorted == [sorted[0]] + sorted[1..];
      ConsSorted(sorted[0], rest);
      [sorted[0]] + rest
  }

  /** A row that may precede the head of a sorted sequence, and every one
      of its other rows, may be put in front of it. */
  lemma ConsSorted(x: Row, rest: seq<Row>)
    requires ScoreSorted(rest)
    requires |rest| > 0 ==> AtLeast(x.total, rest[0].total)
    ensures ScoreSorted([x] + rest)
  {
  }

  /** One ordering `df_eval.sort_values(by="TotalScore", ascending=False)`
      may produce. pandas' default sort is not stable, so among equal scores
      no order is promised; every property below about the join is proved
      for any ordering that satisfies `ScoreSorted` and is a permutation. */
  function SortByScore(rows: seq<Row>): (s: seq<Row>)
    ensures ScoreSorted(s)
    ensures multiset(s) == multiset(rows)
  {
    if |rows| == 0 then []
    else
      assert rows == [rows[0]] + rows[1..];
      Insert(rows[0], SortByScore(rows[1..]))
  }

  // ----------------------------------------------------------------- join

  /** The row's `FileName` is a key in `fname2idx`. */
  predicate Resolves(n: nat, r: Row) {
    FileIndex(n, r.fileName).Some?
  }

  /** The rows of `rows` that resolve, in their order: the reference the
      join loop is measured against. */
  function Matched(rows: seq<Row>, n: nat): seq<Row> {
    if |rows| == 0 then []
    else
      var last := rows[|rows| - 1];
      Matched(rows[..|rows| - 1], n) + (if Resolves(n, last) then [last] else [])
  }

  function RowsOf(items: seq<Item>): (rs: seq<Row>)
    ensures |rs| == |items|
    ensures forall k :: 0 <= k < |items| ==> rs[k] == items[k].row
  {
    seq(|items|, k requires 0 <= k < |items| => items[k].row)
  }

  /** Every item points at an uploaded image whose key is its row's name. */
  predicate WellJoined(items: seq<Item>, n: nat) {
    forall k :: 0 <= k < |items| ==>
      items[k].index < n && Key(items[k].index) == items[k].row.fileName
  }

  /** The loop of app.py:10-15 over an already sorted table. */
  method CollectSortedItems(sorted: seq<Row>, n: nat) returns (items: seq<Item>)
    ensures WellJoined(items, n)
    ensures RowsOf(items) == Matched(sorted, n)
  {
    items := [];
    var i := 0;
    while i < |sorted|
      invariant i <= |sorted|
      invariant WellJoined(items, n)
      invariant RowsOf(items) == Matched(sorted[..i], n)
    {
      var row := sorted[i];
      var idx := FileIndex(n, row.fileName);
      assert sorted[..i + 1][..i] == sorted[..i];
      assert Matched(sorted[..i + 1], n) ==
        Matched(sorted[..i], n) + (if Resolves(n, row) then [row] else []);
      if idx.Some? {
        var next := items + [Item(idx.value, row)];
        assert idx.value < n && Key(idx.value) == row.fileName;
        assert forall k :: 0 <= k < |items| ==> next[k] == items[k];
        assert RowsOf(next) == RowsOf(items) + [row];
        items := next;
      }
      i := i + 1;
    }
    assert sorted[..i] == sorted;
  }

  /** `sorted_items` of app.py:7-15: sort, then keep the rows that resolve. */
  method SortedItems(rows: seq<Row>, n: nat) returns (items: seq<Item>)
    ensures WellJoined(items, n)
    ensures ScoreSorted(RowsOf(items))
    ensures multiset(RowsOf(items)) == multiset(Matched(rows, n))
    ensures forall r :: r in RowsOf(items) <==> r in rows && Resolves(n, r)
  {
    var sorted := SortByScore(rows);
    items := CollectSortedItems(sorted, n);
    JoinOfAdmissibleOrder(rows, sorted, n);
    MatchedMembers(sorted, n);
    assert forall r :: r in rows <==> r in multiset(sorted);
  }

  // ------------------------------------------------------- join lemmas

  /** A row survives the filter exactly when it is in the table and resolves. */
  lemma {:induction false} MatchedMembers(rows: seq<Row>, n: nat)
    ensures forall r :: r in Matched(rows, n) <==> r in rows && Resolves(n, r)
  {
    if |rows| > 0 {
      var init := rows[..|rows| - 1];
      MatchedMembers(init, n);
      assert rows == init + [rows[|rows| - 1]];
    }
  }

  /** The filter keeps each resolving row as often as it occurs and drops
      the others entirely. */
  lemma {:induction false} MatchedCount(rows: seq<Row>, n: nat, r: Row)
    ensures multiset(Matched(rows, n))[r] == if Resolves(n, r) then multiset(rows)[r] else 0
  {
    if |rows| > 0 {
      var init := rows[..|rows| - 1];
      var last := rows[|rows| - 1];
      MatchedCount(init, n, r);
      assert rows == init + [last];
      assert multiset(rows) == multiset(init) + multiset{last};
      assert Matched(rows, n) == Matched(init, n) + (if Resolves(n, last) then [last] else []);
    }
  }

  /** The filter keeps the relative order of the rows it keeps, so a sorted
      table gives sorted items. */
  lemma {:induction false} MatchedSorted(rows: seq<Row>, n: nat)
    requires ScoreSorted(rows)
    ensures ScoreSorted(Matched(rows, n))
  {
    if |rows| > 0 {
      var init := rows[..|rows| - 1];
      var last := rows[|rows| - 1];
      assert ScoreSorted(init);
      MatchedSorted(init, n);
      MatchedMembers(init, n);
      var m := Matched(init, n);
      forall x | x in m
        ensures AtLeast(x.total, last.total)
      {
        var j :| 0 <= j < |init| && init[j] == x;
      }
    }
  }

  /** Whatever order pandas chooses among ties, the items are sorted and are
      exactly the resolving rows of the table, with their multiplicity. */
  lemma JoinOfAdmissibleOrder(rows: seq<Row>, sorted: seq<Row>, n: nat)
    requires ScoreSorted(sorted) && multiset(sorted) == multiset(rows)
    ensures ScoreSorted(Matched(sorted, n))
    ensures multiset(Matched(sorted, n)) == multiset(Matched(rows, n))
  {
    MatchedSorted(sorted, n);
    forall r
      ensures multiset(Matched(sorted, n))[r] == multiset(Matched(rows, n))[r]
    {
      MatchedCount(sorted, n, r);
      MatchedCount(rows, n, r);
    }
  }

  /** No two rows share a `FileName`. */
  predicate UniqueFileNames(rows: seq<Row>) {
    forall i, j :: 0 <= i < j < |rows| ==> rows[i].fileName != rows[j].fileName
  }

  lemma {:induction false} UniqueNamesOccurOnce(rows: seq<Row>, r: Row)
    requires UniqueFileNames(rows)
    ensures multiset(rows)[r] <= 1
  {
    if |rows| > 0 {
      var init := rows[..|rows| - 1];
      var last := rows[|rows| - 1];
      assert rows == init + [last];
      UniqueNamesOccurOnce(init, r);
      if r == last {
        assert r !in init;
      }
    }
  }

  lemma RepeatedCountsTwice<T>(s: seq<T>, i: nat, j: nat)
    requires i < j < |s| && s[i] == s[j]
    ensures multiset(s)[s[i]] >= 2
  {
    assert s == s[..j] + [s[j]] + s[j + 1..];
    assert s[..j][i] == s[i];
  }

  /** With unique file names in the table, no image is shown twice: each
      matching row is attached to its image and only to it. */
  lemma EachImageShownOnce(rows: seq<Row>, items: seq<Item>, n: nat)
    requires UniqueFileNames(rows)
    requires WellJoined(items, n)
    requires multiset(RowsOf(items)) == multiset(Matched(rows, n))
    ensures forall i, j :: 0 <= i < j < |items| ==> items[i].index != items[j].index
  {
    var rs := RowsOf(items);
    MatchedMembers(rows, n);
    forall i, j | 0 <= i < j < |items|
      ensures items[i].index != items[j].index
    {
      if items[i].index == items[j].index {
        var r := rs[i];
        assert r in multiset(rs) && rs[j] in multiset(rs);
        assert r in rows && rs[j] in rows;
        var p :| 0 <= p < |rows| && rows[p] == r;
        var q :| 0 <= q < |rows| && rows[q] == rs[j];
        assert p == q;
        RepeatedCountsTwice(rs, i, j);
        MatchedCount(rows, n, r);
        UniqueNamesOccurOnce(rows, r);
        assert false;
      }
    }
  }
}
