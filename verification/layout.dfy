/** The two-column thumbnail grid of app.py:17-19: the i-th sorted item is
    placed in column `i % 2`, below the items placed there before it. */
module Layout {

  /** What the left (`.0`) and right (`.1`) column hold, top to bottom, after
      the `enumerate` loop has placed every item. */
  function Columns<T>(items: seq<T>): (cols: (seq<T>, seq<T>))
    ensures |cols.0| == (|items| + 1) / 2 && |cols.1| == |items| / 2
    ensures |cols.0| + |cols.1| == |items|
    ensures forall i :: 0 <= i < |items| && i % 2 == 0 ==> cols.0[i / 2] == items[i]
    ensures forall i :: 0 <= i < |items| && i % 2 == 1 ==> cols.1[i / 2] == items[i]
  {
    if |items| == 0 then ([], [])
    else
      var i := |items| - 1;
      var prev := Columns(items[..i]);
      if i % 2 == 0 then (prev.0 + [items[i]], prev.1) else (prev.0, prev.1 + [items[i]])
  }

  /** Reading the grid row by row: left, right, left, right, ... */
  function Interleave<T>(left: seq<T>, right: seq<T>): (s: seq<T>)
    requires |right| <= |left| <= |right| + 1
    ensures |s| == |left| + |right|
    decreases |left|
  {
    if |left| == 0 then []
    else if |right| == 0 then [left[0]]
    else [left[0], right[0]] + Interleave(left[1..], right[1..])
  }

  /** Row `j` of the grid reads left `j`, then right `j`. */
  lemma {:induction false} InterleaveAt<T>(left: seq<T>, right: seq<T>)
    requires |right| <= |left| <= |right| + 1
    ensures forall j :: 0 <= j < |left| ==> Interleave(left, right)[2 * j] == left[j]
    ensures forall j :: 0 <= j < |right| ==> Interleave(left, right)[2 * j + 1] == right[j]
    decreases |left|
  {
    if |left| > 0 && |right| > 0 {
      var rest := Interleave(left[1..], right[1..]);
      InterleaveAt(left[1..], right[1..]);
      var s := Interleave(left, right);
      assert s == [left[0], right[0]] + rest;
      forall j | 1 <= j < |left|
        ensures s[2 * j] == left[j]
      {
        assert s[2 * j] == rest[2 * (j - 1)];
      }
      forall j | 1 <= j < |right|
        ensures s[2 * j + 1] == right[j]
      {
        assert s[2 * j + 1] == rest[2 * (j - 1) + 1];
      }
    }
  }

  /** The two columns together hold exactly the items, as often as they occur. */
  lemma {:induction false} ColumnsMultiset<T>(items: seq<T>)
    ensures multiset(Columns(items).0) + multiset(Columns(items).1) == multiset(items)
  {
    if |items| > 0 {
      var i := |items| - 1;
      ColumnsMultiset(items[..i]);
      assert items == items[..i] + [items[i]];
      assert multiset(items) == multiset(items[..i]) + multiset{items[i]};
    }
  }

  /** Reading the two columns back row by row gives the sorted items again,
      so every item is placed once, in one column, and nothing else is placed. */
  lemma ColumnsInterleave<T>(items: seq<T>)
    ensures Interleave(Columns(items).0, Columns(items).1) == items
    ensures multiset(Columns(items).0) + multiset(Columns(items).1) == multiset(items)
  {
    var cols := Columns(items);
    InterleaveAt(cols.0, cols.1);
    ColumnsMultiset(items);
    var s := Interleave(cols.0, cols.1);
    forall k | 0 <= k < |s|
      ensures s[k] == items[k]
    {
      var j := k / 2;
      if k % 2 == 0 {
        assert k == 2 * j && j < |cols.0|;
        assert s[2 * j] == cols.0[j];
        assert cols.0[k / 2] == items[k];
      } else {
        assert k == 2 * j + 1 && j < |cols.1|;
        assert s[2 * j + 1] == cols.1[j];
        assert cols.1[k / 2] == items[k];
      }
    }
  }
}
