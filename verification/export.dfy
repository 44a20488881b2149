/** Names of the entries of the score-named ZIP archive (app.py:54-70): one
    entry per uploaded image, in upload order, named after the four scores
    and the sanitised reason of the row keyed `No<k>.png`. */
module Export {
  import opened Wrappers
  import opened Evaluation
  import Sanitize

  /** `set_index("FileName").to_dict("index")` raises when two rows share a
      `FileName`. */
  datatype ExportError = DuplicateFileName

  /** `...to_dict("index").get(name, {})`: the row named `name`, if any. */
  function FindRow(rows: seq<Row>, name: string): (r: Option<Row>)
    ensures r.Some? ==> r.value in rows && r.value.fileName == name
    ensures r.None? <==> forall i :: 0 <= i < |rows| ==> rows[i].fileName != name
  {
    if |rows| == 0 then None
    else if rows[0].fileName == name then Some(rows[0])
    else FindRow(rows[1..], name)
  }

  /** In a table with unique names the row found is the only row with that name. */
  lemma FindRowUnique(rows: seq<Row>, name: string, r: Row)
    requires UniqueFileNames(rows)
    requires r in rows && r.fileName == name
    ensures FindRow(rows, name) == Some(r)
  {
    var found := FindRow(rows, name).value;
    var p :| 0 <= p < |rows| && rows[p] == r;
    var q :| 0 <= q < |rows| && rows[q] == found;
    assert p == q;
  }

  /** `name` is the five fields in f-string order, each of the first four
      followed by `_` and the last by `.png`: every field sits at the offset
      the lengths of the fields before it determine. */
  predicate HasFields(name: string, total: string, buzz: string, still: string, video: string, cleaned: string) {
    var b := |total| + 1;
    var s := b + |buzz| + 1;
    var v := s + |still| + 1;
    var c := v + |video| + 1;
    |name| == c + |cleaned| + 4 &&
    name[..b] == total + "_" && name[b..s] == buzz + "_" && name[s..v] == still + "_" &&
    name[v..c] == video + "_" && name[c..] == cleaned + ".png"
  }

  /** The f-string of app.py:70, applied to the four score strings and the
      already cleaned reason: five fields joined by `_`, then `.png`. */
  function FormatName(total: string, buzz: string, still: string, video: string, cleaned: string): (name: string)
    ensures HasFields(name, total, buzz, still, video, cleaned)
    ensures |name| == |total| + |buzz| + |still| + |video| + |cleaned| + 8
  {
    var p1 := total + "_";
    var p2 := p1 + buzz + "_";
    var p3 := p2 + still + "_";
    var p4 := p3 + video + "_";
    var name := p4 + cleaned + ".png";
    assert name[..|p1|] == p1;
    assert name[|p1|..|p2|] == buzz + "_";
    assert name[|p2|..|p3|] == still + "_";
    assert name[|p3|..|p4|] == video + "_";
    assert name[|p4|..] == cleaned + ".png";
    name
  }

  /** The fields pin the name: two names with the same five fields are equal,
      so a name is read back into its fields in exactly one way. */
  lemma FieldsDetermineName(n1: string, n2: string,
                            total: string, buzz: string, still: string, video: string, cleaned: string)
    requires HasFields(n1, total, buzz, still, video, cleaned)
    requires HasFields(n2, total, buzz, still, video, cleaned)
    ensures n1 == n2
  {
  }

  /** `img_name` of app.py:59-63, 70 for the looked-up record `e`: a missing
      record gives empty strings for every field. `render` is Python's
      `str()` of the coerced total score. */
  function EntryName(e: Option<Row>, render: Score -> string): (name: string)
    ensures |name| >= 8 && name[|name| - 4..] == ".png"
    ensures e.None? ==> name == "____.png"
    ensures e.Some? ==>
      HasFields(name, render(e.value.total), e.value.buzz, e.value.still, e.value.video,
                Sanitize.Clean(e.value.reason))
    ensures e.Some? ==>
      |name| <= |render(e.value.total)| + |e.value.buzz| + |e.value.still| + |e.value.video| + 38
  {
    match e
    case Some(r) => FormatName(render(r.total), r.buzz, r.still, r.video, Sanitize.Clean(r.reason))
    case None =>
      assert Sanitize.Clean("") == "";
      FormatName("", "", "", "", Sanitize.Clean(""))
  }

  /** Only the reason is sanitised: the name is free of the characters
      `clean` replaces exactly when the four score strings are. */
  lemma EntryNameClean(r: Row, render: Score -> string)
    ensures Sanitize.IsClean(EntryName(Some(r), render)) <==>
      Sanitize.IsClean(render(r.total)) && Sanitize.IsClean(r.buzz) &&
      Sanitize.IsClean(r.still) && Sanitize.IsClean(r.video)
  {
    FormatNameClean(render(r.total), r.buzz, r.still, r.video, Sanitize.Clean(r.reason));
  }

  /** The f-string is clean exactly when its five fields are. */
  lemma FormatNameClean(total: string, buzz: string, still: string, video: string, cleaned: string)
    ensures Sanitize.IsClean(FormatName(total, buzz, still, video, cleaned)) <==>
      Sanitize.IsClean(total) && Sanitize.IsClean(buzz) && Sanitize.IsClean(still) &&
      Sanitize.IsClean(video) && Sanitize.IsClean(cleaned)
  {
    var name := FormatName(total, buzz, still, video, cleaned);
    assert forall c :: c in name <==>
      c in total || c in buzz || c in still || c in video || c in cleaned || c in "_.png";
  }

  /** The archive's entry names for `n` uploaded images, in upload order. The
      lookup table is rebuilt on every iteration, so it fails as soon as
      there is at least one image and the names are not unique. */
  function EntryNames(rows: seq<Row>, n: nat, render: Score -> string): (result: Result<seq<string>, ExportError>)
    ensures result.Failure? <==> n > 0 && !UniqueFileNames(rows)
    ensures result.Success? ==> |result.value| == n
    ensures result.Success? ==> forall idx, r :: 0 <= idx < n && r in rows && r.fileName == Key(idx) ==>
      result.value[idx] == EntryName(Some(r), render)
    ensures result.Success? ==> forall idx :: 0 <= idx < n && FindRow(rows, Key(idx)).None? ==>
      result.value[idx] == "____.png"
  {
    if n > 0 && !UniqueFileNames(rows) then Failure(DuplicateFileName)
    else
      var names := seq(n, idx requires 0 <= idx < n => EntryName(FindRow(rows, Key(idx)), render));
      assert forall idx, r :: 0 <= idx < n && r in rows && r.fileName == Key(idx) ==>
        FindRow(rows, Key(idx)) == Some(r) by {
        forall idx, r | 0 <= idx < n && r in rows && r.fileName == Key(idx)
          ensures FindRow(rows, Key(idx)) == Some(r)
        {
          FindRowUnique(rows, Key(idx), r);
        }
      }
      Success(names)
  }

  /** Entry names need not be unique: any two images without a matching row
      get the same name, `____.png`, whatever the table holds. */
  lemma UnmatchedImagesCollide(rows: seq<Row>, n: nat, render: Score -> string, i: nat, j: nat)
    requires EntryNames(rows, n, render).Success?
    requires i < n && j < n
    requires FindRow(rows, Key(i)).None? && FindRow(rows, Key(j)).None?
    ensures EntryNames(rows, n, render).value[i] == EntryNames(rows, n, render).value[j] == "____.png"
  {
  }

  /** The image shown with a row in the sorted grid is exported under that
      row's scores: display and export agree on every matched image. */
  lemma GridAndArchiveAgree(rows: seq<Row>, items: seq<Item>, n: nat, render: Score -> string)
    requires UniqueFileNames(rows)
    requires WellJoined(items, n)
    requires forall k :: 0 <= k < |items| ==> items[k].row in rows
    ensures EntryNames(rows, n, render).Success?
    ensures forall k :: 0 <= k < |items| ==>
      EntryNames(rows, n, render).value[items[k].index] == EntryName(Some(items[k].row), render)
  {
  }
}
