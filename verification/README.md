# Image evaluator: score join, grid placement and ZIP names

A Dafny model of the string-and-join core of the image evaluator's
"evaluation thumbnails and bulk download" fragment (`app.py`). A user
uploads `N` images and an evaluation table. Each row of the table carries a
`FileName`, a `TotalScore`, three other scores and a free-text `Reason`. The
fragment does four things, and the model covers each of them:

- **Join and sort** (module `Evaluation`). Image `idx` gets the synthetic
  key `No{idx+1}.png`. `TotalScore` is coerced to a number, with missing
  values allowed. Rows are sorted by it in descending order, with missing
  values last. A row is kept only if its `FileName` is the key of an
  uploaded image. The dictionary `fname2idx` is modelled as the map
  comprehension it is. It is proved equal to an independent parser of the
  key format. That proof rests on the round trip between `str(n)` and
  canonical decimals (module `Decimal`).
- **Two-column grid** (module `Layout`). The `i`-th sorted item goes to
  column `i % 2`. Reading the two columns row by row gives the items back.
- **Sanitiser `clean`** (module `Sanitize`). It is modelled as the eleven
  chained `str.replace` calls followed by `[:30]`. It is proved equal to a
  per-character table followed by truncation. The proofs show that its
  output is free of the replaced characters, at most 30 characters long,
  and that `clean` is idempotent. They also show exactly when `clean`
  returns its argument unchanged.
- **ZIP entry names** (module `Export`). There is one name per uploaded
  image, in upload order. Each name is
  `"{total}_{buzz}_{still}_{video}_{clean(reason)}.png"`, built from the row
  keyed `No{idx+1}.png`, or `"____.png"` when there is no such row. The
  lookup table raises on duplicate `FileName`s. That is modelled as an
  error result, not a precondition.

A score is `Option<real>`. `None` stands for the NaN that
`pd.to_numeric(..., errors="coerce")` produces for missing or non-numeric
cells. How `str()` prints a coerced score is a parameter, `render`. The
other score fields and the reason are kept as the text `str()` gives for
each cell.

Two behaviours of the code are worth stating plainly:

- The lookup is an exact match of `FileName` against `No{idx+1}.png`
  (app.py:7, 13), so `no1.png`, `No01.png` and ` No1.png` do not match.
- Only the reason is passed through `clean`. The four score strings are
  copied verbatim and the whole name is not truncated
  (`Export.EntryNameClean`).

## Model

| member | source | states |
|---|---|---|
| `Decimal.NatToString` | app.py:7 | the `{idx+1}` rendering is a canonical decimal: non-empty, digits only, no leading zero, and one character exactly for numbers below 10 |
| `Decimal.ParseRendered` | app.py:7 | parsing the rendering of `n` gives `n` back |
| `Decimal.RenderParsed` | app.py:7 | every canonical decimal is the rendering of the number it denotes, so rendering is one-to-one |
| `Evaluation.Key` | app.py:7 | the key of image `idx` is `No`, then the decimal of `idx+1`, then `.png` |
| `Evaluation.KeyInjective` | app.py:7 | two different images never share a key |
| `Evaluation.FileIndexMap` | app.py:7 | `fname2idx` maps the key of each of the `N` images to that image and holds nothing else |
| `Evaluation.ParseKeyOfKey` | app.py:7 | reading the key of `idx` back as `No<k>.png` gives `idx` |
| `Evaluation.KeyOfParseKey` | app.py:7 | a name that reads as `No<k>.png` with canonical `k >= 1` is exactly the key of image `k-1` |
| `Evaluation.FileIndexIsParseKey` | app.py:13 | `fname2idx.get(name)` is `idx` exactly when the name parses as `No<idx+1>.png` and `idx < N`; otherwise it is missing |
| `Evaluation.FileIndex` | app.py:13 | the lookup gives `idx` exactly when `idx < N` and the name is `idx`'s key, and gives nothing for any other name |
| `Evaluation.ConsSorted` | app.py:9 | a row whose score is at least the head's may go in front of a descending, missing-last sequence and keeps it so |
| `Evaluation.Insert` | app.py:9 | inserting into a descending, missing-last sequence keeps it so, and adds exactly that one row |
| `Evaluation.SortByScore` | app.py:8-9 | the sorted table is non-increasing in total score, has missing scores after all numeric ones, and is a permutation of the table |
| `Evaluation.CollectSortedItems` | app.py:10-15 | the loop keeps, in order, exactly the rows whose `FileName` resolves, and pairs each with the image whose key is that name |
| `Evaluation.SortedItems` | app.py:7-15 | `sorted_items` points only at uploaded images by their key; it is score-sorted; it holds exactly the resolving rows, with their multiplicity |
| `Evaluation.MatchedMembers` | app.py:11-15 | a row is kept if and only if it is in the table and its name resolves |
| `Evaluation.MatchedCount` | app.py:11-15 | a resolving row is kept as many times as it occurs; a non-resolving row is dropped entirely |
| `Evaluation.MatchedSorted` | app.py:9-15 | filtering a score-sorted table leaves it score-sorted |
| `Evaluation.JoinOfAdmissibleOrder` | app.py:8-15 | for any order the unstable sort may choose among ties, the kept rows are sorted and are the same multiset of rows |
| `Evaluation.UniqueNamesOccurOnce` | app.py:58 | in a table with unique `FileName`s no row occurs twice |
| `Evaluation.EachImageShownOnce` | app.py:11-15 | with unique `FileName`s, no image index appears twice in `sorted_items` |
| `Layout.Columns` | app.py:17-19 | item `i` sits in column `i % 2` at row `i / 2`; the left column has `ceil(n/2)` items and the right one `floor(n/2)` |
| `Layout.InterleaveAt` | app.py:17-19 | reading the grid row by row, row `j` gives left item `j` at position `2j` and right item `j` at position `2j+1` |
| `Layout.ColumnsMultiset` | app.py:17-19 | the two columns together hold exactly the sorted items, each as often as it occurs |
| `Layout.ColumnsInterleave` | app.py:17-19 | the two columns, read back row by row, are the sorted items, so every item is placed exactly once |
| `Sanitize.Replace` | app.py:66-68 | `replace(c, t)` leaves no `c` when `t` has none, introduces only characters of `t`, and keeps length for a one-character `t` |
| `Sanitize.Replacements` | app.py:66-68 | the eleven chained `replace` calls never lengthen the string and leave no newline |
| `Sanitize.MapChar` | app.py:66-68 | every character maps to one clean character, except newline, which maps to nothing; untouched characters map to themselves |
| `Sanitize.Take` | app.py:69 | `s[:k]` is a prefix of `s` of length `min(k, len(s))` |
| `Sanitize.Clean` | app.py:64-69 | `clean(s)` has at most 30 characters, none of `/ \ : * ? " < >`, the vertical bar, space or newline, and is the first 30 characters of the per-character mapping of `s` |
| `Sanitize.ReplaceAppend` | app.py:66-68 | `replace` distributes over concatenation |
| `Sanitize.ReplacementsOfChar` | app.py:66-68 | one character through the chain of eleven replacements is its row of the table |
| `Sanitize.ReplacementsAppend` | app.py:66-68 | the chain of replacements distributes over concatenation |
| `Sanitize.ReplacementsAreSanitized` | app.py:66-68 | the chain of `replace` calls equals the per-character mapping with newline deletion |
| `Sanitize.SanitizedIsClean` | app.py:66-68 | after the replacements none of the replaced characters is left |
| `Sanitize.SanitizedLength` | app.py:68 | only newlines change the length: output length is input length minus the number of newlines |
| `Sanitize.SanitizedPointwise` | app.py:66-68 | without newlines, output character `i` is input character `i` looked up in the table |
| `Sanitize.SanitizedKeepsClean` | app.py:66-68 | a string with none of the replaced characters passes the replacements unchanged |
| `Sanitize.CleanIdempotent` | app.py:64-69 | `clean(clean(s)) == clean(s)` |
| `Sanitize.CleanFixpoint` | app.py:64-69 | `clean(s) == s` exactly when `s` has at most 30 characters and none of the replaced ones |
| `Export.FindRow` | app.py:58 | the lookup returns a row of the table with that `FileName`, and returns nothing exactly when no row has that name |
| `Export.FindRowUnique` | app.py:58 | with unique names the lookup returns the one row carrying that name |
| `Export.FormatName` | app.py:70 | the f-string holds total, buzz, still, video and the cleaned reason in that order, each of the first four followed by `_` and the last by `.png`, every field at the offset the fields before it fix |
| `Export.FieldsDetermineName` | app.py:70 | the five fields fix the name: two names with the same fields in those positions are equal |
| `Export.EntryName` | app.py:59-70 | an entry name ends in `.png`; it is `____.png` without a row; with a row it is that row's rendered total, buzz, still and video, then `clean(reason)`, in f-string order and positions, and at most the four score strings plus 38 long |
| `Export.EntryNameClean` | app.py:59-70 | the name is free of the replaced characters exactly when the four score strings are, since only the reason is sanitised |
| `Export.EntryNames` | app.py:54-70 | it fails exactly when there is an image and `FileName`s repeat; otherwise there is one name per image in upload order, built from the row keyed `No{idx+1}.png`, or `____.png` when no row has that key |
| `Export.UnmatchedImagesCollide` | app.py:54-70 | entry names are not unique: for any table, any two images without a matching row get the same name, `____.png` |
| `Export.GridAndArchiveAgree` | app.py:54-70 | every image shown in the sorted grid with a row is exported under that row's scores and reason |

## Left out

- Streamlit rendering is not modelled: `st.markdown`, `st.subheader`, `st.image`, the column widgets, the buttons and the download button (app.py:3-4, 17-34, 40-49, 74-75). It is user-interface output. Only which item lands in which column is modelled.
- The enlarge and close-enlarge session-state flow is not modelled, including the early `return` (app.py:33-45). `enlarge` and `clear_enlarge` are defined outside this file, and the flow only changes UI state.
- `Image.open`, `img.save`, `tempfile` and the `ZipFile` writes are not modelled (app.py:21, 50-55, 71-73). They are file and image I/O in foreign libraries. The model produces the list of entry names, not archive bytes. When two images share a name, the second `img.save` overwrites the first file and `zipfile` writes a second entry under the same name.
- `clean_filename` (app.py:57) is defined outside this file and its result is unused.
- Evaluation.SortByScore: scores are exact `real`s, not floats. `pd.to_numeric` produces floats, and ±infinity is not modelled. Parsing the score text is not modelled either: a row carries the coerced score, with `None` for NaN.
- Export.EntryName: how `str()` prints a coerced float (`"85.0"`, `"nan"`) is left abstract as the `render` parameter. How `str()` prints other cells is left abstract too, for example a NaN reason prints as `"nan"`. The name is exact relative to those strings.
- Evaluation.SortByScore: pandas' default `quicksort` is not stable, so it may order tied rows differently. The model sorts with an insertion sort. Every property of the join is proved for any score-sorted permutation (`Evaluation.JoinOfAdmissibleOrder`). The exact tie order pandas picks is not modelled.
- Sanitize.Clean: characters are Unicode scalar values. Python strings can also hold lone surrogates, which the model does not cover.
- Export.EntryNames: saving is not modelled, so the model does not flag names that cannot be saved. A score string holding `/`, such as a BuzzScore of `4/5`, gives a name like `85.0_4/5___.png`, and `img.save` then raises `FileNotFoundError` (app.py:71-72). A name longer than the file system's limit fails in the same way. Either failure aborts the whole export, but the model still returns a name for every image. A table without a `FileName` or `TotalScore` column raises `KeyError` (app.py:8, 12). A `Row` always has both fields, so the model cannot represent that case.
- Layout.ColumnsInterleave: only where each item is placed is modelled. When two rows of the table resolve to the same image, `sorted_items` holds that image twice. The second time it is drawn, `st.button` is created with the widget key `enlarge_eval_{img_idx}` a second time (app.py:33), Streamlit raises, and the later items and the export are never reached. A missing `BuzzScore`, `StillScore`, `VideoScore` or `Reason` column likewise raises `KeyError` (app.py:25-29) as soon as one row resolves.
