# xmltoexcel record inference in Dafny

xmltoexcel is a small web page that turns uploaded XML files into spreadsheets. Its logic lies
in `parse_xml`, which infers a record structure from a document that has no schema:

1. `find_frequent_child` counts the tags of the root's direct children in a dict. It picks the
   most frequent tag, or `None` when the root has no children. A tie goes to the tied tag that
   was inserted into the dict first.
2. `root.findall('.//tag')` collects every descendant of the root with that tag, in document
   order.
3. Each match is flattened into a dict from its children's tags to their stripped text.
   The last child with a given tag wins.

Around it, `handle_files` converts the uploads whose names end in `.xml`. It names each
spreadsheet after the part of the upload name before its first `.`. The page sends a lone
`.zip` upload to `handle_zip` instead.

The model works on already parsed element trees. It has these modules:

- `Wrappers`: `Option` and `Result`.
- `Text`: `str.strip` with Python's whitespace set, `endswith`, and `split('.')[0]`.
- `Seqs`: first occurrences, and the key order of an insertion-ordered dict.
- `Elements`: the element tree, its pre-order, and the `.//tag` search.
- `RecordTags`: the counting loop and `max(counts, key=counts.get)`.
- `Records`: flattening and `parse_xml`.
- `Batch`: `handle_files`, output names, and the zip dispatch.

The loops of the source become methods with loop invariants. `CountChildTags`, `Flatten`,
`FlattenAll`, `ParseXml` and `HandleFiles` are proved against ghost predicates that state
the result outright (`Tally`, `Flattens`, `FlattensAll`, `Infers`, `Converted`). A uniqueness
lemma for each of `Tally`, `Flattens`, `Infers` and `Converted` shows that the predicate fixes the
result completely. `FirstMaximal` and `FindFrequentChild` carry the property directly in their
`ensures`.

Four behaviours of the code are easy to misread:

- **Tie-break.** A tie goes to the tag whose first occurrence comes earliest. It does not go to
  the first tag to reach the maximum count: children `[A, B, B, A]` give `A`.
- **Output name.** The name keeps only the text before the first `.`, not the name minus its
  extension. `a.v1.xml` and `a.v2.xml` both become `a.xlsx`.
- **Parse errors.** A parse failure is not caught. The first malformed `.xml` upload aborts the
  whole batch, so no file gets an error of its own.
- **No record tag.** When there is no record tag, the search path is the f-string `.//None`.
  This is modelled as a search for the tag `"None"`, which finds nothing because the root
  then has no children.

## Model

| member | source | states |
|---|---|---|
| RecordTags.CountChildTags | app.py:20-26 | after the loop over the root's children, `counts[t]` is the number of direct children tagged `t`, for exactly the tags that occur; `order` lists the dict keys in first-occurrence order; the counts sum to the number of children |
| RecordTags.TallyUnique | app.py:20-26 | the counts and the key order the loop leaves are determined by the children's tags |
| RecordTags.FirstMaximal | app.py:27 | `max` over a non-empty dict returns a key whose count no key exceeds, and every key before it in iteration order has a strictly smaller count |
| RecordTags.FindFrequentChild | app.py:19-27 | the result is `None` exactly when the root has no direct children; otherwise it is a child tag of maximal count, and among the tags of that count the one whose first occurrence is earliest |
| RecordTags.RecordTagUnique | app.py:19-27 | that characterisation of the selected tag admits only one tag |
| RecordTags.MajoritySelected | app.py:19-27 | children tagged `[A, A, B]` select `A` and nothing else |
| RecordTags.TieGoesToFirstSeen | app.py:23-27 | children tagged `[A, B, B, A]` select `A`, although `B` reaches the maximal count first |
| Elements.FindAll | app.py:31 | `root.findall(f'.//{t}')` yields exactly the root's descendants tagged `t`, in document pre-order |
| Elements.IterAll | app.py:31 | `Element.iter(t)` over each tree of a forest yields only elements tagged `t`, and no more than the forest holds |
| Elements.IterAllIsFilteredPreorder | app.py:31 | the descendant search over a forest equals its pre-order filtered by tag |
| Elements.RootNotDescendant | app.py:31 | the root is not among its own descendants, so the search never yields the root |
| Elements.FindAllCoversChildren | app.py:31 | the search finds at least as many elements as there are direct children with the tag |
| Records.CellText | app.py:34 | a child's value is the stripped text when text is present, and `''` exactly when the text is absent or all whitespace |
| Records.Flatten | app.py:32-34 | the dict for one match has one key per distinct child tag, in first-occurrence order, and each key holds the value of the last child with that tag |
| Records.FlattensUnique | app.py:32-34 | the children determine the record: two results of the flattening are equal |
| Records.LastWriteWins | app.py:34 | two children with the same tag give a single column holding the second child's value |
| Records.GrandchildrenIgnored | app.py:33-34 | children that agree in tag and text give the same record, whatever their own children are |
| Records.FlattenAll | app.py:30-35 | one record per matched element, at the same position |
| Records.ParseXml | app.py:17-36 | no records when the root has no children; otherwise one record per descendant carrying the selected tag, in document order, each flattened from that element's children |
| Records.InfersUnique | app.py:17-36 | the records are determined by the document |
| Records.RecordsCoverChildren | app.py:29-35 | a root with children yields at least one record, and at least as many as there are direct children with the selected tag |
| Records.NestedMatchesAreRecords | app.py:19-35 | children `[item, item, group[item, item, item]]` select `item` from the direct children, and then all five `item` elements become records, nested ones included |
| Text.IsSpace | app.py:34 | the characters `str.strip()` removes: those `str.isspace()` accepts (ASCII tab to carriage return, the information separators U+001C to U+001F, space, U+0085, U+00A0, U+1680, U+2000 to U+200A, U+2028, U+2029, U+202F, U+205F and U+3000) |
| Text.Strip | app.py:34 | `str.strip()` returns the infix of its argument that is surrounded only by whitespace and does not itself start or end with whitespace; it is empty exactly when the argument is all whitespace |
| Text.StripIdempotent | app.py:34 | stripping a stripped value changes nothing |
| Text.EndsWith | app.py:48 | `s.endswith(suffix)`: `s` is at least as long as `suffix` and its last characters are `suffix` |
| Text.BeforeFirstDot | app.py:51 | `split('.')[0]` is the longest prefix without a `.` |
| Batch.OutputName | app.py:43-51 | the spreadsheet name is the upload name's prefix up to its first `.`, followed by `.xlsx` |
| Batch.OutputNameIgnoresAfterFirstDot | app.py:51 | everything from the first `.` on is dropped from the name |
| Batch.OutputNameOfPlainXml | app.py:43-51 | `stem.xml` becomes `stem.xlsx` |
| Batch.OutputNamesCanCollide | app.py:51 | two different upload names can be given the same spreadsheet name |
| Batch.IsXmlName | app.py:48 | an upload is converted when its name ends in `.xml` |
| Batch.XmlUploads | app.py:47-48 | the converted uploads are exactly the uploads whose name ends in `.xml` |
| Batch.XmlUploadsAppend | app.py:47-48 | the filter keeps upload order: the converted uploads of `a + b` are those of `a` followed by those of `b` |
| Batch.XmlUploadsOne | app.py:47-48 | a single upload is converted exactly when its name ends in `.xml` |
| Batch.HandleFiles | app.py:45-53 | the batch succeeds exactly when every `.xml` upload parses; it then holds one spreadsheet per `.xml` upload, in upload order, named by `OutputName` and holding the records `parse_xml` infers; otherwise it fails naming the first malformed `.xml` upload |
| Batch.ConvertedUnique | app.py:45-53 | the spreadsheets of a successful batch are determined by its uploads |
| Batch.ZipNotConvertedInBatch | app.py:87-90 | a `.zip` upload sent to `handle_files` with other files is never converted |
| Batch.RouteFor | app.py:87 | `handle_zip` is chosen exactly when there is a single upload and its name ends in `.zip` |

## Left out

- XML text parsing by `ET.fromstring` (app.py:18) and UTF-8 decoding (app.py:49) are library code. A document is either a parsed element tree or `Malformed`, which stands for either failure.
- Attributes, comments, processing instructions and tail text are left out, because `parse_xml` never reads them.
- The ElementPath path language is not modelled in general. For ordinary tags `local` and `{uri}local`, the `.//tag` step is exactly the tag-equality search over the root's descendants that `FindAll` models. The one exception is the namespace URI `*`, covered by the next two lines.
- Elements.FindAll: a record tag of the form `{*}local` can come from a document declaring `xmlns="*"`. ElementPath reads such a path tag as a namespace wildcard, matching `local` in any namespace or in none. The model matches only the exact tag `{*}local`.
- Records.ParseXml: for the same reason, when the record tag has the form `{*}local`, the source also turns the other elements named `local` into records, and the model does not. In `<r><x xmlns="*"/><x xmlns="*"/><x/></r>` the source yields three records and the model two.
- `to_excel`'s DataFrame and xlsxwriter serialization (app.py:38-42) is library spreadsheet encoding. The model keeps only the output name and the rows passed to the writer.
- `handle_zip` and `create_zip` (app.py:55-68) are left out. They are archive and filesystem I/O, and the order of `os.listdir` is unspecified.
- `upload_to_airtable` (app.py:70-77) is a network client, so it is left out.
- The Streamlit page (app.py:1-15, 79-101) is left out apart from the dispatch test at line 87.
- The exception escaping `handle_files` is modelled as a `Failure` result. What the page does after the exception is not modelled.
- Batch.HandleFiles: the model treats `to_excel` (app.py:51) as never failing. In the source, the spreadsheet writer raises when a sheet exceeds Excel's size limit (1,048,576 rows or 16,384 columns), and that failure aborts the batch just as a parse error does. The model returns `Success` for such an upload, because spreadsheet encoding is not modelled.
- Batch.HandleFiles: the upload name carried by `ParseError` is the model's record of which upload raised the error. The Python exception (`ParseError` or `UnicodeDecodeError`) does not carry the file name.
