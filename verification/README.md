# text_transformer: a Dafny model

This project models the two pieces of pure logic in `text_transformer.py`.

- **`transform_text`.** It strips the input and refuses fewer than three whitespace-separated words with a fixed message. Otherwise it alternates the case of the letters: a letter is upper-cased when the `capitalize_next` flag is set and lower-cased when it is not, and every letter flips the flag. Spaces, digits and punctuation are copied unchanged and leave the flag alone. A missing input (`None`) makes `strip` raise, and the handler returns a second fixed message.
- **The traversal in `parse_xml`.** The document is an already parsed tree of elements, each with a tag, an optional text and a list of children. The outer loop visits every `ECUC-CONTAINER-VALUE` below the root in document order. For each one, the code appends the container's record, then, in an inner loop, the record of every container nested anywhere below it. So a nested container is emitted once by the outer loop and once more for every container that encloses it. A record holds the `.text` of the first `SHORT-NAME` and the first `DEFINITION-REF` found below the container in document order. Those may belong to a nested container. If either lookup finds nothing, `.text` raises and the whole result becomes `[]`. An unreadable file also gives `[]`.

The ElementTree queries used with a `.//tag` path are modelled from their documented behaviour. The ElementTree library is not part of this model.
- `findall` returns all proper descendants carrying the tag, in pre-order, never the element itself.
- `find` returns the first of them, or `None`.

Tags are the qualified names `{http://autosar.org/schema/r4.0}…`, compared as opaque strings.

Modules:
- `Ascii`: Python's `isspace`, `isalpha`, `upper`, `lower` on ASCII.
- `Words`: argument-less `strip()` and `split()`.
- `Transform`: `transform_text`.
- `ElementTree`: the element tree, `findall`, `find`.
- `Extractor`: `parse_xml`'s traversal.
- `Exporter`: what `generate_excel` decides to write.
- `Options` and `Seqs`: shared helpers.

The code emits repeated records for nested containers. Its comments suggest one record per container: the outer loop is meant to take all containers (line 19), and the inner loop the "sub-containers" of each (lines 26 and 28). That would be one record per container only if the outer loop saw the top-level containers alone, but its `.//` path reaches every depth. The model follows the code (`Extractor.ParseXml`) and gives the one-record-per-container reading separately (`Extractor.ParseXmlOnce`). See Findings.

## Model

| member | source | states |
|---|---|---|
| `Ascii.IsSpace` | text_transformer.py:64-66 | the whitespace `strip()` and `split()` act on; the properties of `Words` are stated in terms of it |
| `Ascii.IsAlpha` | text_transformer.py:75 | the letter test of the loop; `Upper`, `Lower` and `Transform.AlternateShape` state how letters are treated |
| `Ascii.Upper` | text_transformer.py:78 | an ASCII letter becomes the upper case of the same letter (same position in the alphabet), anything else is unchanged; letters stay letters and whitespace stays whitespace |
| `Ascii.Lower` | text_transformer.py:80 | an ASCII letter becomes the lower case of the same letter (same position in the alphabet), anything else is unchanged; letters stay letters and whitespace stays whitespace |
| `Ascii.CaseRoundTrip` | text_transformer.py:77-80 | re-casing an already cased character gives the same result as casing the original |
| `Words.TrimLeft` | text_transformer.py:64 | the result is a suffix of the input, everything removed is whitespace, and it does not start with whitespace |
| `Words.TrimRight` | text_transformer.py:64 | the result is a prefix of the input, everything removed is whitespace, and it does not end with whitespace |
| `Words.Strip` | text_transformer.py:64 | the stripped input neither starts nor ends with whitespace and is no longer than the input |
| `Words.StripSlice` | text_transformer.py:64 | the input is some whitespace, then the stripped input, then some whitespace: `strip()` removes nothing but surrounding whitespace |
| `Words.StripStripped` | text_transformer.py:64 | stripping a string without leading or trailing whitespace returns it unchanged |
| `Words.WordLength` | text_transformer.py:66 | the length of the leading run of non-whitespace: that run is whitespace-free and is followed by whitespace or the end |
| `Words.Split` | text_transformer.py:66 | `split()` as a recursive function; its contract is carried by `Words.SplitWords`, `Words.SplitConcat`, `Words.SplitAtSpace` and `Words.SplitJoin` |
| `Words.SplitWords` | text_transformer.py:66 | every word `split()` returns is non-empty and free of whitespace |
| `Words.SplitConcat` | text_transformer.py:66 | `split()` drops only whitespace: the words, written one after the other, are exactly the non-whitespace characters of the input, in order |
| `Words.SplitAtSpace` | text_transformer.py:66 | every whitespace character cuts: the words of `a + [c] + b` with `c` whitespace are the words of `a` followed by the words of `b`; with `Words.SplitConcat` this fixes the words on every input, whatever the runs or kinds of whitespace (`"ab  cd"` splits into `"ab"`, `"cd"`, `Words.SplitExample`) |
| `Words.SplitExample` | text_transformer.py:66 | a run of two spaces cuts once: `"ab  cd".split()` is `["ab", "cd"]` |
| `Words.SplitJoin` | text_transformer.py:66 | `' '.join(ws).split() == ws` for non-empty whitespace-free words: on single-space-joined input, `split()` cuts exactly at the word boundaries |
| `Words.SplitCount` | text_transformer.py:66 | the number of words equals an independent one-pass count of word starts (a non-whitespace character at the start or after whitespace) |
| `Words.SplitCountSameSpacing` | text_transformer.py:66 | two strings with whitespace at the same positions split into the same number of words |
| `Transform.Alternate` | text_transformer.py:73-83 | the character loop as a recursive function; its contract is carried by `Transform.AlternateShape` and `Transform.AlternateAt` |
| `Transform.AlternateShape` | text_transformer.py:73-83 | the loop keeps the length, keeps letters as letters, copies every non-letter unchanged and so keeps the whitespace in place |
| `Transform.AlternateAt` | text_transformer.py:71-81 | the character at position i is the input letter upper-cased exactly when the parity of the letters before it leaves the flag set; non-letters are copied |
| `Transform.AlternateLoop` | text_transformer.py:70-83 | the imperative loop, with its running string and boolean flag, computes the recursive alternation |
| `Transform.AlternateIdempotent` | text_transformer.py:73-83 | applying the alternation to its own output returns that output |
| `Transform.TransformText` | text_transformer.py:62-89 | `None` gives the error message; fewer than 3 words after stripping gives the minimum-words message; otherwise the result has the stripped input's length, with letters in the same places and non-letters unchanged |
| `Transform.TransformLetterParity` | text_transformer.py:71-81 | for an accepted input, a letter is upper-cased when an even number of letters precede it in the stripped input and lower-cased when an odd number do, ignoring word boundaries |
| `Transform.TransformIdempotent` | text_transformer.py:64-83 | the output for an accepted input is itself accepted, and transforming it again returns it unchanged |
| `ElementTree.DescendantsSize` | text_transformer.py:20 | the descendants of an element number one less than its subtree size, and each is strictly smaller than it |
| `ElementTree.NotOwnDescendant` | text_transformer.py:20 | an element is never among its own descendants |
| `ElementTree.PreorderMembers` | text_transformer.py:20 | an element of a forest's pre-order is a root of the forest or a descendant of one, and conversely |
| `ElementTree.DescendantMembers` | text_transformer.py:20 | the descendants of an element are its children and their descendants |
| `ElementTree.DescendantTransitive` | text_transformer.py:27 | a descendant of a descendant is a descendant |
| `ElementTree.TaggedMembers` | text_transformer.py:20 | filtering by tag keeps exactly the elements carrying the tag and adds none |
| `ElementTree.TaggedAppend` | text_transformer.py:20 | filtering by tag distributes over concatenation, so document order is kept |
| `ElementTree.TaggedFirst` | text_transformer.py:22-23 | the first filtered element is the first element of the list that carries the tag |
| `ElementTree.FindAll` | text_transformer.py:20 | `findall('.//tag')`; its contract is carried by `ElementTree.FindAllMembers` and `ElementTree.TaggedFirst` |
| `ElementTree.Find` | text_transformer.py:22-23 | `find('.//tag')`; its contract is carried by `ElementTree.FindFirst` |
| `ElementTree.FindAllMembers` | text_transformer.py:20 | `findall` returns exactly the descendants carrying the tag, never the element it is called on |
| `ElementTree.FindFirst` | text_transformer.py:22-23 | `find` is `None` exactly when no descendant carries the tag; otherwise it is a descendant with that tag and none before it in document order |
| `Extractor.RecordOf` | text_transformer.py:22-24 | the record of one container, or `None` when a lookup fails; its contract is carried by `Extractor.RecordOfFields` |
| `Extractor.RecordOfFields` | text_transformer.py:22-24 | a record exists exactly when both fields occur below the container; its values are the texts of the first SHORT-NAME and the first DEFINITION-REF in document order |
| `Extractor.Records` | text_transformer.py:22-31 | all or nothing: records exist exactly when every visited container has both fields, and then there is one per visit, in visit order |
| `Extractor.ParseXml` | text_transformer.py:11-39 | an unreadable document, a document with no containers, or any container missing a field gives `[]`; otherwise there is one record per visit, in the loops' order |
| `Extractor.Visits` | text_transformer.py:20-31 | the containers the two loops visit, in append order; its contract is carried by `Extractor.VisitsAreContainers`, `Extractor.VisitMultiplicity` and `Extractor.VisitCount` |
| `Extractor.VisitsAreContainers` | text_transformer.py:20-31 | the containers the two loops visit are exactly the document's containers; the inner loop only repeats them |
| `Extractor.VisitCount` | text_transformer.py:20-31 | the loops make as many visits as there are containers plus the sum of the containers' nesting depths |
| `Extractor.VisitMultiplicity` | text_transformer.py:20-31 | as multisets, the visits are the containers each repeated once for itself and once per enclosing container, against an independent per-depth listing of the forest |
| `Extractor.DocumentVisitMultiplicity` | text_transformer.py:20-31 | for a whole document, a container nested in k containers below the root is visited, and so has its record appended, exactly k + 1 times |
| `Extractor.ParseXmlLength` | text_transformer.py:20-33 | for a document whose containers all have both fields, the result length is the number of containers plus the sum of their nesting depths below the root |
| `Extractor.ParseXmlFlat` | text_transformer.py:20-33 | without nesting, the result has exactly one record per container, in document order |
| `Extractor.EcuMExample` | text_transformer.py:20-31 | `EcuM` containing `EcuMConfig` yields the three records `EcuM`, `EcuMConfig`, `EcuMConfig` |
| `Extractor.ParseXmlOnce` | text_transformer.py:20-24 | the corrected extraction: `[]` on the same failures, otherwise exactly one record per container, in document order |
| `Extractor.ParseXmlOnceAgreesFlat` | text_transformer.py:20-31 | on documents without nesting, the code's extraction and the corrected one coincide |
| `Exporter.GenerateExcel` | text_transformer.py:41-52 | no data means no file and the warning message; otherwise a sheet with header `Short Name`, `Definition Ref` and one two-cell row per record |
| `Exporter.ExportRoundTrip` | text_transformer.py:51-52 | reading the written rows back gives the records, in order |

## Left out

- Parsing the XML bytes (`ET.parse`, line 14) is left out. The model takes the parsed tree, or `None` when the file cannot be parsed.
- Namespace handling is left out. Qualified tags are opaque strings.
- Logging and `print` output are left out. They are side effects only.
- The `__main__` block (lines 91-116) is left out: argument parsing, the file-existence check, `sys.exit` and directory creation.
- Writing the spreadsheet (`pandas.DataFrame`, `to_excel`) is left out. It is a library outside the repository. `Exporter` states only what would be written.
- `Exporter.GenerateExcel`: does not model the write-error branch (lines 56-60). That branch depends on the file system.
- Characters outside ASCII are left out. `Ascii.IsSpace` and `Ascii.IsAlpha` treat them as neither whitespace nor letters. Python treats e.g. `é` as a letter and `'\xa0'` as whitespace. Python's full case mapping can also change the length (`'ß'.upper()`).
- `Transform.TransformText`: no other exception than the one raised for `None` is modelled. With the ASCII model, no other exception can occur.

## Findings

| source | as written | input that shows it | evidently intended | confidence | as-written member | corrected member |
|---|---|---|---|---|---|---|
| text_transformer.py:20-31 | the outer `findall('.//…')` already reaches containers at every depth, and the inner loop appends every nested container again, once per enclosing container | a container `EcuM` holding a container `EcuMConfig`: three records `EcuM`, `EcuMConfig`, `EcuMConfig` | one record per container in document order, as the comments at lines 19, 26 and 28 (containers, then their sub-containers) suggest: `EcuM`, `EcuMConfig` | medium; not executed | `Extractor.EcuMExample` (on `Extractor.ParseXml`) | `Extractor.ParseXmlOnce` |
