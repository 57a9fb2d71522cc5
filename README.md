# TLG_JoinCaptchaBot core, modelled in Dafny

This project models three pieces of the Telegram join-captcha bot:

- **`TSjson`**, the bot's thread-safe JSON record store. One handle is bound to one file. The
  file holds a JSON object whose `Content` key lists records, and a record maps field names to
  JSON values. The store offers:
  - raw document access: `read`, `write`, `delete`;
  - content access: `read_content`, `write_content` (append), `clear_content`;
  - first-match lookups and edits: `is_in`, `is_in_position`, `search_by_uid`, `update`,
    `update_twice`, `remove_by_uid`.
- **Helpers from `commons.py`**: adding and removing the left-to-right mark U+200E,
  `list_remove_element`, and the line filter inside `file_read`.
- **`is_valid` from `langcheck.py`**: checks a translation against the English language file.
  Every English key must be present, and each text must have the same number of `{}`
  placeholders.

Module layout:

- `TsJson` (tsjson.dfy) models the file as an abstract state: `Absent`, `Empty` (zero bytes),
  `Corrupt` (does not parse) or `Parsed(doc)`.
  - A document is its parsed value: the `Content` list when the key is present, plus the other
    top-level keys.
  - Class `TSjson` holds that state in the field `file`. Every method is one atomic step.
  - Each method is proved equal to a function of the old state (`WriteStep`,
    `RemoveByUidStep`, …), or to a result function when it changes nothing.
  - A loop's first-match test is the `Matcher` datatype, evaluated by `Test`, which follows
    Python's rules:
    - a missing key raises KeyError;
    - `and` short-circuits;
    - `data[uid]` is looked up before `msg[uid]`.
  - An uncaught KeyError is the outcome `RaisesKeyError(key)` (module `Wrappers`), and the file
    is left as it was.
- `TsJsonProperties` (tsjson_properties.dfy) proves the promises of each operation about those
  functions.
- `Commons` (commons.dfy) holds the commons helpers. Two modules support it:
  - `Utf8` (utf8.dfy): Python's strict UTF-8 encoder and decoder.
  - `PyLists` (pylists.dfy): `list.index`, `del` and `list.remove`, and `PyList`, a list object
    shared by reference.
- `LangCheck` (langcheck.dfy) holds `is_valid` and a corrected variant.

Behaviour of the code that the model keeps as written:

- `is_in_position` returns `(False, len(Content))` when a readable document holds no match. It
  returns `(False, -1)` only when there is no document.
- A non-empty document without `Content` is not treated as empty by the content-level
  operations (the document `{}` is: it gives the no-document answer):
  - `read_content`, `is_in`, `is_in_position`, `search_by_uid`, `update`, `update_twice` and
    `remove_by_uid` (through `read_content`) raise KeyError;
  - `write_content` catches the KeyError and returns False.
- A non-empty record without the field being compared, reached before the first match, makes
  `search_by_uid`, `update`, `update_twice` and `remove_by_uid` raise KeyError. No exception
  handler covers these lines. `search_by_uid` skips empty records, and `update_twice` looks up
  its second field only in a record whose first field matched.
- `clear_content` overwrites a corrupt file with the skeleton. It also drops every top-level key
  other than `Content`.
- When no record matches, `remove_by_uid` still clears the file and writes back only the first
  record.

## Model

| member | source | states |
|---|---|---|
| `PyLists.IndexOf` | sources/commons.py:149 | `list.index`: None exactly when the element is absent; otherwise an in-range index holding it, with no earlier occurrence |
| `PyLists.RemoveAt` | sources/commons.py:150 | defines `del s[i]`: the elements before i followed by those after it |
| `PyLists.RemoveAtShape` | sources/commons.py:150 | `del s[i]` keeps the elements before i, shifts the later ones down by one, and removes exactly one copy of `s[i]` (multiset) |
| `PyLists.RemoveFirst` | sources/tsjson.py:270 | defines `list.remove(x)` for an x in the list: deletion at the first index holding x |
| `PyLists.RemoveFirstShape` | sources/tsjson.py:270 | `list.remove(x)` deletes only the first occurrence: the prefix before it is unchanged and free of x, the list is one shorter, and exactly one copy of x is gone |
| `PyLists.RemoveFirstUndone` | sources/tsjson.py:270 | putting x back at the index it was removed from gives the original list |
| `PyLists.RemoveFirstOfFirstHit` | sources/tsjson.py:267-271 | when no earlier element equals `s[i]`, `remove(s[i])` deletes exactly index i |
| `PyLists.PyList.constructor` | sources/commons.py:146 | a list object holding the given elements |
| `Utf8.EncodeChar` | sources/commons.py:69 | each scalar value encodes to one to four bytes |
| `Utf8.Encode` | sources/commons.py:69 | the encoding of a string has between one and four bytes per character |
| `Utf8.DecodeFirst` | sources/commons.py:72 | a successful strict decode of the head consumes between one and all of the bytes |
| `Utf8.Decode` | sources/commons.py:72 | defines `bytes.decode("utf-8")`: the strict head decode repeated to the end, None (UnicodeDecodeError) as soon as a head is ill-formed |
| `Utf8.EncodeAppend` | sources/commons.py:69-71 | encoding a concatenation is the concatenation of the encodings |
| `Utf8.DecodeFirstEncodeChar` | sources/commons.py:72 | the strict decoder reads back exactly the character the encoder wrote, whatever bytes follow |
| `Utf8.DecodeEncode` | sources/commons.py:69-72 | round trip: decoding the encoding of any string gives the string back, so the decode never fails |
| `Commons.LrmBytesEncodeLrm` | sources/commons.py:68 | the three literal bytes are the UTF-8 encoding of U+200E |
| `Commons.AddLrm` | sources/commons.py:65-75 | the byte-appending loop returns U+200E followed by the input, and its exception handler is unreachable |
| `Commons.RmLrm` | sources/commons.py:78-85 | drops exactly one leading U+200E; any other string, the empty one included, is returned unchanged |
| `Commons.RmLrmAfterAddLrm` | sources/commons.py:65-85 | round trip: `rm_lrm(add_lrm(s)) == s` for every s, including strings that already start with the mark |
| `Commons.AddLrmAfterRmLrm` | sources/commons.py:78-85 | a string starting with the mark is rebuilt by putting the mark back in front of `rm_lrm` of it |
| `Commons.ListRemoveElement` | sources/commons.py:146-156 | returns True exactly when the element was in the caller's list; then the list is changed in place by removing the first occurrence only; otherwise it is untouched |
| `Commons.RemoveAll` | sources/commons.py:137-138 | `replace(ch, "")` leaves no ch, is no longer than the input, adds no character, and is the identity when ch is absent |
| `Commons.RemoveAllKeepsOthers` | sources/commons.py:137-138 | `replace(ch, "")` removes every copy of ch and keeps every copy of every other character (multiset) |
| `Commons.RemoveAllAppend` | sources/commons.py:137-138 | `replace` works character by character: removing from a concatenation concatenates the results, so the kept characters stay in order |
| `Commons.StripLineBreaks` | sources/commons.py:137-138 | after both replacements the line holds no `\r` and no `\n` |
| `Commons.StripLineBreaksKeepsOthers` | sources/commons.py:137-138 | both replacements keep every character other than `\r` and `\n`, with its multiplicity, and work character by character, so the rest of the line survives in order |
| `Commons.IsBlankLine` | sources/commons.py:135 | defines the blank lines `file_read` skips: `""`, `"\r\n"`, `"\r"` and `"\n"` |
| `Commons.KeptLines` | sources/commons.py:132-139 | defines the lines `file_read` returns: blank lines dropped, the others stripped of `\r` and `\n`, in input order |
| `Commons.KeptLinesAppend` | sources/commons.py:132-139 | the filter works line by line: filtering a concatenation concatenates the results, so input order is kept |
| `Commons.KeptLinesShape` | sources/commons.py:132-139 | the filter never yields more lines than it was given, and no line it yields contains `\r` or `\n` |
| `Commons.KeptLinesOfCleanLines` | sources/commons.py:135-139 | lines that are not blank and have no line breaks pass through unchanged |
| `Commons.FileReadLines` | sources/commons.py:127-143 | the loop with its `continue` returns exactly the filtered lines: blank lines (`""`, `"\r\n"`, `"\r"`, `"\n"`) dropped, the others stripped of `\r` and `\n`, in order |
| `TsJson.EmptyObject` | sources/tsjson.py:76-84 | defines `{}`, the document `read` returns for a missing or empty file (lines 76, 82, 84) and the value the `== {}` tests compare against |
| `TsJson.WithContent` | sources/tsjson.py:179 | defines the document after its `Content` list is edited in place (`append` at line 179, `file_data["Content"][i] = data` at 329 and 359): the new list, every other key kept |
| `TsJson.Falsy` | sources/tsjson.py:103 | defines Python truthiness of a parsed document (`not data` at line 103, `== {}` at lines 149, 223, 243, 293, 319 and 349): only the empty object `{}` is falsy |
| `TsJson.Skeleton` | sources/tsjson.py:189 | defines `{"Content": []}`, the parsed value of the skeleton text that `write_content` (189) and `clear_content` (380) write |
| `TsJson.Test` | sources/tsjson.py:268-353 | defines one evaluation of the four loop conditions (lines 268, 299, 323, 353): a missing key raises KeyError, `and` short-circuits, `data[uid]` is looked up before `msg[uid]`, and `search_by_uid` skips empty records |
| `TsJson.ScanFrom` | sources/tsjson.py:322-326 | first-match scan: a returned index is the first record the test accepts; "none" means every record was rejected; a KeyError comes from the first record whose test raises, before any match |
| `TsJson.Scan` | sources/tsjson.py:322-326 | defines the first-match `for` loop started at the first record (lines 267, 296, 322, 352), which every lookup and edit uses |
| `TsJson.ReadContentResult` | sources/tsjson.py:139-151 | records are returned only from a parsed document, and they are its `Content`; a non-empty document with `Content` always returns those records; KeyError arises exactly when a non-empty document lacks `Content` |
| `TsJson.ReadResult` | sources/tsjson.py:67-92 | defines `read`: `{}` for a missing or empty file, None for a corrupt one, the document otherwise |
| `TsJson.WriteStep` | sources/tsjson.py:95-118 | defines `write`: a falsy document is refused with False and the file kept; any other replaces the file, with True |
| `TsJson.WriteContentStep` | sources/tsjson.py:154-211 | defines `write_content`: an empty record is refused; a missing or empty file gets the skeleton plus the record; a document gets the record appended to `Content`; a corrupt file, or a document without `Content`, gives False and is kept |
| `TsJson.ClearContentStep` | sources/tsjson.py:366-385 | defines `clear_content`: a missing or empty file is refused; any other file, a corrupt one included, becomes the skeleton |
| `TsJson.IsInResult` | sources/tsjson.py:214-229 | defines `is_in`: False without a document, KeyError without `Content`, otherwise membership of the record in `Content` |
| `TsJson.IsInPositionResult` | sources/tsjson.py:232-251 | defines `is_in_position`: (False, -1) without a document, KeyError without `Content`, otherwise (True, first index) or (False, `len(Content)`) |
| `TsJson.SearchByUidResult` | sources/tsjson.py:279-303 | defines `search_by_uid`: not found without a document, KeyError without `Content`, otherwise the outcome of the first-match scan that skips empty records |
| `TsJson.ReplaceFirstStep` | sources/tsjson.py:306-363 | defines the shared body of `update` and `update_twice`: read, scan for the first match, and on a match write the document with that record replaced; no match, no document or a KeyError leaves the file alone |
| `TsJson.UpdateStep` | sources/tsjson.py:306-333 | defines `update` as the replacement of the first record whose uid equals `data[uid]` |
| `TsJson.UpdateTwiceStep` | sources/tsjson.py:336-363 | defines `update_twice` as the replacement of the first record equal to data on both fields |
| `TsJson.RemoveByUidStep` | sources/tsjson.py:254-276 | defines `remove_by_uid` as written: read the content, remove the first match, clear the file, then append only the first remaining record |
| `TsJson.RemoveByUidKeepingRestStep` | sources/tsjson.py:254-260 | defines the corrected removal: the first match is removed and the whole remaining document is written back once; no match leaves the file alone |
| `TsJson.TSjson.constructor` | sources/tsjson.py:56-62 | a handle bound to the given file name and the file's current state |
| `TsJson.TSjson.Read` | sources/tsjson.py:67-92 | returns `{}` for a missing or empty file, None for a corrupt one, and the document otherwise; nothing changes |
| `TsJson.TSjson.Write` | sources/tsjson.py:95-118 | the falsy document is refused and the file is unchanged; any other document replaces the file and True is returned |
| `TsJson.TSjson.Delete` | sources/tsjson.py:121-134 | the file ends absent and True is returned, even when it was already absent |
| `TsJson.TSjson.ReadContent` | sources/tsjson.py:139-151 | `{}` when `read` gave None or `{}`; the `Content` list otherwise; KeyError for a document without `Content` |
| `TsJson.TSjson.WriteContent` | sources/tsjson.py:154-211 | empty record refused; a missing or empty file gets the skeleton and then the record; a document gets the record appended to `Content`; a corrupt file or one without `Content` is left unchanged with False |
| `TsJson.TSjson.IsIn` | sources/tsjson.py:214-229 | the `for` loop returns True exactly when the record is in `Content`, and False without a document |
| `TsJson.TSjson.IsInPosition` | sources/tsjson.py:232-251 | the counting loop returns (True, first index of the record), (False, `len(Content)`) when absent, and (False, -1) without a document |
| `TsJson.TSjson.SearchByUid` | sources/tsjson.py:279-303 | the loop skips empty records and returns the first record whose uid is the value, or found=False with no data |
| `TsJson.TSjson.Update` | sources/tsjson.py:306-333 | the loop finds the first record whose uid equals `data[uid]`; the whole document is rewritten with that index replaced by data; with no match the file is unchanged and False is returned |
| `TsJson.TSjson.UpdateTwice` | sources/tsjson.py:336-363 | as `Update`, with a match requiring both fields to be equal, evaluated with short-circuit `and` |
| `TsJson.TSjson.ClearContent` | sources/tsjson.py:366-385 | a missing or empty file is refused and nothing is created; any other file becomes `{"Content": []}` |
| `TsJson.TSjson.RemoveByUid` | sources/tsjson.py:254-276 | as written: read the content, remove the first match from the list in memory, clear the file and re-append only the first remaining record; returns whether a match was found |
| `TsJson.TSjson.RemoveByUidKeepingRest` | sources/tsjson.py:254-260 | the corrected removal: deletes the first match and writes back the whole remaining document; with no match the file is unchanged |
| `TsJsonProperties.ReadOutcomes` | sources/tsjson.py:76-92 | `read` gives None exactly for a corrupt file, `{}` for a missing or empty one, and the document otherwise |
| `TsJsonProperties.WriteThenRead` | sources/tsjson.py:102-114 | a falsy document leaves the file unchanged with False; any other document is written, and a following `read` returns exactly it |
| `TsJsonProperties.ReadContentHidesCorruption` | sources/tsjson.py:146-150 | `read_content` returns the same `{}` for a corrupt file as for a missing one |
| `TsJsonProperties.WriteContentAppends` | sources/tsjson.py:160-199 | every branch of `write_content`; after a successful append, `read_content` returns the earlier records followed by the new one |
| `TsJsonProperties.AppendAll` | sources/tsjson.py:154-211 | defines successive `write_content` calls, one record after the other, each starting from the file the previous one left |
| `TsJsonProperties.AppendAllToDocument` | sources/tsjson.py:171-184 | successive appends of non-empty records to a document extend its `Content` by exactly those records, in order |
| `TsJsonProperties.AppendsCollectEveryRecord` | sources/tsjson.py:154-211 | N appends of non-empty records to a missing file leave exactly those N records, in order: none lost, none duplicated |
| `TsJsonProperties.ClearContentOutcomes` | sources/tsjson.py:372-381 | refused without creating a file when missing or empty; otherwise True, and `read_content` then returns no records |
| `TsJsonProperties.NoDocumentCases` | sources/tsjson.py:146-150 | content-level reads see "no document" exactly for a missing, empty, corrupt or `{}` file |
| `TsJsonProperties.IsInPositionOutcomes` | sources/tsjson.py:237-251 | (False, -1) exactly when there is no document; otherwise found iff the record is present, at its first index, and the index is `len(Content)` when not found |
| `TsJsonProperties.IsInAgreesWithIsInPosition` | sources/tsjson.py:214-251 | `is_in` raises exactly when `is_in_position` does, and otherwise equals its found flag |
| `TsJsonProperties.SearchByUidFindsFirstMatch` | sources/tsjson.py:286-303 | found iff data is returned; the data is the first non-empty record whose uid equals the value, and every record before it is empty or differs; not found means no non-empty record matches |
| `TsJsonProperties.ScanFromFirstHit` | sources/tsjson.py:322-326 | a scan returns the first accepted index when every earlier record is rejected |
| `TsJsonProperties.UpdateReplacesFirstMatch` | sources/tsjson.py:313-333 | a successful update replaces only the first matching index; length, other indices and other keys are unchanged |
| `TsJsonProperties.UpdateWithoutMatchKeepsFile` | sources/tsjson.py:327-363 | when `update(data, uid)` or `update_twice(data, uid1, uid2)`, for any two fields, does not return True, the file is exactly as before |
| `TsJsonProperties.UpdateNoMatch` | sources/tsjson.py:322-333 | when every record has the uid field and none matches, `update` returns False and writes nothing |
| `TsJsonProperties.UpdateTwiceReplacesFirstMatch` | sources/tsjson.py:336-363 | a successful `update_twice` replaces the first record equal on both fields, and only that one |
| `TsJsonProperties.UpdateThenSearch` | sources/tsjson.py:279-333 | after a successful `update(data, uid)`, `search_by_uid(data[uid], uid)` finds data |
| `TsJsonProperties.RemoveByUidWithoutDocument` | sources/tsjson.py:261-265 | without a document `remove_by_uid` returns False and writes nothing |
| `TsJsonProperties.RemovedIsFirstMatch` | sources/tsjson.py:267-271 | `file_content.remove(data)` takes out exactly the index the scan stopped at |
| `TsJsonProperties.WithValueScanFinds` | sources/tsjson.py:267-271 | a removal scan that does not raise finds a record iff some record's uid is the value |
| `TsJsonProperties.AppendAfterClear` | sources/tsjson.py:273-275 | `clear_content` followed by `write_content(r)` on any document leaves the skeleton plus r, or the bare skeleton when r is empty |
| `TsJsonProperties.RemoveByUidAfterScan` | sources/tsjson.py:272-276 | once the scan has stopped, the file is the skeleton plus at most the first remaining non-empty record, and the result is whether a match was found |
| `TsJsonProperties.RemoveByUidKeepsAtMostOne` | sources/tsjson.py:254-276 | as written: True iff some record's uid equals the value; afterwards the file holds only the skeleton, or the skeleton plus the first remaining record when that record is not empty |
| `TsJsonProperties.RemoveByUidKeepingRestRemovesOnlyMatch` | sources/tsjson.py:254-260 | the corrected removal deletes exactly the first match: one record fewer, the others and the other keys kept |
| `TsJsonProperties.LookupAndUpdateExample` | sources/tsjson.py:279-333 | on a two-record file: lookups by id find the right record or none, and an update rewrites only the first record |
| `TsJsonProperties.RemoveByUidDropsTrailingRecords` | sources/tsjson.py:272-275 | on `[1, 2, 3]`, removing 2: as written the file is left with `[1]`; the corrected removal gives `[1, 3]` |
| `TsJsonProperties.RemoveByUidTruncatesWithoutMatch` | sources/tsjson.py:272-275 | on `[1, 2, 3]`, removing an id no record has: as written the file is cut to `[1]` and False is returned; the corrected removal changes nothing |
| `LangCheck.CountOccurrences` | sources/langcheck.py:21-22 | defines `str.count(pat)`: matches counted left to right, resuming after each match, so they never overlap |
| `LangCheck.BracketCount` | sources/langcheck.py:21-22 | defines the count of `{}` in a text as a scan over its characters, proved equal to `count("{}")` below |
| `LangCheck.CountOccurrencesFits` | sources/langcheck.py:21-22 | `str.count` counts disjoint occurrences: count times pattern length never exceeds the string's length |
| `LangCheck.BracketCountIsCount` | sources/langcheck.py:21-22 | the specialised bracket scan is exactly `str.count("{}")` |
| `LangCheck.BracketCountIsAdjacentPairs` | sources/langcheck.py:21-22 | the non-overlapping count of `{}` equals the number of positions where `{` is directly followed by `}` |
| `LangCheck.MismatchKeys` | sources/langcheck.py:18-24 | defines the mismatch list: the keys present in both files whose bracket counts differ, in the order of the English keys |
| `LangCheck.MissingIn` | sources/langcheck.py:16-20 | defines the missing list: the English keys absent from the translation, in order |
| `LangCheck.MismatchKeysExact` | sources/langcheck.py:18-24 | the mismatch list holds exactly the keys whose bracket counts differ, each once when the keys are distinct |
| `LangCheck.MissingInExact` | sources/langcheck.py:18-20 | the missing list holds exactly the English keys absent from the translation, each once when the keys are distinct |
| `LangCheck.MismatchKeysEmpty` | sources/langcheck.py:27-28 | the mismatch list is empty iff every present key has the English bracket count |
| `LangCheck.MissingInEmpty` | sources/langcheck.py:27 | the missing list is empty iff the translation has every English key |
| `LangCheck.BracketsVerdict` | sources/langcheck.py:27-35 | defines the verdict with no key missing: the mismatch list when it is non-empty, else a pass |
| `LangCheck.IntendedVerdict` | sources/langcheck.py:27-38 | defines the verdict of the branch at lines 27-38: the missing keys when there are any, else the bracket verdict |
| `LangCheck.BracketsVerdictPasses` | sources/langcheck.py:27-35 | once no key is missing, the verdict passes iff every present key has the English bracket count |
| `LangCheck.IntendedVerdictPasses` | sources/langcheck.py:27-38 | the corrected verdict passes iff every English key is present with the English bracket count |
| `LangCheck.Report.Valid` | sources/langcheck.py:27-38 | defines the boolean `is_valid` returns (lines 30, 35, 38): True exactly for a passing verdict |
| `LangCheck.ShownName` | sources/langcheck.py:25-26 | a two-character name is shown followed by three spaces; other names are shown unchanged |
| `LangCheck.IsValid` | sources/langcheck.py:15-38 | as written: raises KeyError iff an English key is missing, at the first missing key; otherwise Passed iff every key has the same bracket count, else the mismatch list in English key order |
| `LangCheck.IsValidReportingMissing` | sources/langcheck.py:15-38 | corrected: reports all missing keys in order when there are any, else the mismatches; valid iff every key is present with the same bracket count |

## Left out

- Locking: `threading.Lock` is held around the file access of each call of `read`, `write`, `delete`, `write_content` and `clear_content`. The model treats every operation as one atomic step.
  - The race window in `remove_by_uid` is not modelled. Its read, clear and append are separately locked, so another thread can run between them.
  - The race window in `update` and `update_twice` is not modelled. Each calls `read` (sources/tsjson.py:316, 346) and later `write` (330, 360), and each call takes the lock on its own. A `write_content` from another thread between the two is silently overwritten.
- The real filesystem. `os.path.exists`, `os.stat`, `open`, `os.remove` and `os.makedirs` are replaced by the abstract file state.
  - I/O errors (permissions, full disk) are not modelled. Such a failure would make `write`, `write_content`, `delete` or `clear_content` return False.
  - Creating parent directories is not modelled. This includes `os.makedirs("")`, which is outside the try block and raises for a file name without a directory part.
  - `TSjson.fileName` is therefore only recorded.
- JSON text encoding and decoding (`json.load`, `json.dump`, `indent=4`, the literal skeleton strings), top-level key order, and `ensure_ascii`. A document is modelled as its parsed value.
- Python equality across JSON types (`1 == 1.0 == True`) is not modelled. Values are compared with Dafny equality on an arbitrary value type.
- Key order in record equality is not modelled. Records are parsed as `OrderedDict` (sources/tsjson.py:87), and two OrderedDicts are equal only when their keys come in the same order, so `is_in` and `is_in_position` given a record with the same fields in another order return False; `IsInResult` and `IsInPositionResult` compare records as maps and find it.
- Documents whose `Content` is not a list, or whose records are not objects, are not modelled. On those the source may raise TypeError or AttributeError, or scan the wrong elements: `is_in` and `is_in_position` iterate over a string or dict `Content` without raising.
- A file holding valid JSON that is not an object (`[]`, `1`, `"x"`) has no file state of its own. The source parses it and `read` returns it; `read_content`, `is_in`, `is_in_position`, `search_by_uid`, `update` and `update_twice` then raise TypeError at `read["Content"]` / `file_data["Content"]` (sources/tsjson.py:151, 226, 246, 296, 322, 352), and `remove_by_uid` raises it through `read_content` (263); `write_content` catches it and returns False. A file holding `null` behaves like `Corrupt`.
- `TsJson.TSjson.ReadContent`: does not model the records being shared with the parsed document. Python returns the list object itself, and `remove_by_uid` mutates it; the model copies it as a value.
- Logging and `format_exc` are not modelled. They are write-only side effects.
- From `commons.py`:
  - not modelled: `get_unix_epoch` (wall clock), `pickle_save` and `pickle_restore` (library serialisation and I/O), `is_int` (Python's `int()` syntax);
  - `create_parents_dirs`, `file_exists` and `file_write` are filesystem I/O;
  - `file_read` is modelled only as its loop over the lines. The `line is None` test cannot fire on text lines, and Python's universal-newline translation happens before the loop.
- `Commons.AddLrm`: strings are Dafny `char` sequences, which are Unicode scalar values. A Python string holding a lone surrogate makes `encode` raise, and `add_lrm` then returns its input. That case is not modelled.
- `main` of `langcheck.py` is not modelled: directory listing, file reading, JSON decode errors and `exit`. The text `is_valid` prints is modelled as a `Report` value (shown name and verdict), and its boolean result is `Report.Valid()`.

## Findings

| source | as written | input that shows it | evidently intended | confidence | as-written member | corrected member |
|---|---|---|---|---|---|---|
| sources/tsjson.py:272-275 | after removing the match from the list in memory, the file is cleared and only `file_content[0]` is appended back, even when no record matched | `Content` of `[{id:1}, {id:2}, {id:3}]`: `remove_by_uid(2, "id")` leaves `[{id:1}]`; `remove_by_uid(4, "id")` also leaves `[{id:1}]` | write back every remaining record, and change nothing when there is no match | high; not executed | `TsJsonProperties.RemoveByUidDropsTrailingRecords`, `TsJsonProperties.RemoveByUidTruncatesWithoutMatch` (about `TsJson.TSjson.RemoveByUid`) | `TsJson.TSjson.RemoveByUidKeepingRest` (with `TsJsonProperties.RemoveByUidKeepingRestRemovesOnlyMatch`) |
| sources/langcheck.py:19-22 | a missing key is recorded, then `lang[key]` raises KeyError, so the "Missing Keys" report at lines 36-38 is never reached | English file `{"a": "x"}`, translation `{}`: KeyError `'a'` instead of `FAIL - Missing Keys: ['a']` | skip the bracket count of a missing key and report all missing keys | high; not executed | `LangCheck.IsValid` | `LangCheck.IsValidReportingMissing` |
