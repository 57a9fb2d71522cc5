/** The thread-safe JSON record store `TSjson`: one object bound to one file whose document
    is a JSON object with a `Content` list of records. The file is modelled by its abstract
    state; every operation is one atomic step (the lock only serialises the steps). */
module TsJson {
  import opened Wrappers
  import opened PyLists

  const ContentKey: string := "Content"

  /** A record: field name to JSON value. The store looks at values only through equality. */
  type Record<V> = map<string, V>

  /** A parsed top-level JSON object: the value of its `Content` key when the key is there,
      and its other top-level keys. */
  datatype Document<V> = Document(others: map<string, V>, content: Option<seq<Record<V>>>)

  /** A document in which `Content` is not also listed among the other keys. */
  type Doc<V> = d: Document<V> | ContentKey !in d.others witness Document(map[], None)

  /** Python truthiness of a dict: only the empty object is falsy. */
  predicate Falsy<V>(d: Document<V>) {
    |d.others| == 0 && d.content.None?
  }

  /** The document `d` with its `Content` list set to `c`, the other keys kept. */
  function WithContent<V>(d: Doc<V>, c: seq<Record<V>>): Doc<V> {
    Document(d.others, Some(c))
  }

  /** `{}`, what `read` returns for a missing or empty file. */
  function EmptyObject<V>(): Doc<V> {
    Document(map[], None)
  }

  /** `{"Content": []}`, the skeleton that `write_content` and `clear_content` write. */
  function Skeleton<V>(): Doc<V> {
    Document(map[], Some([]))
  }

  /** What the file holds: nothing, zero bytes, text that does not parse, or a JSON object. */
  datatype FileState<V> = Absent | Empty | Corrupt | Parsed(doc: Doc<V>)

  /** A state transition: the file afterwards and the value returned. */
  datatype After<V, R> = After(file: FileState<V>, result: R)

  /** What `read_content` returns: the `{}` it uses for "no data", or the `Content` list. */
  datatype ContentView<V> = EmptyDict | Records(records: seq<Record<V>>)

  /** The `{"found": ..., "data": ...}` dict returned by `search_by_uid`. */
  datatype SearchResult<V> = SearchResult(found: bool, data: Option<Record<V>>)

  // ---- the record tests of the scanning loops ----

  /** The condition one scanning loop evaluates on each record. */
  datatype Matcher<V> =
    | SameUid(data: Record<V>, uid: string)                 // update: data[uid] == msg[uid]
    | SameUids(data: Record<V>, uid1: string, uid2: string)  // update_twice: both fields equal
    | NonEmptyWithValue(value: V, uid: string)              // search_by_uid: skips empty records
    | WithValue(value: V, uid: string)                      // remove_by_uid: element[uid] == value

  /** One evaluation of a loop condition under Python's rules: a missing key raises
      KeyError, `and` short-circuits, and the left operand is looked up first. */
  function Test<V(==)>(m: Matcher<V>, e: Record<V>): Outcome<bool> {
    match m
    case SameUid(data, uid) =>
      if uid !in data then RaisesKeyError(uid)
      else if uid !in e then RaisesKeyError(uid)
      else Returns(data[uid] == e[uid])
    case SameUids(data, uid1, uid2) =>
      if uid1 !in data then RaisesKeyError(uid1)
      else if uid1 !in e then RaisesKeyError(uid1)
      else if data[uid1] != e[uid1] then Returns(false)
      else if uid2 !in data then RaisesKeyError(uid2)
      else if uid2 !in e then RaisesKeyError(uid2)
      else Returns(data[uid2] == e[uid2])
    case NonEmptyWithValue(value, uid) =>
      if |e| == 0 then Returns(false)
      else if uid !in e then RaisesKeyError(uid)
      else Returns(e[uid] == value)
    case WithValue(value, uid) =>
      if uid !in e then RaisesKeyError(uid)
      else Returns(e[uid] == value)
  }

  /** A first-match scan from index `i`: the index of the first record the test accepts, or
      None when it accepts none; the KeyError of the first record whose test raises, when that
      record comes before any match. */
  function ScanFrom<V(==)>(c: seq<Record<V>>, m: Matcher<V>, i: nat): (r: Outcome<Option<nat>>)
    requires i <= |c|
    decreases |c| - i
    ensures r.Returns? && r.value.Some? ==>
      && i <= r.value.value < |c|
      && Test(m, c[r.value.value]) == Returns(true)
      && forall j :: i <= j < r.value.value ==> Test(m, c[j]) == Returns(false)
    ensures r == Returns(None) ==> forall j :: i <= j < |c| ==> Test(m, c[j]) == Returns(false)
    ensures r.RaisesKeyError? ==>
      exists k :: i <= k < |c| && Test(m, c[k]) == RaisesKeyError(r.key) &&
        forall j :: i <= j < k ==> Test(m, c[j]) == Returns(false)
  {
    if i == |c| then Returns(None)
    else match Test(m, c[i])
      case RaisesKeyError(key) => RaisesKeyError(key)
      case Returns(true) => Returns(Some(i))
      case Returns(false) => ScanFrom(c, m, i + 1)
  }

  function Scan<V(==)>(c: seq<Record<V>>, m: Matcher<V>): Outcome<Option<nat>> {
    ScanFrom(c, m, 0)
  }

  // ---- the operations as functions of the file state ----

  /** `read`. */
  function ReadResult<V>(f: FileState<V>): Option<Doc<V>> {
    match f
    case Absent => Some(EmptyObject())
    case Empty => Some(EmptyObject())
    case Corrupt => None
    case Parsed(d) => Some(d)
  }

  /** `write(data)`. */
  function WriteStep<V>(f: FileState<V>, data: Doc<V>): After<V, bool> {
    if Falsy(data) then After(f, false) else After(Parsed(data), true)
  }

  /** `read_content`: `read()` followed by `read["Content"]`, which raises on a non-empty
      document without that key. */
  function ReadContentResult<V>(f: FileState<V>): (r: Outcome<ContentView<V>>)
    ensures r.Returns? && r.value.Records? ==>
      f.Parsed? && f.doc.content == Some(r.value.records)
    ensures f.Parsed? && !Falsy(f.doc) && f.doc.content.Some? ==>
      r == Returns(Records(f.doc.content.value))
    ensures r.RaisesKeyError? <==> f.Parsed? && !Falsy(f.doc) && f.doc.content.None?
  {
    match ReadResult(f)
    case None => Returns(EmptyDict)
    case Some(d) =>
      if Falsy(d) then Returns(EmptyDict)
      else if d.content.None? then RaisesKeyError(ContentKey)
      else Returns(Records(d.content.value))
  }

  /** `write_content(data)`: appends one record, creating the skeleton first when the file is
      missing or empty. A corrupt file (ValueError) or a document without `Content`
      (KeyError) fails inside the handler and is left as it was. */
  function WriteContentStep<V>(f: FileState<V>, data: Record<V>): After<V, bool> {
    if |data| == 0 then After(f, false)
    else match f
      case Absent => After(Parsed(Document(map[], Some([data]))), true)
      case Empty => After(Parsed(Document(map[], Some([data]))), true)
      case Corrupt => After(f, false)
      case Parsed(d) =>
        if d.content.None? then After(f, false)
        else After(Parsed(WithContent(d, d.content.value + [data])), true)
  }

  /** `clear_content`: any existing non-empty file, corrupt or not, becomes the skeleton. */
  function ClearContentStep<V>(f: FileState<V>): After<V, bool> {
    if f.Absent? || f.Empty? then After(f, false) else After(Parsed(Skeleton()), true)
  }

  /** `is_in(data)`. */
  function IsInResult<V(==)>(f: FileState<V>, data: Record<V>): Outcome<bool> {
    match ReadContentResult(f)
    case RaisesKeyError(key) => RaisesKeyError(key)
    case Returns(EmptyDict) => Returns(false)
    case Returns(Records(c)) => Returns(data in c)
  }

  /** `is_in_position(data)`: (True, first index) on a match, (False, len(content)) when the
      document has no match, (False, -1) when there is no document. */
  function IsInPositionResult<V(==)>(f: FileState<V>, data: Record<V>): Outcome<(bool, int)> {
    match ReadContentResult(f)
    case RaisesKeyError(key) => RaisesKeyError(key)
    case Returns(EmptyDict) => Returns((false, -1))
    case Returns(Records(c)) =>
      match IndexOf(c, data)
      case Some(i) => Returns((true, i))
      case None => Returns((false, |c|))
  }

  /** `search_by_uid(value, uid)`. */
  function SearchByUidResult<V(==)>(f: FileState<V>, value: V, uid: string): Outcome<SearchResult<V>> {
    match ReadContentResult(f)
    case RaisesKeyError(key) => RaisesKeyError(key)
    case Returns(EmptyDict) => Returns(SearchResult(false, None))
    case Returns(Records(c)) =>
      match Scan(c, NonEmptyWithValue(value, uid))
      case RaisesKeyError(key) => RaisesKeyError(key)
      case Returns(None) => Returns(SearchResult(false, None))
      case Returns(Some(i)) => Returns(SearchResult(true, Some(c[i])))
  }

  /** The common shape of `update` and `update_twice`: replace the first record the matcher
      accepts by `data` and rewrite the whole document with `write`. */
  function ReplaceFirstStep<V(==)>(f: FileState<V>, data: Record<V>, m: Matcher<V>): After<V, Outcome<bool>> {
    match ReadContentResult(f)
    case RaisesKeyError(key) => After(f, RaisesKeyError(key))
    case Returns(EmptyDict) => After(f, Returns(false))
    case Returns(Records(c)) =>
      match Scan(c, m)
      case RaisesKeyError(key) => After(f, RaisesKeyError(key))
      case Returns(None) => After(f, Returns(false))
      case Returns(Some(i)) => After(WriteStep(f, WithContent(f.doc, c[i := data])).file, Returns(true))
  }

  /** `update(data, uid)`. */
  function UpdateStep<V(==)>(f: FileState<V>, data: Record<V>, uid: string): After<V, Outcome<bool>> {
    ReplaceFirstStep(f, data, SameUid(data, uid))
  }

  /** `update_twice(data, uid1, uid2)`. */
  function UpdateTwiceStep<V(==)>(f: FileState<V>, data: Record<V>, uid1: string, uid2: string): After<V, Outcome<bool>> {
    ReplaceFirstStep(f, data, SameUids(data, uid1, uid2))
  }

  /** `remove_by_uid(value, uid)` as written: remove the first match from the list read,
      `clear_content()`, then `write_content` of the first remaining record only. */
  function RemoveByUidStep<V(==)>(f: FileState<V>, value: V, uid: string): After<V, Outcome<bool>> {
    match ReadContentResult(f)
    case RaisesKeyError(key) => After(f, RaisesKeyError(key))
    case Returns(EmptyDict) => After(f, Returns(false))
    case Returns(Records(c)) =>
      match Scan(c, WithValue(value, uid))
      case RaisesKeyError(key) => After(f, RaisesKeyError(key))
      case Returns(hit) =>
        var remaining := if hit.Some? then RemoveFirst(c, c[hit.value]) else c;
        var cleared := ClearContentStep(f).file;
        var final := if |remaining| > 0 then WriteContentStep(cleared, remaining[0]).file else cleared;
        After(final, Returns(hit.Some?))
  }

  /** The evidently intended `remove_by_uid`: remove the first match and write back the whole
      remaining document; nothing is written when there is no match. */
  function RemoveByUidKeepingRestStep<V(==)>(f: FileState<V>, value: V, uid: string): After<V, Outcome<bool>> {
    match ReadContentResult(f)
    case RaisesKeyError(key) => After(f, RaisesKeyError(key))
    case Returns(EmptyDict) => After(f, Returns(false))
    case Returns(Records(c)) =>
      match Scan(c, WithValue(value, uid))
      case RaisesKeyError(key) => After(f, RaisesKeyError(key))
      case Returns(None) => After(f, Returns(false))
      case Returns(Some(i)) => After(WriteStep(f, WithContent(f.doc, RemoveAt(c, i))).file, Returns(true))
  }

  // ---- the store ----

  /** A `TSjson` handle: the file name it was built with and the file that name stands for. */
  class TSjson<V(==)> {
    const fileName: string
    var file: FileState<V>

    constructor (fileName: string, onDisk: FileState<V>)
      ensures this.fileName == fileName && file == onDisk
    {
      this.fileName := fileName;
      file := onDisk;
    }

    method Read() returns (r: Option<Doc<V>>)
      ensures r == ReadResult(file)
    {
      match file
      case Absent => return Some(EmptyObject());
      case Empty => return Some(EmptyObject());
      case Corrupt => return None;        // json_load raised, the handler returns None
      case Parsed(d) => return Some(d);
    }

    method Write(data: Doc<V>) returns (ok: bool)
      modifies this
      ensures After(file, ok) == WriteStep(old(file), data)
    {
      if Falsy(data) {
        return false;
      }
      file := Parsed(data);
      return true;
    }

    method Delete() returns (ok: bool)
      modifies this
      ensures file == Absent && ok
    {
      file := Absent;
      return true;
    }

    method ReadContent() returns (r: Outcome<ContentView<V>>)
      ensures r == ReadContentResult(file)
    {
      var read := Read();
      if read.None? {
        return Returns(EmptyDict);
      }
      if Falsy(read.value) {
        return Returns(EmptyDict);
      }
      if read.value.content.None? {
        return RaisesKeyError(ContentKey);
      }
      return Returns(Records(read.value.content.value));
    }

    method WriteContent(data: Record<V>) returns (ok: bool)
      modifies this
      ensures After(file, ok) == WriteContentStep(old(file), data)
    {
      if |data| == 0 {
        return false;
      }
      match file
      case Parsed(d) =>
        if d.content.None? {
          return false;                   // content["Content"] raised KeyError, caught
        }
        file := Parsed(WithContent(d, d.content.value + [data]));
        return true;
      case Corrupt =>
        return false;                     // json_load raised ValueError, caught
      case _ =>
        file := Parsed(Skeleton());
        var content := Skeleton<V>();
        assert content.content.value + [data] == [data];
        file := Parsed(WithContent(content, content.content.value + [data]));
        return true;
    }

    method IsIn(data: Record<V>) returns (r: Outcome<bool>)
      ensures r == IsInResult(file, data)
    {
      var fileData := Read();
      if fileData.None? {
        return Returns(false);
      }
      if Falsy(fileData.value) {
        return Returns(false);
      }
      if fileData.value.content.None? {
        return RaisesKeyError(ContentKey);
      }
      var content := fileData.value.content.value;
      for i := 0 to |content|
        invariant data !in content[..i]
      {
        if data == content[i] {
          return Returns(true);
        }
        assert content[..i + 1] == content[..i] + [content[i]];
      }
      assert content[..|content|] == content;
      return Returns(false);
    }

    method IsInPosition(data: Record<V>) returns (r: Outcome<(bool, int)>)
      ensures r == IsInPositionResult(file, data)
    {
      var i := 0;
      var found := false;
      var fileData := Read();
      if fileData.None? {
        return Returns((false, -1));
      }
      if Falsy(fileData.value) {
        return Returns((false, -1));
      }
      if fileData.value.content.None? {
        return RaisesKeyError(ContentKey);
      }
      var content := fileData.value.content.value;
      while i < |content|
        invariant 0 <= i <= |content|
        invariant data !in content[..i]
        invariant !found
      {
        if data == content[i] {
          found := true;
          break;
        }
        assert content[..i + 1] == content[..i] + [content[i]];
        i := i + 1;
      }
      assert !found ==> content[..i] == content;
      return Returns((found, i));
    }

    method SearchByUid(elementValue: V, uid: string) returns (r: Outcome<SearchResult<V>>)
      ensures r == SearchByUidResult(file, elementValue, uid)
    {
      var result := SearchResult(false, None);
      var fileData := Read();
      if fileData.None? {
        return Returns(result);
      }
      if Falsy(fileData.value) {
        return Returns(result);
      }
      if fileData.value.content.None? {
        return RaisesKeyError(ContentKey);
      }
      var content := fileData.value.content.value;
      ghost var m := NonEmptyWithValue(elementValue, uid);
      for i := 0 to |content|
        invariant Scan(content, m) == ScanFrom(content, m, i)
        invariant result == SearchResult(false, None)
      {
        var element := content[i];
        if |element| == 0 {
          continue;
        }
        if uid !in element {
          return RaisesKeyError(uid);
        }
        if element[uid] == elementValue {
          result := SearchResult(true, Some(element));
          break;
        }
      }
      return Returns(result);
    }

    method Update(data: Record<V>, uid: string) returns (r: Outcome<bool>)
      modifies this
      ensures After(file, r) == UpdateStep(old(file), data, uid)
    {
      var i := 0;
      var found := false;
      var fileData := Read();
      if fileData.None? {
        return Returns(false);
      }
      if Falsy(fileData.value) {
        return Returns(false);
      }
      if fileData.value.content.None? {
        return RaisesKeyError(ContentKey);
      }
      var content := fileData.value.content.value;
      ghost var m := SameUid(data, uid);
      while i < |content|
        invariant 0 <= i <= |content|
        invariant Scan(content, m) == ScanFrom(content, m, i)
        invariant !found
      {
        var msg := content[i];
        if uid !in data {
          return RaisesKeyError(uid);
        }
        if uid !in msg {
          return RaisesKeyError(uid);
        }
        if data[uid] == msg[uid] {
          found := true;
          break;
        }
        i := i + 1;
      }
      if found {
        var written := Write(WithContent(fileData.value, content[i := data]));
      }
      return Returns(found);
    }

    method UpdateTwice(data: Record<V>, uid1: string, uid2: string) returns (r: Outcome<bool>)
      modifies this
      ensures After(file, r) == UpdateTwiceStep(old(file), data, uid1, uid2)
    {
      var i := 0;
      var found := false;
      var fileData := Read();
      if fileData.None? {
        return Returns(false);
      }
      if Falsy(fileData.value) {
        return Returns(false);
      }
      if fileData.value.content.None? {
        return RaisesKeyError(ContentKey);
      }
      var content := fileData.value.content.value;
      ghost var m := SameUids(data, uid1, uid2);
      while i < |content|
        invariant 0 <= i <= |content|
        invariant Scan(content, m) == ScanFrom(content, m, i)
        invariant !found
      {
        var msg := content[i];
        if uid1 !in data {
          return RaisesKeyError(uid1);
        }
        if uid1 !in msg {
          return RaisesKeyError(uid1);
        }
        if data[uid1] == msg[uid1] {
          if uid2 !in data {
            return RaisesKeyError(uid2);
          }
          if uid2 !in msg {
            return RaisesKeyError(uid2);
          }
          if data[uid2] == msg[uid2] {
            found := true;
            break;
          }
        }
        i := i + 1;
      }
      if found {
        var written := Write(WithContent(fileData.value, content[i := data]));
      }
      return Returns(found);
    }

    method ClearContent() returns (ok: bool)
      modifies this
      ensures After(file, ok) == ClearContentStep(old(file))
    {
      if file.Absent? {
        return false;
      }
      if file.Empty? {
        return false;
      }
      file := Parsed(Skeleton());
      return true;
    }

    /** As written: the file keeps at most the first of the remaining records. */
    method RemoveByUid(elementValue: V, uid: string) returns (r: Outcome<bool>)
      modifies this
      ensures After(file, r) == RemoveByUidStep(old(file), elementValue, uid)
    {
      var found := false;
      var read := ReadContent();
      if read.RaisesKeyError? {
        return RaisesKeyError(read.key);
      }
      if read.value.EmptyDict? {
        return Returns(false);
      }
      var fileContent := read.value.records;
      ghost var m := WithValue(elementValue, uid);
      for i := 0 to |read.value.records|
        invariant fileContent == read.value.records
        invariant Scan(fileContent, m) == ScanFrom(fileContent, m, i)
        invariant !found
      {
        var data := fileContent[i];
        if uid !in data {
          return RaisesKeyError(uid);
        }
        if data[uid] == elementValue {
          found := true;
          fileContent := RemoveFirst(fileContent, data);
          break;
        }
      }
      var cleared := ClearContent();
      if |fileContent| > 0 {
        var appended := WriteContent(fileContent[0]);
      }
      return Returns(found);
    }

    /** The corrected removal: one read, one write of the whole remaining document. */
    method RemoveByUidKeepingRest(elementValue: V, uid: string) returns (r: Outcome<bool>)
      modifies this
      ensures After(file, r) == RemoveByUidKeepingRestStep(old(file), elementValue, uid)
    {
      var fileData := Read();
      if fileData.None? {
        return Returns(false);
      }
      if Falsy(fileData.value) {
        return Returns(false);
      }
      if fileData.value.content.None? {
        return RaisesKeyError(ContentKey);
      }
      var content := fileData.value.content.value;
      ghost var m := WithValue(elementValue, uid);
      for i := 0 to |content|
        invariant Scan(content, m) == ScanFrom(content, m, i)
      {
        var data := content[i];
        if uid !in data {
          return RaisesKeyError(uid);
        }
        if data[uid] == elementValue {
          RemoveFirstOfFirstHit(content, i);
          var written := Write(WithContent(fileData.value, RemoveFirst(content, data)));
          return Returns(true);
        }
      }
      return Returns(false);
    }
  }
}
