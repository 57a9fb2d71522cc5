/** What the `TSjson` operations promise, proved about the functions that the store's methods
    are verified against. */
module TsJsonProperties {
  import opened Wrappers
  import opened PyLists
  import opened TsJson

  // ---- raw document access ----

  /** `read` gives `{}` for a missing or empty file, None for one that does not parse, and the
      document otherwise. */
  lemma ReadOutcomes<V>(f: FileState<V>)
    ensures ReadResult(f).None? <==> f.Corrupt?
    ensures f.Absent? || f.Empty? ==> ReadResult(f) == Some(EmptyObject())
    ensures f.Parsed? ==> ReadResult(f) == Some(f.doc)
  {
  }

  /** `write` refuses the empty object and leaves the file alone; any other document is
      written, and `read` then gives back exactly that document. */
  lemma WriteThenRead<V>(f: FileState<V>, d: Doc<V>)
    ensures Falsy(d) ==> WriteStep(f, d) == After(f, false)
    ensures !Falsy(d) ==> WriteStep(f, d).result && ReadResult(WriteStep(f, d).file) == Some(d)
  {
  }

  // ---- content-level access ----

  /** `read_content` cannot tell a corrupt file from a missing one. */
  lemma ReadContentHidesCorruption<V>()
    ensures ReadContentResult<V>(Corrupt) == ReadContentResult<V>(Absent) == Returns(EmptyDict)
  {
  }

  /** The records a file holds before an append: none for a missing or empty file. */
  function ContentBefore<V>(f: FileState<V>): seq<Record<V>> {
    if f.Parsed? && f.doc.content.Some? then f.doc.content.value else []
  }

  /** `write_content(r)`: an empty record is refused; otherwise a missing or empty file ends with
      `Content == [r]`, a document with `Content == c` ends with `c + [r]` (other keys kept), and
      a corrupt file or a document without `Content` is left as it was. After an append,
      `read_content` returns the earlier records followed by `r`. */
  lemma WriteContentAppends<V>(f: FileState<V>, r: Record<V>)
    ensures |r| == 0 ==> WriteContentStep(f, r) == After(f, false)
    ensures |r| > 0 && (f.Absent? || f.Empty?) ==>
      WriteContentStep(f, r) == After(Parsed(Document(map[], Some([r]))), true)
    ensures |r| > 0 && f.Parsed? && f.doc.content.Some? ==>
      WriteContentStep(f, r) == After(Parsed(WithContent(f.doc, f.doc.content.value + [r])), true)
    ensures f.Corrupt? || (f.Parsed? && f.doc.content.None?) ==> WriteContentStep(f, r) == After(f, false)
    ensures WriteContentStep(f, r).result ==>
      ReadContentResult(WriteContentStep(f, r).file) == Returns(Records(ContentBefore(f) + [r]))
  {
    if WriteContentStep(f, r).result && !f.Parsed? {
      assert ContentBefore(f) + [r] == [r];
    }
  }

  /** A sequence of appends, one after the other. */
  function AppendAll<V>(f: FileState<V>, rs: seq<Record<V>>): FileState<V>
    decreases |rs|
  {
    if rs == [] then f else AppendAll(WriteContentStep(f, rs[0]).file, rs[1..])
  }

  lemma {:induction false} AppendAllToDocument<V>(d: Doc<V>, rs: seq<Record<V>>)
    requires d.content.Some?
    requires forall k :: 0 <= k < |rs| ==> |rs[k]| > 0
    ensures AppendAll(Parsed(d), rs) == Parsed(WithContent(d, d.content.value + rs))
    decreases |rs|
  {
    if rs == [] {
      assert d.content.value + rs == d.content.value;
    } else {
      var d' := WithContent(d, d.content.value + [rs[0]]);
      AppendAllToDocument(d', rs[1..]);
      assert d.content.value + [rs[0]] + rs[1..] == d.content.value + rs;
    }
  }

  /** Appending N non-empty records to a fresh file, one atomic step after the other, leaves
      exactly those N records, in the order the steps ran: none lost, none duplicated. */
  lemma AppendsCollectEveryRecord<V>(rs: seq<Record<V>>)
    requires |rs| > 0
    requires forall k :: 0 <= k < |rs| ==> |rs[k]| > 0
    ensures AppendAll(Absent, rs) == Parsed(Document(map[], Some(rs)))
  {
    AppendAllToDocument(Document(map[], Some([rs[0]])), rs[1..]);
    assert [rs[0]] + rs[1..] == rs;
  }

  /** `clear_content` refuses a missing or empty file and creates nothing; any other file
      becomes the skeleton, after which `read_content` returns no records. */
  lemma ClearContentOutcomes<V>(f: FileState<V>)
    ensures f.Absent? || f.Empty? ==> ClearContentStep(f) == After(f, false)
    ensures !(f.Absent? || f.Empty?) ==>
      ClearContentStep(f).result && ReadContentResult(ClearContentStep(f).file) == Returns(Records([]))
  {
  }

  // ---- lookups ----

  /** The cases in which there is no document to search. */
  lemma NoDocumentCases<V>(f: FileState<V>)
    ensures ReadContentResult(f) == Returns(EmptyDict) <==>
      f.Absent? || f.Empty? || f.Corrupt? || (f.Parsed? && Falsy(f.doc))
  {
  }

  /** `is_in_position(d)` returns (True, i) for the least i with `content[i] == d`,
      (False, len(content)) when a readable document holds no such record, and (False, -1)
      exactly when there is no document. */
  lemma IsInPositionOutcomes<V>(f: FileState<V>, data: Record<V>)
    ensures IsInPositionResult(f, data) == Returns((false, -1)) <==> ReadContentResult(f) == Returns(EmptyDict)
    ensures ReadContentResult(f).Returns? && ReadContentResult(f).value.Records? ==>
      var c := ReadContentResult(f).value.records;
      var r := IsInPositionResult(f, data).value;
      && (r.0 <==> data in c)
      && (r.0 ==> 0 <= r.1 < |c| && c[r.1] == data && data !in c[..r.1])
      && (!r.0 ==> r.1 == |c|)
  {
  }

  /** `is_in` and `is_in_position` agree: the same KeyError, and `is_in` is the found flag. */
  lemma IsInAgreesWithIsInPosition<V>(f: FileState<V>, data: Record<V>)
    ensures IsInResult(f, data).RaisesKeyError? <==> IsInPositionResult(f, data).RaisesKeyError?
    ensures IsInResult(f, data).Returns? ==> IsInResult(f, data).value == IsInPositionResult(f, data).value.0
  {
  }

  /** `search_by_uid(v, uid)` returns the first non-empty record whose `uid` is `v`, skipping
      empty records, and `found` is set exactly when a record is returned. */
  lemma SearchByUidFindsFirstMatch<V>(f: FileState<V>, v: V, uid: string)
    ensures var r := SearchByUidResult(f, v, uid);
      r.Returns? ==> (r.value.found <==> r.value.data.Some?)
    ensures var r := SearchByUidResult(f, v, uid);
      r.Returns? && r.value.found ==>
        && ReadContentResult(f).Returns? && ReadContentResult(f).value.Records?
        && var c := ReadContentResult(f).value.records;
           exists i :: 0 <= i < |c| && c[i] == r.value.data.value && |c[i]| > 0 && uid in c[i] && c[i][uid] == v &&
             forall j :: 0 <= j < i ==> |c[j]| == 0 || (uid in c[j] && c[j][uid] != v)
    ensures var r := SearchByUidResult(f, v, uid);
      r.Returns? && !r.value.found && ReadContentResult(f).Returns? && ReadContentResult(f).value.Records? ==>
        var c := ReadContentResult(f).value.records;
        forall j :: 0 <= j < |c| ==> |c[j]| == 0 || (uid in c[j] && c[j][uid] != v)
  {
    var r := SearchByUidResult(f, v, uid);
    if r.Returns? && r.value.found {
      var c := ReadContentResult(f).value.records;
      var m := NonEmptyWithValue(v, uid);
      var i := Scan(c, m).value.value;
      forall j | 0 <= j < i
        ensures |c[j]| == 0 || (uid in c[j] && c[j][uid] != v)
      {
        assert Test(m, c[j]) == Returns(false);
      }
    } else if r.Returns? && ReadContentResult(f).Returns? && ReadContentResult(f).value.Records? {
      var c := ReadContentResult(f).value.records;
      var m := NonEmptyWithValue(v, uid);
      forall j | 0 <= j < |c|
        ensures |c[j]| == 0 || (uid in c[j] && c[j][uid] != v)
      {
        assert Test(m, c[j]) == Returns(false);
      }
    }
  }

  // ---- update and update_twice ----

  /** A first-match scan is determined by its first accepted record. */
  lemma {:induction false} ScanFromFirstHit<V>(c: seq<Record<V>>, m: Matcher<V>, i: nat, k: nat)
    requires i <= k < |c|
    requires Test(m, c[k]) == Returns(true)
    requires forall j :: i <= j < k ==> Test(m, c[j]) == Returns(false)
    ensures ScanFrom(c, m, i) == Returns(Some(k))
    decreases k - i
  {
    if i < k {
      ScanFromFirstHit(c, m, i + 1, k);
    }
  }

  /** When `update(data, uid)` returns True, the file held a document whose first record with
      `uid` equal to `data[uid]` sits at some index i; the file now holds the same document
      with only index i replaced by `data`, the length and the other keys kept. */
  lemma UpdateReplacesFirstMatch<V>(f: FileState<V>, data: Record<V>, uid: string)
    requires UpdateStep(f, data, uid).result == Returns(true)
    ensures f.Parsed? && f.doc.content.Some? && uid in data
    ensures var c := f.doc.content.value;
      var after := UpdateStep(f, data, uid).file;
      exists i :: 0 <= i < |c| && uid in c[i] && c[i][uid] == data[uid] &&
        (forall j :: 0 <= j < i ==> uid in c[j] && c[j][uid] != data[uid]) &&
        after == Parsed(WithContent(f.doc, c[i := data])) &&
        |c[i := data]| == |c| &&
        forall j :: 0 <= j < |c| && j != i ==> c[i := data][j] == c[j]
  {
    var c := f.doc.content.value;
    var m := SameUid(data, uid);
    var i := Scan(c, m).value.value;
    forall j | 0 <= j < i
      ensures uid in c[j] && c[j][uid] != data[uid]
    {
      assert Test(m, c[j]) == Returns(false);
    }
  }

  /** When `update` does not return True the file is left exactly as it was. */
  lemma UpdateWithoutMatchKeepsFile<V>(f: FileState<V>, data: Record<V>, uid: string, uid1: string, uid2: string)
    ensures UpdateStep(f, data, uid).result != Returns(true) ==> UpdateStep(f, data, uid).file == f
    ensures UpdateTwiceStep(f, data, uid1, uid2).result != Returns(true) ==>
      UpdateTwiceStep(f, data, uid1, uid2).file == f
  {
  }

  /** `update(data, uid)` on a readable document whose records all have `uid` and none with
      `data[uid]`: False, and nothing is written. */
  lemma UpdateNoMatch<V>(d: Doc<V>, data: Record<V>, uid: string)
    requires !Falsy(d) && d.content.Some? && uid in data
    requires forall j :: 0 <= j < |d.content.value| ==>
      uid in d.content.value[j] && d.content.value[j][uid] != data[uid]
    ensures UpdateStep(Parsed(d), data, uid) == After(Parsed(d), Returns(false))
  {
  }

  /** `update_twice(data, uid1, uid2)` behaves like `update`, except that a record matches only
      when both fields are equal to those of `data`. */
  lemma UpdateTwiceReplacesFirstMatch<V>(f: FileState<V>, data: Record<V>, uid1: string, uid2: string)
    requires UpdateTwiceStep(f, data, uid1, uid2).result == Returns(true)
    ensures f.Parsed? && f.doc.content.Some? && uid1 in data && uid2 in data
    ensures var c := f.doc.content.value;
      var after := UpdateTwiceStep(f, data, uid1, uid2).file;
      exists i :: 0 <= i < |c| && uid1 in c[i] && uid2 in c[i] &&
        c[i][uid1] == data[uid1] && c[i][uid2] == data[uid2] &&
        (forall j :: 0 <= j < i ==>
          uid1 in c[j] && (c[j][uid1] != data[uid1] || (uid2 in c[j] && c[j][uid2] != data[uid2]))) &&
        after == Parsed(WithContent(f.doc, c[i := data])) &&
        |c[i := data]| == |c| &&
        forall j :: 0 <= j < |c| && j != i ==> c[i := data][j] == c[j]
  {
    var c := f.doc.content.value;
    var m := SameUids(data, uid1, uid2);
    var i := Scan(c, m).value.value;
    forall j | 0 <= j < i
      ensures uid1 in c[j] && (c[j][uid1] != data[uid1] || (uid2 in c[j] && c[j][uid2] != data[uid2]))
    {
      assert Test(m, c[j]) == Returns(false);
    }
  }

  /** After a successful `update(data, uid)`, `search_by_uid(data[uid], uid)` finds `data`. */
  lemma UpdateThenSearch<V>(f: FileState<V>, data: Record<V>, uid: string)
    requires UpdateStep(f, data, uid).result == Returns(true)
    ensures uid in data
    ensures SearchByUidResult(UpdateStep(f, data, uid).file, data[uid], uid) ==
      Returns(SearchResult(true, Some(data)))
  {
    var c := f.doc.content.value;
    var m := SameUid(data, uid);
    var i := Scan(c, m).value.value;
    var c' := c[i := data];
    var s := NonEmptyWithValue(data[uid], uid);
    forall j | 0 <= j < i
      ensures Test(s, c'[j]) == Returns(false)
    {
      assert Test(m, c[j]) == Returns(false);
    }
    assert Test(s, c'[i]) == Returns(true);
    ScanFromFirstHit(c', s, 0, i);
  }

  // ---- remove_by_uid ----

  /** Without a document, `remove_by_uid` returns False and writes nothing. */
  lemma RemoveByUidWithoutDocument<V>(f: FileState<V>, value: V, uid: string)
    requires ReadContentResult(f) == Returns(EmptyDict)
    ensures RemoveByUidStep(f, value, uid) == After(f, Returns(false))
    ensures RemoveByUidKeepingRestStep(f, value, uid) == After(f, Returns(false))
  {
  }

  /** The record a first-match removal takes out is the one at the first matching index. */
  lemma RemovedIsFirstMatch<V>(c: seq<Record<V>>, value: V, uid: string, i: nat)
    requires Scan(c, WithValue(value, uid)) == Returns(Some(i))
    ensures RemoveFirst(c, c[i]) == RemoveAt(c, i)
  {
    var m := WithValue(value, uid);
    forall j | 0 <= j < i
      ensures c[j] != c[i]
    {
      assert Test(m, c[j]) == Returns(false);
    }
    RemoveFirstOfFirstHit(c, i);
  }

  /** A `remove_by_uid` scan that does not raise finds a record exactly when some record's
      `uid` is `value`. */
  lemma WithValueScanFinds<V>(c: seq<Record<V>>, value: V, uid: string)
    requires Scan(c, WithValue(value, uid)).Returns?
    ensures Scan(c, WithValue(value, uid)).value.Some? <==>
      exists j :: 0 <= j < |c| && uid in c[j] && c[j][uid] == value
  {
    var m := WithValue(value, uid);
    if Scan(c, m).value.None? {
      forall j | 0 <= j < |c|
        ensures !(uid in c[j] && c[j][uid] == value)
      {
        assert Test(m, c[j]) == Returns(false);
      }
    } else {
      assert Test(m, c[Scan(c, m).value.value]) == Returns(true);
    }
  }

  /** Clearing any document and appending one record leaves the skeleton plus that record,
      or the bare skeleton when the record is empty. */
  lemma AppendAfterClear<V>(d: Doc<V>, r: Record<V>)
    ensures WriteContentStep(ClearContentStep(Parsed(d)).file, r).file ==
      Parsed(Document(map[], Some(if |r| == 0 then [] else [r])))
  {
    assert [] + [r] == [r];
  }

  /** The write-back of `remove_by_uid` once its scan has stopped at `hit`. */
  lemma RemoveByUidAfterScan<V>(d: Doc<V>, value: V, uid: string, hit: Option<nat>)
    requires !Falsy(d) && d.content.Some?
    requires Scan(d.content.value, WithValue(value, uid)) == Returns(hit)
    ensures var c := d.content.value;
      var remaining := if hit.Some? then RemoveAt(c, hit.value) else c;
      RemoveByUidStep(Parsed(d), value, uid) == After(Parsed(Document(map[], Some(
        if remaining == [] || |remaining[0]| == 0 then [] else [remaining[0]]))), Returns(hit.Some?))
  {
    var c := d.content.value;
    if hit.Some? {
      RemovedIsFirstMatch(c, value, uid, hit.value);
    }
    var remaining := if hit.Some? then RemoveAt(c, hit.value) else c;
    if |remaining| > 0 {
      AppendAfterClear(d, remaining[0]);
    }
  }

  /** `remove_by_uid(value, uid)` as written, on a document with `Content == c`: it reports
      whether some record's `uid` is `value` (unless a record without `uid` comes first and
      raises KeyError, leaving the file alone); afterwards the file holds only the skeleton
      plus, when the remaining list is non-empty and its first record is not empty, that
      first record. Every other remaining record, and every other top-level key, is lost. */
  lemma RemoveByUidKeepsAtMostOne<V>(d: Doc<V>, value: V, uid: string)
    requires !Falsy(d) && d.content.Some?
    ensures var c := d.content.value;
      var s := RemoveByUidStep(Parsed(d), value, uid);
      match Scan(c, WithValue(value, uid))
      case RaisesKeyError(k) => s == After(Parsed(d), RaisesKeyError(k))
      case Returns(hit) =>
        var remaining := if hit.Some? then RemoveAt(c, hit.value) else c;
        && s.file == Parsed(Document(map[], Some(
             if remaining == [] || |remaining[0]| == 0 then [] else [remaining[0]])))
        && (s.result == Returns(true) <==> exists j :: 0 <= j < |c| && uid in c[j] && c[j][uid] == value)
  {
    var c := d.content.value;
    match Scan(c, WithValue(value, uid))
    case RaisesKeyError(k) =>
    case Returns(hit) =>
      WithValueScanFinds(c, value, uid);
      RemoveByUidAfterScan(d, value, uid, hit);
  }

  /** The corrected removal deletes exactly the first matching record and keeps everything
      else: the other records in order, the other top-level keys, one record fewer. */
  lemma RemoveByUidKeepingRestRemovesOnlyMatch<V>(d: Doc<V>, value: V, uid: string)
    requires !Falsy(d) && d.content.Some?
    ensures var c := d.content.value;
      var s := RemoveByUidKeepingRestStep(Parsed(d), value, uid);
      match Scan(c, WithValue(value, uid))
      case RaisesKeyError(k) => s == After(Parsed(d), RaisesKeyError(k))
      case Returns(None) => s == After(Parsed(d), Returns(false))
      case Returns(Some(i)) =>
        && s == After(Parsed(WithContent(d, RemoveAt(c, i))), Returns(true))
        && |RemoveAt(c, i)| == |c| - 1
        && multiset(RemoveAt(c, i)) == multiset(c) - multiset{c[i]}
        && c[i][uid] == value
  {
    var c := d.content.value;
    match Scan(c, WithValue(value, uid))
    case RaisesKeyError(k) =>
    case Returns(None) =>
    case Returns(Some(i)) =>
      RemoveAtShape(c, i);
  }

  // ---- worked examples ----

  /** JSON values for the examples. */
  datatype Value = Num(n: int) | Text(s: string)

  function Rec(id: int, v: string): Record<Value> {
    map["id" := Num(id), "v" := Text(v)]
  }

  /** The document `{"Content": [{"id": 1, "v": "a"}, {"id": 2, "v": "b"}]}`. */
  function TwoRecords(): FileState<Value> {
    Parsed(Document(map[], Some([Rec(1, "a"), Rec(2, "b")])))
  }

  /** Looking up id 2 finds the second record; id 3 is not found; updating id 1 replaces the
      first record only and writes the change. */
  lemma LookupAndUpdateExample()
    ensures SearchByUidResult(TwoRecords(), Num(2), "id") == Returns(SearchResult(true, Some(Rec(2, "b"))))
    ensures SearchByUidResult(TwoRecords(), Num(3), "id") == Returns(SearchResult(false, None))
    ensures UpdateStep(TwoRecords(), Rec(1, "z"), "id") ==
      After(Parsed(Document(map[], Some([Rec(1, "z"), Rec(2, "b")]))), Returns(true))
  {
    var c := [Rec(1, "a"), Rec(2, "b")];
    assert Test(NonEmptyWithValue(Num(2), "id"), c[0]) == Returns(false);
    assert Test(NonEmptyWithValue(Num(2), "id"), c[1]) == Returns(true);
    ScanFromFirstHit(c, NonEmptyWithValue(Num(2), "id"), 0, 1);
    assert Test(NonEmptyWithValue(Num(3), "id"), c[0]) == Returns(false);
    assert Test(NonEmptyWithValue(Num(3), "id"), c[1]) == Returns(false);
    assert Test(SameUid(Rec(1, "z"), "id"), c[0]) == Returns(true);
    ScanFromFirstHit(c, SameUid(Rec(1, "z"), "id"), 0, 0);
    assert c[0 := Rec(1, "z")] == [Rec(1, "z"), Rec(2, "b")];
  }

  /** The document `{"Content": [{"id": 1, "v": "a"}, {"id": 2, "v": "b"}, {"id": 3, "v": "c"}]}`. */
  function ThreeRecords(): FileState<Value> {
    Parsed(Document(map[], Some([Rec(1, "a"), Rec(2, "b"), Rec(3, "c")])))
  }

  /** Removing the middle one of three records: as written, the third record is lost;
      the corrected removal keeps it. */
  lemma RemoveByUidDropsTrailingRecords()
    ensures RemoveByUidStep(ThreeRecords(), Num(2), "id") ==
      After(Parsed(Document(map[], Some([Rec(1, "a")]))), Returns(true))
    ensures RemoveByUidKeepingRestStep(ThreeRecords(), Num(2), "id") ==
      After(Parsed(Document(map[], Some([Rec(1, "a"), Rec(3, "c")]))), Returns(true))
  {
    var c := [Rec(1, "a"), Rec(2, "b"), Rec(3, "c")];
    var m := WithValue(Num(2), "id");
    assert Test(m, c[0]) == Returns(false);
    assert Test(m, c[1]) == Returns(true);
    ScanFromFirstHit(c, m, 0, 1);
    RemoveByUidAfterScan(ThreeRecords().doc, Num(2), "id", Some(1));
    assert RemoveAt(c, 1) == [Rec(1, "a"), Rec(3, "c")];
  }

  /** Removing an id that no record has: as written, the file is still cut down to its
      first record; the corrected removal changes nothing. */
  lemma RemoveByUidTruncatesWithoutMatch()
    ensures RemoveByUidStep(ThreeRecords(), Num(4), "id") ==
      After(Parsed(Document(map[], Some([Rec(1, "a")]))), Returns(false))
    ensures RemoveByUidKeepingRestStep(ThreeRecords(), Num(4), "id") == After(ThreeRecords(), Returns(false))
  {
    var c := [Rec(1, "a"), Rec(2, "b"), Rec(3, "c")];
    var m := WithValue(Num(4), "id");
    assert Test(m, c[0]) == Returns(false);
    assert Test(m, c[1]) == Returns(false);
    assert Test(m, c[2]) == Returns(false);
    assert ScanFrom(c, m, 3) == Returns(None);
    RemoveByUidAfterScan(ThreeRecords().doc, Num(4), "id", None);
  }
}
