/** Test registration (server/src/register/mod.rs): deciding whether an
    incoming set of test descriptors holds anything the latest stored
    snapshot lacks, and appending a snapshot only when it does. */
module Registration {
  import opened Wrappers
  import Tables

  type TestId = string

  /** One registered test: which version of which export in which file. */
  datatype Test = Test(version: string, exportName: string, filePath: string)

  /** The payload's `tests` map and the stored `metadata`. */
  type Tests = map<TestId, seq<Test>>

  /** The `metadata` JSON column: a map of the expected shape, or any other
      JSON value (such as `{"invalid": "data"}`). */
  datatype Json = TestsJson(tests: Tests) | OtherJson(text: string)

  function Serialize(tests: Tests): (j: Json)
    ensures Deserialize(j) == Success(tests)
  {
    TestsJson(tests)
  }

  /** `serde_json::from_value::<HashMap<TestId, Vec<Test>>>`. */
  function Deserialize(j: Json): (r: Result<Tests, string>)
    ensures r.Failure? <==> j.OtherJson?
  {
    match j
    case TestsJson(tests) => Success(tests)
    case OtherJson(_) => Failure("Failed to deserialize metadata")
  }

  datatype TestRegistration = TestRegistration(id: int, blobUrl: string, metadata: Json, createdAt: int)

  // ---------------------------------------------------------------------
  // The novelty check
  // ---------------------------------------------------------------------

  /** A previous descriptor matches an incoming one on all three fields. */
  predicate Matches(prev: Test, test: Test) {
    prev.version == test.version && prev.exportName == test.exportName && prev.filePath == test.filePath
  }

  /** Every incoming descriptor appears, under its own id, in the previous
      snapshot. Every snapshot covers itself, and nothing with an id the
      previous snapshot lacks is covered. */
  predicate Covered(prev: Tests, tests: Tests): (b: bool)
    ensures prev == tests ==> b
    ensures b ==> tests.Keys <= prev.Keys
  {
    forall id :: id in tests ==>
      && id in prev
      && forall t :: t in tests[id] ==> exists p :: p in prev[id] && Matches(p, t)
  }

  /** `prev_versions.iter().any(..)`. */
  function AnyMatch(prevs: seq<Test>, test: Test): (b: bool)
    ensures b <==> exists p :: p in prevs && Matches(p, test)
  {
    if prevs == [] then false
    else Matches(prevs[0], test) || AnyMatch(prevs[1..], test)
  }

  /** No previous descriptor matches `test`. */
  predicate Unmatched(prevs: seq<Test>, test: Test) {
    !exists p :: p in prevs && Matches(p, test)
  }

  /** The inner loop: true at the first incoming descriptor of this id that
      no previous descriptor matches. */
  function FirstUnmatched(prevs: seq<Test>, versions: seq<Test>): (b: bool)
    ensures b <==> exists t :: t in versions && Unmatched(prevs, t)
  {
    if versions == [] then false
    else if !AnyMatch(prevs, versions[0]) then
      assert versions[0] in versions;
      true
    else
      assert versions == [versions[0]] + versions[1..];
      FirstUnmatched(prevs, versions[1..])
  }

  /** The outer loop over the incoming ids, visited in `order` (the map's
      iteration order), returning true at the first id that is new or holds
      an unmatched descriptor. */
  function NovelAlong(prev: Tests, tests: Tests, order: seq<TestId>): (b: bool)
    requires forall id :: id in order ==> id in tests
    ensures !b <==> forall id :: id in order ==>
      && id in prev
      && forall t :: t in tests[id] ==> exists p :: p in prev[id] && Matches(p, t)
  {
    if order == [] then false
    else
      var id := order[0];
      if id !in prev then true
      else if FirstUnmatched(prev[id], tests[id]) then true
      else NovelAlong(prev, tests, order[1..])
  }

  /** `order` lists exactly the keys of `tests`: a possible iteration order
      of the incoming map. */
  predicate Enumerates(order: seq<TestId>, tests: Tests) {
    && (forall id :: id in order ==> id in tests)
    && (forall id :: id in tests ==> id in order)
  }

  /** `is_new_registration`. With no previous snapshot everything is new;
      a previous snapshot whose metadata does not decode is an error; else
      the answer is false exactly when every incoming descriptor is matched
      under its id, whatever order the ids are visited in. */
  function IsNewRegistration(prevRegistration: Option<TestRegistration>, tests: Tests, order: seq<TestId>)
    : (r: Result<bool, string>)
    requires Enumerates(order, tests)
    ensures prevRegistration.None? ==> r == Success(true)
    ensures prevRegistration.Some? ==>
      (r.Failure? <==> prevRegistration.value.metadata.OtherJson?)
    ensures prevRegistration.Some? && prevRegistration.value.metadata.TestsJson? ==>
      r.Success? && (r.value <==> !Covered(prevRegistration.value.metadata.tests, tests))
  {
    match prevRegistration
    case None => Success(true)
    case Some(reg) =>
      match Deserialize(reg.metadata)
      case Failure(e) => Failure(e)
      case Success(prevMetadata) => Success(NovelAlong(prevMetadata, tests, order))
  }

  /** Two visiting orders of the same map give the same answer. */
  lemma OrderIrrelevant(prev: TestRegistration, tests: Tests, order1: seq<TestId>, order2: seq<TestId>)
    requires Enumerates(order1, tests) && Enumerates(order2, tests)
    ensures IsNewRegistration(Some(prev), tests, order1) == IsNewRegistration(Some(prev), tests, order2)
  {
  }

  /** An incoming id the previous snapshot does not have makes the
      registration new, even when its descriptor list is empty. */
  lemma UnknownIdIsNew(prev: Tests, tests: Tests, order: seq<TestId>, id: TestId)
    requires Enumerates(order, tests)
    requires id in tests && id !in prev
    ensures forall reg: TestRegistration :: reg.metadata == TestsJson(prev) ==>
      IsNewRegistration(Some(reg), tests, order) == Success(true)
  {
  }

  /** Resubmitting the snapshot that is stored is never new. */
  lemma ResubmissionIsNotNew(reg: TestRegistration, tests: Tests, order: seq<TestId>)
    requires Enumerates(order, tests)
    requires reg.metadata == Serialize(tests)
    ensures IsNewRegistration(Some(reg), tests, order) == Success(false)
  {
    forall id | id in tests
      ensures forall t :: t in tests[id] ==> exists p :: p in tests[id] && Matches(p, t)
    {
      forall t | t in tests[id]
        ensures exists p :: p in tests[id] && Matches(p, t)
      {
        assert Matches(t, t);
      }
    }
  }

  /** Previous ids and descriptors beyond the incoming ones never make a
      registration new: a larger previous snapshot covers whatever a
      smaller one covers. */
  lemma LargerSnapshotStillCovers(small: Tests, large: Tests, tests: Tests)
    requires Covered(small, tests)
    requires forall id :: id in small ==> id in large && forall p :: p in small[id] ==> p in large[id]
    ensures Covered(large, tests)
  {
    forall id | id in tests
      ensures id in large && forall t :: t in tests[id] ==> exists p :: p in large[id] && Matches(p, t)
    {
      forall t | t in tests[id]
        ensures exists p :: p in large[id] && Matches(p, t)
      {
        var p :| p in small[id] && Matches(p, t);
        assert p in large[id];
      }
    }
  }

  /** With no previous snapshot even an empty payload is new. */
  lemma NoPreviousExample()
    ensures IsNewRegistration(None, map[], []) == Success(true)
  {
  }

  /** An identical resubmission is not new. */
  lemma IdenticalExample()
    ensures IsNewRegistration(Some(Stored(Single("test_id", Test("1.0.0", "export_name", "file_path")))),
                              Single("test_id", Test("1.0.0", "export_name", "file_path")), ["test_id"])
            == Success(false)
  {
    var t := Test("1.0.0", "export_name", "file_path");
    assert AnyMatch([t], t);
  }

  /** A test id the previous snapshot lacks is new. */
  lemma NewIdExample()
    ensures IsNewRegistration(Some(Stored(map[])),
                              Single("new_test_id", Test("1.0.0", "export_name", "file_path")), ["new_test_id"])
            == Success(true)
  {
  }

  /** A second version next to an already registered one is new. */
  lemma NewVersionExample()
    ensures IsNewRegistration(Some(Stored(Single("test_id", Test("1.0.0", "export_name", "file_path")))),
                              map["test_id" := [Test("1.0.0", "export_name", "file_path"),
                                                Test("1.0.1", "export_name", "file_path")]], ["test_id"])
            == Success(true)
  {
    assert !AnyMatch([Test("1.0.0", "export_name", "file_path")], Test("1.0.1", "export_name", "file_path"));
  }

  /** The same version under another export name is new. */
  lemma ChangedExportNameExample()
    ensures IsNewRegistration(Some(Stored(Single("test_id", Test("1.0.0", "old_export_name", "file_path")))),
                              Single("test_id", Test("1.0.0", "new_export_name", "file_path")), ["test_id"])
            == Success(true)
  {
    assert !AnyMatch([Test("1.0.0", "old_export_name", "file_path")], Test("1.0.0", "new_export_name", "file_path"));
  }

  /** The same version in another file is new. */
  lemma ChangedFilePathExample()
    ensures IsNewRegistration(Some(Stored(Single("test_id", Test("1.0.0", "export_name", "old_file_path")))),
                              Single("test_id", Test("1.0.0", "export_name", "new_file_path")), ["test_id"])
            == Success(true)
  {
    assert !AnyMatch([Test("1.0.0", "export_name", "old_file_path")], Test("1.0.0", "export_name", "new_file_path"));
  }

  /** Metadata of another shape is an error, not an answer. */
  lemma InvalidMetadataExample()
    ensures IsNewRegistration(Some(TestRegistration(1, BlobUrl, OtherJson("{\"invalid\": \"data\"}"), 0)), map[], [])
            .Failure?
  {
  }

  /** A snapshot holding one test under one id. */
  function Single(id: TestId, test: Test): Tests {
    map[id := [test]]
  }

  /** A stored registration row with the given metadata. */
  function Stored(metadata: Tests): TestRegistration {
    TestRegistration(1, BlobUrl, TestsJson(metadata), 0)
  }

  // ---------------------------------------------------------------------
  // The registration table and `test_post`
  // ---------------------------------------------------------------------

  const BlobUrl: string := "https://example.com"

  datatype StatusCode = Ok | InternalServerError

  function RegistrationCreatedAt(r: TestRegistration): int { r.createdAt }

  function KeepAll(r: TestRegistration): bool { true }

  /** `order_by(created_at.desc()).first()`: None only for an empty table,
      otherwise a stored row no other row postdates. */
  function Latest(rows: seq<TestRegistration>): (r: Option<TestRegistration>)
    ensures r.None? <==> rows == []
    ensures r.Some? ==> r.value in rows && forall x :: x in rows ==> x.createdAt <= r.value.createdAt
  {
    Tables.MostRecent(rows, RegistrationCreatedAt, KeepAll)
  }

  class RegistrationTable {
    var rows: seq<TestRegistration>
    /** The next timestamp `Utc::now()` hands out. */
    var clock: int

    /** Serial ids and timestamps that increase with insertion and lie in
        the past. */
    ghost predicate Valid()
      reads this
    {
      && (forall i :: 0 <= i < |rows| ==> rows[i].id == i + 1 && rows[i].createdAt < clock)
      && Tables.Ascending(rows, RegistrationCreatedAt)
    }

    constructor ()
      ensures Valid() && rows == []
    {
      rows := [];
      clock := 0;
    }

    /** `test_post` for a payload whose map is visited in `order`.
        `fetchFails` and `insertFails` stand for the two storage calls
        failing. A snapshot is appended only when the fetch succeeds, the
        check says the payload is new, and the insert succeeds. */
    method TestPost(payload: Tests, order: seq<TestId>, fetchFails: bool, insertFails: bool)
      returns (status: StatusCode)
      requires Valid() && Enumerates(order, payload)
      modifies this
      ensures Valid()
      ensures fetchFails ==> status == InternalServerError && rows == old(rows)
      ensures !fetchFails ==>
        var check := IsNewRegistration(Latest(old(rows)), payload, order);
        && (check.Failure? ==> status == InternalServerError && rows == old(rows))
        && (check == Success(false) ==> status == Ok && rows == old(rows))
        && (check == Success(true) && insertFails ==> status == InternalServerError && rows == old(rows))
        && (check == Success(true) && !insertFails ==>
              status == Ok
              && rows == old(rows) + [TestRegistration(|old(rows)| + 1, BlobUrl, Serialize(payload), old(clock))])
    {
      if fetchFails {
        return InternalServerError;
      }
      var latest := Latest(rows);
      var check := IsNewRegistration(latest, payload, order);
      match check {
        case Failure(_) =>
          return InternalServerError;
        case Success(isNew) =>
          if !isNew {
            return Ok;
          }
      }
      var createdAt := clock;
      clock := clock + 1;
      if insertFails {
        return InternalServerError;
      }
      var row := TestRegistration(|rows| + 1, BlobUrl, Serialize(payload), createdAt);
      Tables.AscendingAppend(rows, row, RegistrationCreatedAt);
      rows := rows + [row];
      status := Ok;
    }
  }

  /** Right after a payload has been stored, posting it again is not new. */
  lemma ResubmissionAfterInsertIsNotNew(rows: seq<TestRegistration>, row: TestRegistration, payload: Tests, order: seq<TestId>)
    requires Tables.Ascending(rows + [row], RegistrationCreatedAt)
    requires row.metadata == Serialize(payload)
    requires Enumerates(order, payload)
    ensures IsNewRegistration(Latest(rows + [row]), payload, order) == Success(false)
  {
    Tables.MostRecentOfAppended(rows, row, RegistrationCreatedAt, KeepAll);
    ResubmissionIsNotNew(row, payload, order);
  }

  /** Posting the same payload twice stores at most one snapshot. */
  method PostTwice(table: RegistrationTable, payload: Tests, order: seq<TestId>)
    returns (first: StatusCode, second: StatusCode)
    requires table.Valid() && Enumerates(order, payload)
    modifies table
    ensures table.Valid()
    ensures |table.rows| <= |old(table.rows)| + 1
    ensures first == Ok ==> second == Ok
  {
    first := table.TestPost(payload, order, false, false);
    if |table.rows| == |old(table.rows)| + 1 {
      ResubmissionAfterInsertIsNotNew(old(table.rows), table.rows[|table.rows| - 1], payload, order);
    }
    second := table.TestPost(payload, order, false, false);
  }
}
