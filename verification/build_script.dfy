/**
 * What the build script generates from a version ledger: the per-type
 * `type_version` lookup table and the `is_foreign_type` membership test,
 * and the concrete ledger the snapshot crate is configured with.
 */
module BuildScript {
  import opened Common
  import opened VersionMap

  /**
   * A generated block is compiled only when its type is not a test-only type,
   * or when the crate is built for its tests (`#[cfg(test)]`).
   */
  predicate Compiled(name: TypeName, testTypes: set<TypeName>, testBuild: bool) {
    name !in testTypes || testBuild
  }

  /**
   * The meaning of the generated `type_version(tid, app_version)`: a type the
   * ledger records answers from its precomputed history at index
   * `app_version - 1`; any other type answers the base version. `None` is the
   * out-of-bounds index panic (an application version of 0 or beyond the ledger).
   */
  function TypeVersionFn(vm: VersionMap, testTypes: set<TypeName>, testBuild: bool,
                         tid: TypeName, appVersion: u16): (r: Option<u16>)
    ensures tid !in NameSet(vm.versions) ==> r == Some(BASE_VERSION)
    ensures !Compiled(tid, testTypes, testBuild) ==> r == Some(BASE_VERSION)
    ensures tid in NameSet(vm.versions) && Compiled(tid, testTypes, testBuild) ==>
      (r.Some? <==> 1 <= appVersion <= |vm.versions|)
    ensures (tid in NameSet(vm.versions) && Compiled(tid, testTypes, testBuild)
             && 1 <= appVersion <= |vm.versions|) ==> r == Some(GetTypeVersion(vm, appVersion, tid))
  {
    if tid in NameSet(vm.versions) && Compiled(tid, testTypes, testBuild) then
      var mapping := TypeHistory(vm, tid);
      if 1 <= appVersion <= |mapping| then
        TypeHistoryAgrees(vm, tid, appVersion);
        Some(mapping[appVersion - 1])
      else None
    else Some(BASE_VERSION)
  }

  /**
   * The meaning of the generated `is_foreign_type(tid)`: one block per
   * configured name, in order, each compiled only under `Compiled`; the first
   * block whose name is `tid` returns true, and falling off the end returns false.
   */
  function IsForeignTypeFn(names: seq<TypeName>, testTypes: set<TypeName>, testBuild: bool,
                           tid: TypeName): bool
  {
    if |names| == 0 then false
    else if Compiled(names[0], testTypes, testBuild) && names[0] == tid then true
    else IsForeignTypeFn(names[1..], testTypes, testBuild, tid)
  }

  /** A type is reported foreign exactly when it is configured as foreign and its block is compiled. */
  lemma {:induction false} IsForeignTypeIff(names: seq<TypeName>, testTypes: set<TypeName>, testBuild: bool,
                                            tid: TypeName)
    ensures IsForeignTypeFn(names, testTypes, testBuild, tid) <==> tid in names && Compiled(tid, testTypes, testBuild)
  {
    if |names| > 0 {
      IsForeignTypeIff(names[1..], testTypes, testBuild, tid);
      assert names == [names[0]] + names[1..];
    }
  }

  // ---------------------------------------------------------------------
  // The snapshot crate's configuration.
  // ---------------------------------------------------------------------

  /** Root 1 is left empty; `tests::A` and `tests::Test` are bumped at roots 2, 3 and (Test only) 4. */
  function SnapshotConfig(): VersionMap {
    var r2 := SetTypeVersion(SetTypeVersion(NewVersion(New()), "tests::A", 2), "tests::Test", 2);
    var r3 := SetTypeVersion(SetTypeVersion(NewVersion(r2), "tests::A", 3), "tests::Test", 3);
    SetTypeVersion(NewVersion(r3), "tests::Test", 4)
  }

  const SNAPSHOT_FOREIGN_TYPES: seq<TypeName> := []
  const SNAPSHOT_TEST_TYPES: set<TypeName> := {"tests::A", "tests::Test"}

  lemma SnapshotConfigShape()
    ensures |SnapshotConfig().versions| == 4
    ensures LatestVersion(SnapshotConfig()) == 4
    ensures SnapshotConfig().versions[0] == map[]
    ensures SnapshotConfig().versions[1] == map["tests::A" := 2, "tests::Test" := 2]
    ensures SnapshotConfig().versions[2] == map["tests::A" := 3, "tests::Test" := 3]
    ensures SnapshotConfig().versions[3] == map["tests::Test" := 4]
  {
  }

  /** The generated histories of the two configured types. */
  lemma SnapshotHistories()
    ensures TypeHistory(SnapshotConfig(), "tests::Test") == [1, 2, 3, 4]
    ensures TypeHistory(SnapshotConfig(), "tests::A") == [1, 2, 3, 3]
  {
    SnapshotPrefixes();
    TestHistory();
    AHistory();
  }

  lemma SnapshotPrefixes()
    ensures SnapshotConfig().versions[..2][..1] == SnapshotConfig().versions[..1]
    ensures SnapshotConfig().versions[..3][..2] == SnapshotConfig().versions[..2]
    ensures SnapshotConfig().versions[..4] == SnapshotConfig().versions
  {
    SnapshotConfigShape();
  }

  lemma TestHistory()
    ensures TypeHistory(SnapshotConfig(), "tests::Test") == [1, 2, 3, 4]
  {
    SnapshotConfigShape();
    SnapshotPrefixes();
    var vs := SnapshotConfig().versions;
    assert History(vs[..1], "tests::Test") == [1];
    assert History(vs[..2], "tests::Test") == [1, 2];
    assert History(vs[..3], "tests::Test") == [1, 2, 3];
  }

  lemma AHistory()
    ensures TypeHistory(SnapshotConfig(), "tests::A") == [1, 2, 3, 3]
  {
    SnapshotConfigShape();
    SnapshotPrefixes();
    var vs := SnapshotConfig().versions;
    assert History(vs[..1], "tests::A") == [1];
    assert History(vs[..2], "tests::A") == [1, 2];
    assert History(vs[..3], "tests::A") == [1, 2, 3];
  }

  /** Root version 1 records nothing, so every type is at its base version there. */
  lemma SnapshotRootOneIsBase(name: TypeName)
    ensures GetTypeVersion(SnapshotConfig(), 1, name) == BASE_VERSION
  {
    SnapshotConfigShape();
    GetTypeVersionSpec(SnapshotConfig(), 1, name);
  }

  /** The configured `type_version` answers 1 for every type the ledger does not record. */
  lemma SnapshotUnknownTypes(tid: TypeName, appVersion: u16, testBuild: bool)
    requires tid != "tests::A" && tid != "tests::Test"
    ensures TypeVersionFn(SnapshotConfig(), SNAPSHOT_TEST_TYPES, testBuild, tid, appVersion)
         == Some(BASE_VERSION)
  {
    SnapshotConfigShape();
    var vs := SnapshotConfig().versions;
    assert tid !in NameSet(vs) by {
      forall i | 0 <= i < |vs| ensures tid !in vs[i] {
      }
    }
  }

  /** Outside test builds the two configured types are compiled out and also answer 1. */
  lemma SnapshotTestTypesOutsideTests(appVersion: u16)
    ensures TypeVersionFn(SnapshotConfig(), SNAPSHOT_TEST_TYPES, false, "tests::Test", appVersion)
         == Some(BASE_VERSION)
  {
  }

  /** In test builds `tests::Test` answers its history at every configured root version. */
  lemma SnapshotTestTypeInTests()
    ensures TypeVersionFn(SnapshotConfig(), SNAPSHOT_TEST_TYPES, true, "tests::Test", 3) == Some(3)
    ensures TypeVersionFn(SnapshotConfig(), SNAPSHOT_TEST_TYPES, true, "tests::A", 4) == Some(3)
    ensures TypeVersionFn(SnapshotConfig(), SNAPSHOT_TEST_TYPES, true, "tests::A", 5) == None
  {
    SnapshotConfigShape();
    SnapshotHistories();
    assert "tests::Test" in SnapshotConfig().versions[1];
    assert "tests::A" in SnapshotConfig().versions[1];
  }

  /** With no foreign types configured, no type is foreign. */
  lemma SnapshotNoForeignTypes(tid: TypeName, testBuild: bool)
    ensures !IsForeignTypeFn(SNAPSHOT_FOREIGN_TYPES, SNAPSHOT_TEST_TYPES, testBuild, tid)
  {
    IsForeignTypeIff(SNAPSHOT_FOREIGN_TYPES, SNAPSHOT_TEST_TYPES, testBuild, tid);
  }

  // ---------------------------------------------------------------------
  // The example crate `a2`, configured with its own ledger.
  // ---------------------------------------------------------------------

  function A2Config(): VersionMap {
    SetTypeVersion(NewVersion(SetTypeVersion(NewVersion(New()), "A2", 1)), "A2", 2)
  }

  lemma A2History()
    ensures TypeHistory(A2Config(), "A2") == [1, 1, 2]
  {
    var vs := A2Config().versions;
    assert vs == [map[], map["A2" := 1], map["A2" := 2]];
    assert vs[..2][..1] == vs[..1] && vs[..3] == vs;
    assert History(vs[..1], "A2") == [1];
    assert History(vs[..2], "A2") == [1, 1];
  }
}
