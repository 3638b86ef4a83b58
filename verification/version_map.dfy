/**
 * The version ledger: an append-only list of root versions, each recording
 * which local schema version some types adopt from that root version on.
 * Root version `r` (1-based) is stored at index `r - 1`.
 */
module VersionMap {
  import opened Common

  /** The version a type has until the ledger says otherwise. */
  const BASE_VERSION: u16 := 1

  /** Types are keyed by name (the generated code compares type identities). */
  type TypeName = string

  datatype VersionMap = VersionMap(versions: seq<map<TypeName, u16>>)

  /**
   * Every map built with `New` has at least one root version; an empty ledger
   * (the derived `Default`) makes `set_type_version` index out of bounds.
   */
  predicate Valid(vm: VersionMap) {
    |vm.versions| >= 1
  }

  /** A fresh ledger: exactly one root version, recording nothing. */
  function New(): (vm: VersionMap)
    ensures Valid(vm)
    ensures LatestVersion(vm) == 1
    ensures forall n :: n !in vm.versions[0]
  {
    VersionMap([map[]])
  }

  /** The records of the latest root version. */
  function Latest(vm: VersionMap): map<TypeName, u16>
    requires Valid(vm)
  {
    vm.versions[|vm.versions| - 1]
  }

  /** Appends an empty root version, which becomes the latest. */
  function NewVersion(vm: VersionMap): (r: VersionMap)
    ensures Valid(r)
    ensures |r.versions| == |vm.versions| + 1
    ensures r.versions[..|vm.versions|] == vm.versions
    ensures forall n :: n !in r.versions[|vm.versions|]
    ensures |vm.versions| < 0xFFFF ==> LatestVersion(r) == LatestVersion(vm) + 1
  {
    VersionMap(vm.versions + [map[]])
  }

  /**
   * Records that `name` has local version `v` from the latest root version on,
   * overwriting an earlier record for `name` at that same root version.
   */
  function SetTypeVersion(vm: VersionMap, name: TypeName, v: u16): (r: VersionMap)
    requires Valid(vm)
    ensures Valid(r)
    ensures |r.versions| == |vm.versions|
    ensures r.versions[..|vm.versions| - 1] == vm.versions[..|vm.versions| - 1]
    ensures name in Latest(r) && Latest(r)[name] == v
    ensures forall n :: n != name ==> (n in Latest(r) <==> n in Latest(vm))
    ensures forall n :: n != name && n in Latest(vm) ==> Latest(r)[n] == Latest(vm)[n]
  {
    var last := |vm.versions| - 1;
    var updated: map<TypeName, u16> := vm.versions[last][name := v];
    VersionMap(vm.versions[last := updated])
  }

  /** The latest root version; the source narrows the length to `u16`. */
  function LatestVersion(vm: VersionMap): (r: u16)
    ensures |vm.versions| < 0x1_0000 ==> r == |vm.versions|
  {
    |vm.versions| % 0x1_0000
  }

  /**
   * The narrowing wraps: a ledger of 2^16 root versions reports latest
   * version 0, and 2^16 more root versions report the same latest version.
   */
  lemma LatestVersionWraps(vm: VersionMap)
    requires |vm.versions| >= 0x1_0000
    ensures |vm.versions| == 0x1_0000 ==> LatestVersion(vm) == 0
    ensures LatestVersion(vm) == LatestVersion(VersionMap(vm.versions[0x1_0000..]))
  {
    assert |vm.versions[0x1_0000..]| == |vm.versions| - 0x1_0000;
  }

  /**
   * Index `i` holds the record of `name` that a backward scan of `space`
   * meets first: `name` is recorded at `i` and at no later index.
   */
  ghost predicate IsLatestEntry(space: seq<map<TypeName, u16>>, name: TypeName, i: int) {
    && 0 <= i < |space|
    && name in space[i]
    && forall j :: i < j < |space| ==> name !in space[j]
  }

  /** The backward scan of `get_type_version` over the root versions in `space`. */
  function Scan(space: seq<map<TypeName, u16>>, name: TypeName): u16 {
    if |space| == 0 then BASE_VERSION
    else if name in space[|space| - 1] then space[|space| - 1][name]
    else Scan(space[..|space| - 1], name)
  }

  /** The scan answers the latest record of `name`, or the base version when there is none. */
  lemma {:induction false} ScanSpec(space: seq<map<TypeName, u16>>, name: TypeName)
    ensures (forall i :: 0 <= i < |space| ==> name !in space[i]) ==> Scan(space, name) == BASE_VERSION
    ensures forall i :: IsLatestEntry(space, name, i) ==> Scan(space, name) == space[i][name]
  {
    if |space| > 0 && name !in space[|space| - 1] {
      var init := space[..|space| - 1];
      ScanSpec(init, name);
      forall i | IsLatestEntry(space, name, i)
        ensures IsLatestEntry(init, name, i)
      {
      }
    }
  }

  /**
   * The local version of `name` at root version `root`: the record from the
   * highest root version not above `root` that mentions `name`, else 1.
   * A root beyond the ledger panics in the source (`split_at`).
   */
  function GetTypeVersion(vm: VersionMap, root: u16, name: TypeName): u16
    requires root <= |vm.versions|
  {
    Scan(vm.versions[..root], name)
  }

  /** What `get_type_version` answers: the latest record up to `root`, else the base version. */
  lemma GetTypeVersionSpec(vm: VersionMap, root: u16, name: TypeName)
    requires root <= |vm.versions|
    ensures (forall i :: 0 <= i < root ==> name !in vm.versions[i]) ==> GetTypeVersion(vm, root, name) == BASE_VERSION
    ensures forall i :: IsLatestEntry(vm.versions[..root], name, i) ==> GetTypeVersion(vm, root, name) == vm.versions[i][name]
  {
    ScanSpec(vm.versions[..root], name);
  }

  /** A name recorded in no root version has the base version everywhere. */
  lemma UnsetTypeIsBase(vm: VersionMap, root: u16, name: TypeName)
    requires root <= |vm.versions|
    requires forall i :: 0 <= i < |vm.versions| ==> name !in vm.versions[i]
    ensures GetTypeVersion(vm, root, name) == BASE_VERSION
  {
    GetTypeVersionSpec(vm, root, name);
  }

  /** A record at root version `root` itself is what the lookup returns there. */
  lemma {:induction false} LookupOwnRecord(vm: VersionMap, root: u16, name: TypeName)
    requires 1 <= root <= |vm.versions|
    requires name in vm.versions[root - 1]
    ensures GetTypeVersion(vm, root, name) == vm.versions[root - 1][name]
  {
    assert IsLatestEntry(vm.versions[..root], name, root - 1);
  }

  /** Without a record at `root`, the lookup falls back to root version `root - 1`. */
  lemma {:induction false} LookupInherits(vm: VersionMap, root: u16, name: TypeName)
    requires 1 <= root <= |vm.versions|
    requires name !in vm.versions[root - 1]
    ensures GetTypeVersion(vm, root, name) == GetTypeVersion(vm, root - 1, name)
  {
    assert vm.versions[..root][..root - 1] == vm.versions[..root - 1];
  }

  /** `set_type_version` is visible at the latest root version and nowhere before it. */
  lemma SetTypeVersionLookups(vm: VersionMap, name: TypeName, v: u16, root: u16, other: TypeName)
    requires Valid(vm)
    requires 1 <= root <= |vm.versions|
    ensures root == |vm.versions| ==> GetTypeVersion(SetTypeVersion(vm, name, v), root, name) == v
    ensures root < |vm.versions| ==>
      GetTypeVersion(SetTypeVersion(vm, name, v), root, other) == GetTypeVersion(vm, root, other)
    ensures root == |vm.versions| && other != name ==>
      GetTypeVersion(SetTypeVersion(vm, name, v), root, other) == GetTypeVersion(vm, root, other)
  {
    var r := SetTypeVersion(vm, name, v);
    if root == |vm.versions| {
      LookupOwnRecord(r, root, name);
      if other != name {
        OtherTypeAtLatest(vm, name, v, other);
      }
    } else {
      assert r.versions[..root] == vm.versions[..root];
    }
  }

  /** At the latest root version, a type other than the one set keeps its lookup. */
  lemma OtherTypeAtLatest(vm: VersionMap, name: TypeName, v: u16, other: TypeName)
    requires Valid(vm) && other != name && |vm.versions| < 0x1_0000
    ensures GetTypeVersion(SetTypeVersion(vm, name, v), |vm.versions| as u16, other)
         == GetTypeVersion(vm, |vm.versions| as u16, other)
  {
    var r := SetTypeVersion(vm, name, v);
    var root := |vm.versions| as u16;
    if other in Latest(vm) {
      LookupOwnRecord(r, root, other);
      LookupOwnRecord(vm, root, other);
    } else {
      LookupInherits(r, root, other);
      LookupInherits(vm, root, other);
      assert r.versions[..root - 1] == vm.versions[..root - 1];
      SamePrefixSameLookup(r, vm, root - 1, other);
    }
  }

  /** A new root version changes no existing lookup and inherits the previous latest one. */
  lemma NewVersionLookups(vm: VersionMap, root: u16, name: TypeName)
    requires Valid(vm)
    requires root <= |vm.versions| < 0xFFFF
    ensures GetTypeVersion(NewVersion(vm), root, name) == GetTypeVersion(vm, root, name)
    ensures GetTypeVersion(NewVersion(vm), |vm.versions| + 1, name)
         == GetTypeVersion(vm, |vm.versions|, name)
  {
    var r := NewVersion(vm);
    var n := |vm.versions|;
    assert r.versions == vm.versions + [map[]];
    assert r.versions[..root] == vm.versions[..root];
    assert r.versions[..n] == vm.versions[..n];
    SamePrefixSameLookup(r, vm, root, name);
    SamePrefixSameLookup(r, vm, n as u16, name);
    assert name !in r.versions[n];
    LookupInherits(r, (n + 1) as u16, name);
  }

  /** Lookups at `root` see only the first `root` root versions. */
  lemma SamePrefixSameLookup(a: VersionMap, b: VersionMap, root: u16, name: TypeName)
    requires root as int <= |a.versions| && root as int <= |b.versions|
    requires a.versions[..root] == b.versions[..root]
    ensures GetTypeVersion(a, root, name) == GetTypeVersion(b, root, name)
  {
  }

  /** The per-root-version history of one type, built front to back as the source loop does. */
  function History(space: seq<map<TypeName, u16>>, name: TypeName): (h: seq<u16>)
    ensures |h| == |space|
  {
    if |space| == 0 then []
    else
      var prior := History(space[..|space| - 1], name);
      var current := if |prior| == 0 then BASE_VERSION else prior[|prior| - 1];
      var recorded := space[|space| - 1];
      prior + [if name in recorded then recorded[name] else current]
  }

  /** `type_history`: one entry per root version. */
  function TypeHistory(vm: VersionMap, name: TypeName): (h: seq<u16>)
    ensures |h| == |vm.versions|
  {
    History(vm.versions, name)
  }

  /** Entry `k` of a history is the backward scan of the first `k + 1` root versions. */
  lemma {:induction false} HistoryIsScan(space: seq<map<TypeName, u16>>, name: TypeName, k: nat)
    requires k < |space|
    ensures History(space, name)[k] == Scan(space[..k + 1], name)
    decreases |space|
  {
    var init := space[..|space| - 1];
    var prior := History(init, name);
    if k < |space| - 1 {
      HistoryIsScan(init, name, k);
      assert init[..k + 1] == space[..k + 1];
    } else {
      assert space[..k + 1] == space;
      if name !in space[k] {
        if k > 0 {
          HistoryIsScan(init, name, k - 1);
          assert init[..k] == init;
        }
        assert space[..|space| - 1] == init;
      }
    }
  }

  /**
   * The precomputed table agrees with the scan: the generated lookup
   * `mapping[app_version - 1]` answers what `get_type_version` would.
   */
  lemma TypeHistoryAgrees(vm: VersionMap, name: TypeName, root: u16)
    requires 1 <= root <= |vm.versions|
    ensures TypeHistory(vm, name)[root - 1] == GetTypeVersion(vm, root, name)
  {
    HistoryAt(vm.versions, name, root as nat);
  }

  /** Entry `n - 1` of a history is the scan of the first `n` root versions. */
  lemma HistoryAt(space: seq<map<TypeName, u16>>, name: TypeName, n: nat)
    requires 1 <= n <= |space|
    ensures History(space, name)[n - 1] == Scan(space[..n], name)
  {
    HistoryIsScan(space, name, n - 1);
  }

  /** Every name recorded in some root version. */
  function NameSet(space: seq<map<TypeName, u16>>): (s: set<TypeName>)
    ensures forall n :: n in s <==> exists i :: 0 <= i < |space| && n in space[i]
  {
    if |space| == 0 then {}
    else NameSet(space[..|space| - 1]) + space[|space| - 1].Keys
  }

  /**
   * `type_names`: every recorded name, each once. Keys of one root version are
   * visited in an unspecified order, as a hash map yields them.
   */
  method TypeNames(vm: VersionMap) returns (names: seq<TypeName>)
    ensures forall i, j :: 0 <= i < j < |names| ==> names[i] != names[j]
    ensures forall n :: n in names <==> n in NameSet(vm.versions)
  {
    names := [];
    for k := 0 to |vm.versions|
      invariant forall i, j :: 0 <= i < j < |names| ==> names[i] != names[j]
      invariant forall n :: n in names <==> exists i :: 0 <= i < k && n in vm.versions[i]
    {
      var keys := vm.versions[k].Keys;
      ghost var done: set<TypeName> := {};
      while keys != {}
        invariant keys + done == vm.versions[k].Keys
        invariant forall i, j :: 0 <= i < j < |names| ==> names[i] != names[j]
        invariant forall n :: n in names <==> (exists i :: 0 <= i < k && n in vm.versions[i]) || n in done
        decreases keys
      {
        var n :| n in keys;
        if n !in names {
          names := names + [n];
        }
        keys := keys - {n};
        done := done + {n};
      }
    }
  }

  // ---------------------------------------------------------------------
  // The ledger's own test vectors.
  // ---------------------------------------------------------------------

  /** Two `new_version` calls on a fresh ledger give latest version 3. */
  lemma TwoNewVersions()
    ensures LatestVersion(NewVersion(NewVersion(New()))) == 3
  {
  }

  /** Records at root version 1 are visible at root version 1. */
  lemma RootOneRecords()
    ensures var vm := SetTypeVersion(SetTypeVersion(SetTypeVersion(New(),
              "MyType", 1), "MySecondType", 2), "MyThirdType", 3);
      && GetTypeVersion(vm, 1, "MyType") == 1
      && GetTypeVersion(vm, 1, "MySecondType") == 2
      && GetTypeVersion(vm, 1, "MyThirdType") == 3
  {
    var vm := SetTypeVersion(SetTypeVersion(SetTypeVersion(New(),
              "MyType", 1), "MySecondType", 2), "MyThirdType", 3);
    LookupOwnRecord(vm, 1, "MyType");
    LookupOwnRecord(vm, 1, "MySecondType");
    LookupOwnRecord(vm, 1, "MyThirdType");
  }

  /** The ledger after `n` rounds of "set i, i + 1, i + 2 at root i, then bump". */
  function Rounds(n: nat): (vm: VersionMap)
    requires n + 2 < 0x1_0000
    ensures Valid(vm) && |vm.versions| == n + 1
  {
    if n == 0 then New()
    else
      NewVersion(SetTypeVersion(SetTypeVersion(SetTypeVersion(Rounds(n - 1),
        "MyType", n), "MySecondType", n + 1), "MyThirdType", n + 2))
  }

  lemma {:induction false} RoundsContent(n: nat, i: nat)
    requires n + 2 < 0x1_0000
    requires 1 <= i <= n
    ensures var m := Rounds(n).versions[i - 1];
      && "MyType" in m && m["MyType"] == i
      && "MySecondType" in m && m["MySecondType"] == i + 1
      && "MyThirdType" in m && m["MyThirdType"] == i + 2
  {
    var prev := Rounds(n - 1);
    var a1 := SetTypeVersion(prev, "MyType", n);
    var a2 := SetTypeVersion(a1, "MySecondType", n + 1);
    var a3 := SetTypeVersion(a2, "MyThirdType", n + 2);
    assert Rounds(n) == NewVersion(a3);
    assert Rounds(n).versions[i - 1] == a3.versions[i - 1];
    if i < n {
      RoundsContent(n - 1, i);
      assert a3.versions[i - 1] == a2.versions[i - 1] == a1.versions[i - 1] == prev.versions[i - 1];
    } else {
      assert a3.versions[i - 1] == Latest(a3);
    }
  }

  /** After the rounds, root version `i` maps the three types to `i`, `i + 1`, `i + 2`. */
  lemma RoundsLookup(n: nat, i: u16)
    requires n + 2 < 0x1_0000
    requires 1 <= i <= n
    ensures GetTypeVersion(Rounds(n), i, "MyType") == i
    ensures GetTypeVersion(Rounds(n), i, "MySecondType") == i + 1
    ensures GetTypeVersion(Rounds(n), i, "MyThirdType") == i + 2
  {
    RoundsContent(n, i);
    LookupOwnRecord(Rounds(n), i, "MyType");
    LookupOwnRecord(Rounds(n), i, "MySecondType");
    LookupOwnRecord(Rounds(n), i, "MyThirdType");
  }

  /** The ledger with gaps: each type is bumped at a different root version. */
  function GapLedger(): VersionMap {
    var a := SetTypeVersion(SetTypeVersion(SetTypeVersion(New(),
      "MyType", 1), "MySecondType", 1), "MyThirdType", 1);
    var b := SetTypeVersion(NewVersion(a), "MyType", 2);
    var c := SetTypeVersion(NewVersion(b), "MyThirdType", 2);
    SetTypeVersion(NewVersion(c), "MySecondType", 2)
  }

  /** The gap ledger's root versions, as the test builds them. */
  lemma GapLedgerShape()
    ensures GapLedger().versions == [map["MyType" := 1, "MySecondType" := 1, "MyThirdType" := 1],
                                     map["MyType" := 2], map["MyThirdType" := 2], map["MySecondType" := 2]]
  {
    var a := SetTypeVersion(SetTypeVersion(SetTypeVersion(New(),
      "MyType", 1), "MySecondType", 1), "MyThirdType", 1);
    assert a.versions == [map["MyType" := 1, "MySecondType" := 1, "MyThirdType" := 1]];
  }

  /** A type not recorded at a root version keeps its last recorded version. */
  lemma GapLookups()
    ensures GetTypeVersion(GapLedger(), 1, "MyType") == 1
    ensures GetTypeVersion(GapLedger(), 1, "MySecondType") == 1
    ensures GetTypeVersion(GapLedger(), 1, "MyThirdType") == 1
    ensures GetTypeVersion(GapLedger(), 2, "MyType") == 2
    ensures GetTypeVersion(GapLedger(), 2, "MySecondType") == 1
    ensures GetTypeVersion(GapLedger(), 2, "MyThirdType") == 1
    ensures GetTypeVersion(GapLedger(), 3, "MyThirdType") == 2
    ensures GetTypeVersion(GapLedger(), 3, "MySecondType") == 1
    ensures GetTypeVersion(GapLedger(), 3, "MyType") == 2
    ensures GetTypeVersion(GapLedger(), 4, "MyType") == 2
    ensures GetTypeVersion(GapLedger(), 4, "MySecondType") == 2
    ensures GetTypeVersion(GapLedger(), 4, "MyThirdType") == 2
  {
    var vm := GapLedger();
    GapLedgerShape();
    LookupOwnRecord(vm, 1, "MyType");
    LookupOwnRecord(vm, 1, "MySecondType");
    LookupOwnRecord(vm, 1, "MyThirdType");
    LookupInherits(vm, 2, "MyThirdType");
    LookupInherits(vm, 2, "MySecondType");
    LookupInherits(vm, 3, "MySecondType");
    LookupOwnRecord(vm, 2, "MyType");
    LookupInherits(vm, 3, "MyType");
    LookupInherits(vm, 4, "MyType");
    LookupOwnRecord(vm, 4, "MySecondType");
    LookupOwnRecord(vm, 3, "MyThirdType");
    LookupInherits(vm, 4, "MyThirdType");
  }
}
