/**
 * What struct fields and enum variants share in the derive: a version range
 * `[start, end)` in the type's own local version space (an end of 0 meaning
 * "never removed"), the descriptor version computed from those ranges, and
 * the outcome of generating code, which either produces code or aborts the
 * derive at build time.
 */
module Descriptor {
  import opened Common

  /** The result of running the derive: generated code, or a build-time rejection. */
  datatype Derived<T> = Generated(value: T) | Rejected(reason: string)

  /** The `#[version(...)]` annotation of a field or variant; each part may be missing. */
  datatype FieldAttrs = FieldAttrs(
    start: Option<u16>,
    end: Option<u16>,
    defaultFn: Option<string>,
    semanticSerFn: Option<string>,
    semanticDeFn: Option<string>)

  const NO_ATTRS: FieldAttrs := FieldAttrs(None, None, None, None, None)

  /**
   * `exists_at`: the member is present from its start version up to, not
   * including, a nonzero end version.
   */
  predicate ExistsAt(start: u16, end: u16, v: u16) {
    start <= v && (end == 0 || v < end)
  }

  function Max(a: u16, b: u16): u16 {
    if a < b then b else a
  }

  /** `compute_version`: the largest start or end boundary among the members, 0 for none. */
  function ComputeVersion(bounds: seq<(u16, u16)>): (r: u16)
    ensures forall i :: 0 <= i < |bounds| ==> bounds[i].0 <= r && bounds[i].1 <= r
    ensures |bounds| == 0 ==> r == 0
    ensures |bounds| > 0 ==> exists i :: 0 <= i < |bounds| && (r == bounds[i].0 || r == bounds[i].1)
  {
    if |bounds| == 0 then 0
    else
      var tail := ComputeVersion(bounds[1..]);
      assert forall i :: 1 <= i < |bounds| ==> bounds[i] == bounds[1..][i - 1];
      Max(Max(bounds[0].0, bounds[0].1), tail)
  }

  /**
   * At the descriptor's own version every never-removed member is present,
   * and every removed member is gone.
   */
  lemma PresenceAtDescriptorVersion(bounds: seq<(u16, u16)>, i: nat)
    requires i < |bounds|
    ensures bounds[i].1 == 0 ==> ExistsAt(bounds[i].0, bounds[i].1, ComputeVersion(bounds))
    ensures bounds[i].1 != 0 ==> !ExistsAt(bounds[i].0, bounds[i].1, ComputeVersion(bounds))
  {
  }
}
