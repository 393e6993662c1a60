/**
 * The manifest reconciliation inside `run`: each manifest entry is matched
 * with the first `.desc` name sharing its base name, producing the mapping
 * from manifest position to descriptor position that the detector consumes.
 *
 * The scan is modelled as intended: `j` ranges over the descriptor names and
 * each name is cut at its own last dot. `ScanAsWritten` models the loop as
 * the source states it, for comparison.
 */
module Reconciler {
  import opened Outcomes
  import opened FileNames

  ghost predicate IsMatch(descNames: seq<string>, base: string, j: int)
  {
    0 <= j < |descNames| && BaseName(descNames[j]) == base
  }

  /** `j` matches `base` and no earlier descriptor name does. */
  ghost predicate IsFirstMatch(descNames: seq<string>, base: string, j: int)
  {
    IsMatch(descNames, base, j) && forall k :: 0 <= k < j ==> BaseName(descNames[k]) != base
  }

  ghost predicate Unmatched(descNames: seq<string>, base: string)
  {
    forall k :: 0 <= k < |descNames| ==> BaseName(descNames[k]) != base
  }

  /** Some descriptor name shares the base name of manifest entry `entry`. */
  predicate Resolved(descNames: seq<string>, entry: string)
  {
    FirstMatch(descNames, BaseName(entry)).Some?
  }

  /** `mapping[i]` is the first descriptor name with the base name of manifest entry `i`. */
  ghost predicate IsLeastMapping(manifest: seq<string>, descNames: seq<string>, mapping: seq<nat>)
  {
    |mapping| == |manifest|
    && forall i :: 0 <= i < |manifest| ==> IsFirstMatch(descNames, BaseName(manifest[i]), mapping[i])
  }

  function FirstMatchFrom(descNames: seq<string>, base: string, j: nat): (r: Option<nat>)
    requires j <= |descNames|
    ensures r.Some? ==> j <= r.value && IsMatch(descNames, base, r.value)
    ensures r.Some? ==> forall k :: j <= k < r.value ==> BaseName(descNames[k]) != base
    ensures r.None? ==> forall k :: j <= k < |descNames| ==> BaseName(descNames[k]) != base
    decreases |descNames| - j
  {
    if j == |descNames| then None
    else if BaseName(descNames[j]) == base then Some(j)
    else FirstMatchFrom(descNames, base, j + 1)
  }

  /**
   * The inner scan, bounded by the number of descriptor names and stopping
   * at the first name whose own base name equals `base`.
   */
  function FirstMatch(descNames: seq<string>, base: string): (r: Option<nat>)
    ensures r.Some? ==> IsFirstMatch(descNames, base, r.value)
    ensures r.None? <==> Unmatched(descNames, base)
  {
    FirstMatchFrom(descNames, base, 0)
  }

  /**
   * The outer loop over the manifest: the mapping when every entry resolves,
   * otherwise the position of the first entry without a descriptor (where the
   * source returns).
   */
  function BuildMapping(manifest: seq<string>, descNames: seq<string>): (r: Result<seq<nat>, nat>)
    ensures r.Ok? ==> IsLeastMapping(manifest, descNames, r.value)
    ensures r.Err? ==> r.error < |manifest| && !Resolved(descNames, manifest[r.error])
    ensures r.Err? ==> forall i :: 0 <= i < r.error ==> Resolved(descNames, manifest[i])
    ensures r.Ok? <==> forall i :: 0 <= i < |manifest| ==> Resolved(descNames, manifest[i])
  {
    if |manifest| == 0 then Ok([])
    else
      var init, last := manifest[..|manifest| - 1], manifest[|manifest| - 1];
      assert manifest == init + [last];
      var rec := BuildMapping(init, descNames);
      if rec.Err? then rec
      else
        var found := FirstMatch(descNames, BaseName(last));
        if found.None? then Err(|manifest| - 1)
        else
          ExtendLeastMapping(init, last, descNames, rec.value, found.value);
          Ok(rec.value + [found.value])
  }

  lemma ExtendLeastMapping(init: seq<string>, last: string, descNames: seq<string>, m: seq<nat>, j: nat)
    requires IsLeastMapping(init, descNames, m)
    requires IsFirstMatch(descNames, BaseName(last), j)
    ensures IsLeastMapping(init + [last], descNames, m + [j])
  {
    var manifest, m' := init + [last], m + [j];
    forall i | 0 <= i < |manifest|
      ensures IsFirstMatch(descNames, BaseName(manifest[i]), m'[i])
    {
      if i < |init| {
        assert manifest[i] == init[i] && m'[i] == m[i];
      }
    }
  }

  /** At most one mapping satisfies the first-match contract. */
  lemma LeastMappingUnique(manifest: seq<string>, descNames: seq<string>, m1: seq<nat>, m2: seq<nat>)
    requires IsLeastMapping(manifest, descNames, m1)
    requires IsLeastMapping(manifest, descNames, m2)
    ensures m1 == m2
  {
  }

  /** Two manifest entries share a descriptor only when they share a base name. */
  lemma MappingInjective(manifest: seq<string>, descNames: seq<string>, m: seq<nat>)
    requires IsLeastMapping(manifest, descNames, m)
    requires forall i, k :: 0 <= i < k < |manifest| ==> BaseName(manifest[i]) != BaseName(manifest[k])
    ensures forall i, k :: 0 <= i < k < |m| ==> m[i] != m[k]
  {
    forall i, k | 0 <= i < k < |m|
      ensures m[i] != m[k]
    {
      assert BaseName(descNames[m[i]]) == BaseName(manifest[i]);
      assert BaseName(descNames[m[k]]) == BaseName(manifest[k]);
    }
  }

  lemma ScenarioBaseNames()
    ensures BaseName("img001.jpg") == "img001" && BaseName("img002.jpg") == "img002"
    ensures BaseName("img001.desc") == "img001" && BaseName("img002.desc") == "img002"
  {
    assert "img001.jpg" == "img001" + [Dot] + "jpg";
    assert "img002.jpg" == "img002" + [Dot] + "jpg";
    assert "img001.desc" == "img001" + [Dot] + "desc";
    assert "img002.desc" == "img002" + [Dot] + "desc";
    BaseNameOfJoin("img001", "jpg");
    BaseNameOfJoin("img002", "jpg");
    BaseNameOfJoin("img001", "desc");
    BaseNameOfJoin("img002", "desc");
  }

  lemma FirstImageMapped()
    ensures BuildMapping(["img001.jpg"], ["img001.desc", "img002.desc"]) == Ok([0])
  {
    var first, descNames := ["img001.jpg"], ["img001.desc", "img002.desc"];
    ScenarioBaseNames();
    assert first[..|first| - 1] == [];
    assert FirstMatch(descNames, BaseName(first[0])) == Some(0);
    assert [] + [0] == [0];
  }

  /** Two images listed with their descriptors in the same order map to [0, 1]. */
  lemma TwoImageScenario()
    ensures BuildMapping(["img001.jpg", "img002.jpg"], ["img001.desc", "img002.desc"]) == Ok([0, 1])
  {
    var manifest, descNames := ["img001.jpg", "img002.jpg"], ["img001.desc", "img002.desc"];
    FirstImageMapped();
    ScenarioBaseNames();
    assert "img001" != "img002";
    assert FirstMatch(descNames, BaseName(manifest[1])) == Some(1) by {
      assert FirstMatchFrom(descNames, "img002", 1) == Some(1);
    }
    assert manifest[..|manifest| - 1] == ["img001.jpg"];
    assert [0] + [1] == [0, 1];
  }

  /** Outcome of the inner loop as written. */
  datatype Scan = Hit(index: nat) | ReadsPastEnd(index: nat)

  /**
   * The inner loop as the source states it, for manifest entry `i` with base
   * name `base`. The condition `j < originNames.size(), !found` keeps only
   * `!found`, so the loop runs until a hit; and every candidate
   * `descNames[j]` is cut at the last dot of `descNames[i]`. Reading
   * `descNames[i]` or `descNames[j]` outside the vector is undefined
   * behaviour, reported as `ReadsPastEnd` with the offending index.
   */
  function ScanAsWritten(descNames: seq<string>, base: string, i: nat, j: nat): (r: Scan)
    ensures r.Hit? ==> i < |descNames| && j <= r.index < |descNames|
    ensures r.Hit? ==> CutAt(descNames[r.index], FindLastOf(descNames[i], Dot)) == base
    ensures i < |descNames| ==>
      forall k :: j <= k < |descNames| && (r.ReadsPastEnd? || k < r.index) ==>
        CutAt(descNames[k], FindLastOf(descNames[i], Dot)) != base
    ensures r.ReadsPastEnd? ==>
      r.index == (if i >= |descNames| then i else if j >= |descNames| then j else |descNames|)
    decreases |descNames| - j
  {
    if i >= |descNames| then ReadsPastEnd(i)
    else if j >= |descNames| then ReadsPastEnd(j)
    else if CutAt(descNames[j], FindLastOf(descNames[i], Dot)) == base then Hit(j)
    else ScanAsWritten(descNames, base, i, j + 1)
  }

  /**
   * Whenever no candidate matches under the as-written cut, the unbounded
   * scan reads one element past the end of `descNames` instead of stopping.
   */
  lemma {:induction false} ScanOverrunsWithoutMatch(descNames: seq<string>, base: string, i: nat, j: nat)
    requires i < |descNames| && j <= |descNames|
    requires forall k :: j <= k < |descNames| ==> CutAt(descNames[k], FindLastOf(descNames[i], Dot)) != base
    ensures ScanAsWritten(descNames, base, i, j) == ReadsPastEnd(|descNames|)
    decreases |descNames| - j
  {
    if j < |descNames| {
      ScanOverrunsWithoutMatch(descNames, base, i, j + 1);
    }
  }

  /**
   * Manifest ["x.jpg"] against descriptors ["y.desc"]: the bounded scan
   * reports the entry as unresolved, the as-written scan reads `descNames[1]`.
   */
  lemma UnboundedScanExample()
    ensures FirstMatch(["y.desc"], "x") == None
    ensures ScanAsWritten(["y.desc"], "x", 0, 0) == ReadsPastEnd(1)
  {
    var descNames := ["y.desc"];
    assert descNames[0] == "y" + [Dot] + "desc";
    BaseNameOfJoin("y", "desc");
    assert FindLastOf(descNames[0], Dot) == Some(1);
    ScanOverrunsWithoutMatch(descNames, "x", 0, 0);
  }

  /**
   * Descriptors ["ab.desc", "a.desc"] and manifest entry 1 "a.jpg": cutting
   * "ab.desc" at the dot position of "a.desc" gives "a", so the as-written
   * scan maps the entry to "ab.desc", whose base name is "ab"; the intended
   * scan maps it to "a.desc".
   */
  lemma OuterIndexCutExample()
    ensures ScanAsWritten(["ab.desc", "a.desc"], "a", 1, 0) == Hit(0)
    ensures BaseName("ab.desc") == "ab"
    ensures FirstMatch(["ab.desc", "a.desc"], "a") == Some(1)
  {
    var descNames := ["ab.desc", "a.desc"];
    assert descNames[0] == "ab" + [Dot] + "desc";
    assert descNames[1] == "a" + [Dot] + "desc";
    BaseNameOfJoin("ab", "desc");
    BaseNameOfJoin("a", "desc");
    assert FindLastOf(descNames[1], Dot) == Some(1);
    assert CutAt(descNames[0], Some(1)) == "a";
  }
}
