/** The diff engine: what was added, removed and changed between a reference
    mapping and a new one, for flat mappings (packages, kernel configuration)
    and for the two-level PACKAGECONFIG mapping (package -> feature -> value). */
module Diff {

  /** A changed entry: `{"from": ref[k], "to": new[k]}`. */
  datatype Change<V> = Change(from: V, to: V)

  /** The `(added, removed, changed)` triple of `compare_dicts`. */
  datatype FlatDiff<V> = FlatDiff(added: map<string, V>, removed: map<string, V>, changed: map<string, Change<V>>)

  /** The triple of `compare_packageconfig`: added and removed packages carry
      their whole feature map, a changed package its feature-level diff. */
  datatype NestedDiff<V> = NestedDiff(
    added: map<string, map<string, V>>,
    removed: map<string, map<string, V>>,
    changed: map<string, FlatDiff<V>>)

  predicate IsEmpty<V(==)>(d: FlatDiff<V>) {
    d.added == map[] && d.removed == map[] && d.changed == map[]
  }

  /** The keys on which `ref` and `newer` disagree: present on one side only,
      or present on both with different values. */
  ghost function DisagreeingKeys<V>(ref: map<string, V>, newer: map<string, V>): set<string> {
    set k | k in ref.Keys + newer.Keys && !(k in ref && k in newer && ref[k] == newer[k])
  }

  /** `compare_dicts`. */
  function CompareDicts<V(==)>(ref: map<string, V>, newer: map<string, V>): (d: FlatDiff<V>)
    ensures d.added.Keys !! d.removed.Keys && d.added.Keys !! d.changed.Keys
      && d.removed.Keys !! d.changed.Keys
    ensures d.added.Keys + d.removed.Keys + d.changed.Keys == DisagreeingKeys(ref, newer)
    ensures forall k :: k in d.added ==> k !in ref && d.added[k] == newer[k]
    ensures forall k :: k in d.removed ==> k !in newer && d.removed[k] == ref[k]
    ensures forall k :: k in d.changed ==> k in ref && k in newer && d.changed[k] == Change(ref[k], newer[k]) && ref[k] != newer[k]
  {
    FlatDiff(
      map k | k in newer && k !in ref :: newer[k],
      map k | k in ref && k !in newer :: ref[k],
      map k | k in ref && k in newer && ref[k] != newer[k] :: Change(ref[k], newer[k]))
  }

  // ---------------------------------------------------------------------------
  // Laws of the flat diff

  /** The diff is empty exactly when the two mappings are equal; in particular
      `compare_dicts(A, A)` is empty. */
  lemma EmptyIffEqual<V>(ref: map<string, V>, newer: map<string, V>)
    ensures IsEmpty(CompareDicts(ref, newer)) <==> ref == newer
  {
    var d := CompareDicts(ref, newer);
    if IsEmpty(d) {
      forall k | k in ref.Keys + newer.Keys
        ensures k in ref && k in newer && ref[k] == newer[k]
      {
        assert k !in d.added.Keys + d.removed.Keys + d.changed.Keys;
      }
      assert ref.Keys == newer.Keys;
    }
  }

  /** Mappings with disjoint keys: everything newer is added, everything old removed. */
  lemma DisjointKeys<V>(ref: map<string, V>, newer: map<string, V>)
    requires ref.Keys !! newer.Keys
    ensures CompareDicts(ref, newer) == FlatDiff(newer, ref, map[])
  {
  }

  function Swap<V(==)>(c: map<string, Change<V>>): (r: map<string, Change<V>>)
    ensures r.Keys == c.Keys
    ensures forall k :: k in c ==> r[k] == Change(c[k].to, c[k].from)
  {
    map k | k in c :: Change(c[k].to, c[k].from)
  }

  /** Swapping the arguments swaps added and removed and turns every change around. */
  lemma Antisymmetric<V>(a: map<string, V>, b: map<string, V>)
    ensures CompareDicts(b, a) == FlatDiff(CompareDicts(a, b).removed, CompareDicts(a, b).added, Swap(CompareDicts(a, b).changed))
  {
  }

  /** Applies a diff to the reference: drop the removed keys, add the added
      entries, set every changed key to its newer value. */
  function Apply<V(==)>(ref: map<string, V>, d: FlatDiff<V>): map<string, V> {
    (ref - d.removed.Keys) + d.added + (map k | k in d.changed :: d.changed[k].to)
  }

  /** Undoes a diff on the newer mapping. */
  function Revert<V(==)>(newer: map<string, V>, d: FlatDiff<V>): map<string, V> {
    (newer - d.added.Keys) + d.removed + (map k | k in d.changed :: d.changed[k].from)
  }

  /** The diff is a patch: applying it to the reference rebuilds the new mapping. */
  lemma PatchRoundTrip<V>(ref: map<string, V>, newer: map<string, V>)
    ensures Apply(ref, CompareDicts(ref, newer)) == newer
  {
    var d := CompareDicts(ref, newer);
    var a := Apply(ref, d);
    forall k | k in newer
      ensures k in a && a[k] == newer[k]
    {
      if k !in d.added && k !in d.changed {
        assert k !in DisagreeingKeys(ref, newer);
      }
    }
    assert a.Keys == newer.Keys;
  }

  /** Reverting the diff on the new mapping rebuilds the reference. */
  lemma RevertRoundTrip<V>(ref: map<string, V>, newer: map<string, V>)
    ensures Revert(newer, CompareDicts(ref, newer)) == ref
  {
    var d := CompareDicts(ref, newer);
    var r := Revert(newer, d);
    forall k | k in ref
      ensures k in r && r[k] == ref[k]
    {
      if k !in d.removed && k !in d.changed {
        assert k !in DisagreeingKeys(ref, newer);
      }
    }
    assert r.Keys == ref.Keys;
  }

  // ---------------------------------------------------------------------------
  // The PACKAGECONFIG diff

  /** The feature-level diff of the packages present on both sides, kept only
      where it is not empty. */
  function ChangedPackages<V(==)>(ref: map<string, map<string, V>>, newer: map<string, map<string, V>>, done: set<string>): (c: map<string, FlatDiff<V>>)
  {
    map p | p in done && p in ref && p in newer && !IsEmpty(CompareDicts(ref[p], newer[p]))
      :: CompareDicts(ref[p], newer[p])
  }

  /** A map with the keys and values of `ChangedPackages` is that map. */
  lemma ChangedPackagesExt<V>(ref: map<string, map<string, V>>, newer: map<string, map<string, V>>, done: set<string>, c: map<string, FlatDiff<V>>)
    requires forall p :: p in c <==> p in done && p in ref && p in newer && !IsEmpty(CompareDicts(ref[p], newer[p]))
    requires forall p :: p in c ==> c[p] == CompareDicts(ref[p], newer[p])
    ensures c == ChangedPackages(ref, newer, done)
  {
  }

  /** What `compare_packageconfig` computes. */
  function PackageConfigDiff<V(==)>(ref: map<string, map<string, V>>, newer: map<string, map<string, V>>): (d: NestedDiff<V>)
    ensures d.added == CompareDicts(ref, newer).added && d.removed == CompareDicts(ref, newer).removed
    ensures forall p :: p in d.changed <==> p in ref && p in newer && !IsEmpty(CompareDicts(ref[p], newer[p]))
    ensures forall p :: p in d.changed ==> d.changed[p] == CompareDicts(ref[p], newer[p])
  {
    NestedDiff(
      map k | k in newer && k !in ref :: newer[k],
      map k | k in ref && k !in newer :: ref[k],
      ChangedPackages(ref, newer, ref.Keys))
  }

  /** `compare_packageconfig`: added and removed packages by comprehension,
      then a loop over the reference packages that records every package
      present on both sides whose features differ. */
  method ComparePackageConfig<V(==)>(ref: map<string, map<string, V>>, newer: map<string, map<string, V>>) returns (d: NestedDiff<V>)
    ensures d == PackageConfigDiff(ref, newer)
  {
    var addedPkgs := map k | k in newer && k !in ref :: newer[k];
    var removedPkgs := map k | k in ref && k !in newer :: ref[k];
    var changedPkgs: map<string, FlatDiff<V>> := map[];
    var todo := ref.Keys;
    while todo != {}
      invariant todo <= ref.Keys
      invariant forall p :: p in changedPkgs <==>
        p in ref && p !in todo && p in newer && !IsEmpty(CompareDicts(ref[p], newer[p]))
      invariant forall p :: p in changedPkgs ==> changedPkgs[p] == CompareDicts(ref[p], newer[p])
      decreases todo
    {
      var pkg :| pkg in todo;
      if pkg in newer {
        var features := CompareDicts(ref[pkg], newer[pkg]);
        if !IsEmpty(features) {
          changedPkgs := changedPkgs[pkg := features];
        }
      }
      todo := todo - {pkg};
    }
    ChangedPackagesExt(ref, newer, ref.Keys, changedPkgs);
    d := NestedDiff(addedPkgs, removedPkgs, changedPkgs);
  }

  // ---------------------------------------------------------------------------
  // Laws of the PACKAGECONFIG diff

  /** A package is reported as changed exactly when it is on both sides with
      different feature maps, i.e. exactly where the flat diff of the outer
      mappings reports a change. */
  lemma ChangedPackagesAreFlatChanges<V>(ref: map<string, map<string, V>>, newer: map<string, map<string, V>>)
    ensures PackageConfigDiff(ref, newer).changed.Keys == CompareDicts(ref, newer).changed.Keys
  {
    forall p | p in ref && p in newer
      ensures IsEmpty(CompareDicts(ref[p], newer[p])) <==> ref[p] == newer[p]
    {
      EmptyIffEqual(ref[p], newer[p]);
    }
  }

  predicate IsEmptyNested<V(==)>(d: NestedDiff<V>) {
    d.added == map[] && d.removed == map[] && d.changed == map[]
  }

  /** The PACKAGECONFIG diff is empty exactly when the two mappings are equal. */
  lemma NestedEmptyIffEqual<V>(ref: map<string, map<string, V>>, newer: map<string, map<string, V>>)
    ensures IsEmptyNested(PackageConfigDiff(ref, newer)) <==> ref == newer
  {
    var d := PackageConfigDiff(ref, newer);
    ChangedPackagesAreFlatChanges(ref, newer);
    EmptyIffEqual(ref, newer);
    if IsEmptyNested(d) {
      assert CompareDicts(ref, newer).changed.Keys == {};
      assert CompareDicts(ref, newer).changed == map[];
    }
  }

  /** Comparing a PACKAGECONFIG mapping with itself reports nothing. */
  lemma NestedSelfDiffEmpty<V>(m: map<string, map<string, V>>)
    ensures PackageConfigDiff(m, m) == NestedDiff(map[], map[], map[])
  {
    ChangedPackagesAreFlatChanges(m, m);
    EmptyIffEqual(m, m);
  }

  /** Applies a nested diff: drop removed packages, add added ones, and patch
      the feature map of every changed package. */
  function ApplyNested<V(==)>(ref: map<string, map<string, V>>, d: NestedDiff<V>): map<string, map<string, V>> {
    map p | p in (ref.Keys - d.removed.Keys) + d.added.Keys ::
      if p in d.added then d.added[p]
      else if p in d.changed then Apply(ref[p], d.changed[p])
      else ref[p]
  }

  /** The nested diff is a patch too: applying it to the reference rebuilds
      the new mapping. */
  lemma NestedPatchRoundTrip<V>(ref: map<string, map<string, V>>, newer: map<string, map<string, V>>)
    ensures ApplyNested(ref, PackageConfigDiff(ref, newer)) == newer
  {
    var a := ApplyNested(ref, PackageConfigDiff(ref, newer));
    forall p | p in newer
      ensures p in a && a[p] == newer[p]
    {
      NestedPatchAt(ref, newer, p);
    }
    NestedPatchKeys(ref, newer);
  }

  lemma NestedPatchKeys<V>(ref: map<string, map<string, V>>, newer: map<string, map<string, V>>)
    ensures ApplyNested(ref, PackageConfigDiff(ref, newer)).Keys == newer.Keys
  {
    var d := PackageConfigDiff(ref, newer);
    var a := ApplyNested(ref, d);
    forall p | p in newer
      ensures p in a
    {
      if p !in ref {
        assert p in d.added;
      } else {
        assert p !in d.removed;
      }
    }
    forall p | p in a
      ensures p in newer
    {
      if p !in d.added && p !in d.changed {
        assert p in ref && p !in d.removed;
      }
    }
  }

  lemma NestedPatchAt<V>(ref: map<string, map<string, V>>, newer: map<string, map<string, V>>, p: string)
    requires p in newer
    ensures p in ApplyNested(ref, PackageConfigDiff(ref, newer))
    ensures ApplyNested(ref, PackageConfigDiff(ref, newer))[p] == newer[p]
  {
    var d := PackageConfigDiff(ref, newer);
    if p !in ref {
      assert p in d.added;
    } else if p in d.changed {
      NestedPatchChanged(ref, newer, d, p);
    } else {
      EmptyIffEqual(ref[p], newer[p]);
      assert ref[p] == newer[p];
    }
  }

  lemma NestedPatchChanged<V>(ref: map<string, map<string, V>>, newer: map<string, map<string, V>>, d: NestedDiff<V>, p: string)
    requires d == PackageConfigDiff(ref, newer)
    requires p in ref && p in newer && p in d.changed
    ensures p in ApplyNested(ref, d) && ApplyNested(ref, d)[p] == newer[p]
  {
    assert d.changed[p] == CompareDicts(ref[p], newer[p]);
    PatchRoundTrip(ref[p], newer[p]);
  }

  /** Swapping the arguments swaps added and removed packages, and the
      feature-level diff of each changed package is the swapped one. */
  lemma NestedAntisymmetric<V>(a: map<string, map<string, V>>, b: map<string, map<string, V>>)
    ensures PackageConfigDiff(b, a).added == PackageConfigDiff(a, b).removed
    ensures PackageConfigDiff(b, a).removed == PackageConfigDiff(a, b).added
    ensures PackageConfigDiff(b, a).changed.Keys == PackageConfigDiff(a, b).changed.Keys
    ensures forall p :: p in PackageConfigDiff(a, b).changed ==>
      var c := PackageConfigDiff(a, b).changed[p];
      PackageConfigDiff(b, a).changed[p] == FlatDiff(c.removed, c.added, Swap(c.changed))
  {
    ChangedPackagesAreFlatChanges(a, b);
    ChangedPackagesAreFlatChanges(b, a);
    forall p | p in PackageConfigDiff(a, b).changed
      ensures PackageConfigDiff(b, a).changed[p] == FlatDiff(PackageConfigDiff(a, b).changed[p].removed,
        PackageConfigDiff(a, b).changed[p].added, Swap(PackageConfigDiff(a, b).changed[p].changed))
    {
      Antisymmetric(a[p], b[p]);
    }
  }

  /** Undoes a nested diff on the new mapping: drop added packages, restore
      removed ones, and revert the feature map of every changed package. */
  function RevertNested<V(==)>(newer: map<string, map<string, V>>, d: NestedDiff<V>): map<string, map<string, V>> {
    map p | p in (newer.Keys - d.added.Keys) + d.removed.Keys ::
      if p in d.removed then d.removed[p]
      else if p in d.changed then Revert(newer[p], d.changed[p])
      else newer[p]
  }

  /** Reverting the nested diff on the new mapping rebuilds the reference. */
  lemma NestedRevertRoundTrip<V>(ref: map<string, map<string, V>>, newer: map<string, map<string, V>>)
    ensures RevertNested(newer, PackageConfigDiff(ref, newer)) == ref
  {
    var r := RevertNested(newer, PackageConfigDiff(ref, newer));
    forall p | p in ref
      ensures p in r && r[p] == ref[p]
    {
      NestedRevertAt(ref, newer, p);
    }
    NestedRevertKeys(ref, newer);
  }

  lemma NestedRevertKeys<V>(ref: map<string, map<string, V>>, newer: map<string, map<string, V>>)
    ensures RevertNested(newer, PackageConfigDiff(ref, newer)).Keys == ref.Keys
  {
    var d := PackageConfigDiff(ref, newer);
    var r := RevertNested(newer, d);
    forall p | p in ref
      ensures p in r
    {
      if p !in newer {
        assert p in d.removed;
      } else {
        assert p !in d.added;
      }
    }
    forall p | p in r
      ensures p in ref
    {
      if p !in d.removed && p !in d.changed {
        assert p in newer && p !in d.added;
      }
    }
  }

  lemma NestedRevertAt<V>(ref: map<string, map<string, V>>, newer: map<string, map<string, V>>, p: string)
    requires p in ref
    ensures p in RevertNested(newer, PackageConfigDiff(ref, newer))
    ensures RevertNested(newer, PackageConfigDiff(ref, newer))[p] == ref[p]
  {
    var d := PackageConfigDiff(ref, newer);
    if p !in newer {
      assert p in d.removed;
    } else if p in d.changed {
      NestedRevertChanged(ref, newer, d, p);
    } else {
      EmptyIffEqual(ref[p], newer[p]);
      assert ref[p] == newer[p];
    }
  }

  lemma NestedRevertChanged<V>(ref: map<string, map<string, V>>, newer: map<string, map<string, V>>, d: NestedDiff<V>, p: string)
    requires d == PackageConfigDiff(ref, newer)
    requires p in ref && p in newer && p in d.changed
    ensures p in RevertNested(newer, d) && RevertNested(newer, d)[p] == ref[p]
  {
    assert d.changed[p] == CompareDicts(ref[p], newer[p]);
    RevertRoundTrip(ref[p], newer[p]);
  }
}
