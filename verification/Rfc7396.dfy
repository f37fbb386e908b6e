/** JSON Merge Patch (RFC 7396) on documents whose objects are maps from names to values. */
module Rfc7396 {
  import opened JsonTree

  ghost function At(m: map<string, Doc>, k: string): Option<Doc> {
    if k in m then Some(m[k]) else None
  }

  ghost function MembersOf(d: Option<Doc>): map<string, Doc> {
    if d.Some? && d.value.DObject? then d.value.members else map[]
  }

  /** The MergePatch function of section 2 of RFC 7396; None is an undefined target. */
  ghost function MergePatch(target: Option<Doc>, patch: Doc): Doc
    decreases patch
  {
    if !patch.DObject? then patch
    else
      var t, p := MembersOf(target), patch.members;
      DObject(map k | k in t.Keys + p.Keys && !(k in p && p[k] == DNull) ::
        if k in p then MergePatch(At(t, k), p[k]) else t[k])
  }

  /** The member map that MergePatch builds for an object patch. */
  ghost function MergeMaps(t: map<string, Doc>, p: map<string, Doc>): map<string, Doc> {
    MergePatch(Some(DObject(t)), DObject(p)).members
  }

  lemma MergeMapsAt(t: map<string, Doc>, p: map<string, Doc>, k: string)
    ensures k in MergeMaps(t, p) <==> k in t.Keys + p.Keys && !(k in p && p[k] == DNull)
    ensures k in MergeMaps(t, p) ==> MergeMaps(t, p)[k] == if k in p then MergePatch(At(t, k), p[k]) else t[k]
  {
  }

  /** The loop of section 2, one null-valued name: the name is removed. */
  lemma RemoveStep(t: map<string, Doc>, p: map<string, Doc>, k: string)
    requires k !in p
    ensures MergeMaps(t, p[k := DNull]) == MergeMaps(t - {k}, p)
  {
    var a, b := MergeMaps(t, p[k := DNull]), MergeMaps(t - {k}, p);
    forall j ensures j in a <==> j in b ensures j in a ==> a[j] == b[j] {
      MergeMapsAt(t, p[k := DNull], j);
      MergeMapsAt(t - {k}, p, j);
    }
  }

  /** The loop of section 2, one other name: its value is merged into the target's. */
  lemma PutStep(t: map<string, Doc>, p: map<string, Doc>, k: string, v: Doc)
    requires k !in p && v != DNull
    ensures MergeMaps(t, p[k := v]) == MergeMaps(t[k := MergePatch(At(t, k), v)], p)
  {
    var t' := t[k := MergePatch(At(t, k), v)];
    var a, b := MergeMaps(t, p[k := v]), MergeMaps(t', p);
    forall j ensures j in a <==> j in b ensures j in a ==> a[j] == b[j] {
      MergeMapsAt(t, p[k := v], j);
      MergeMapsAt(t', p, j);
      assert j != k ==> At(t, j) == At(t', j);
    }
  }

  lemma EmptyStep(t: map<string, Doc>)
    ensures MergeMaps(t, map[]) == t
  {
    forall j ensures j in MergeMaps(t, map[]) <==> j in t ensures j in t ==> MergeMaps(t, map[])[j] == t[j] {
      MergeMapsAt(t, map[], j);
    }
  }

  /** Merging a patch a second time changes nothing. */
  lemma {:induction false} MergeIdempotent(target: Option<Doc>, patch: Doc)
    ensures MergePatch(Some(MergePatch(target, patch)), patch) == MergePatch(target, patch)
    decreases patch
  {
    if patch.DObject? {
      var t, p := MembersOf(target), patch.members;
      var once := MergeMaps(t, p);
      assert MergePatch(target, patch) == DObject(once);
      forall k ensures k in MergeMaps(once, p) <==> k in once
               ensures k in once ==> MergeMaps(once, p)[k] == once[k] {
        MergeMapsAt(t, p, k);
        MergeMapsAt(once, p, k);
        if k in p {
          MergeIdempotent(At(t, k), p[k]);
        }
      }
      assert MergeMaps(once, p) == once;
    }
  }

  // ---- generating a merge patch ----

  /** The smallest merge patch from a to b: removed names null, added and changed ones only. */
  ghost function DiffPatch(a: Doc, b: Doc): Doc {
    if !a.DObject? || !b.DObject? then b
    else
      var f, t := a.members, b.members;
      DObject(map k | k in f.Keys + t.Keys && At(f, k) != At(t, k) ::
        if k !in t then DNull else if k !in f then t[k] else DiffPatch(f[k], t[k]))
  }

  ghost function DiffMaps(f: map<string, Doc>, t: map<string, Doc>): map<string, Doc> {
    DiffPatch(DObject(f), DObject(t)).members
  }

  lemma DiffMapsAt(f: map<string, Doc>, t: map<string, Doc>, k: string)
    ensures k in DiffMaps(f, t) <==> At(f, k) != At(t, k)
    ensures k in DiffMaps(f, t) ==>
      DiffMaps(f, t)[k] == if k !in t then DNull else if k !in f then t[k] else DiffPatch(f[k], t[k])
  {
  }

  /** The patch is empty exactly when nothing differs. */
  lemma DiffEmpty(f: map<string, Doc>, t: map<string, Doc>)
    ensures DiffMaps(f, t) == map[] <==> f == t
  {
    if DiffMaps(f, t) == map[] {
      forall k ensures k in f <==> k in t ensures k in f ==> f[k] == t[k] {
        DiffMapsAt(f, t, k);
      }
    }
  }

  lemma MapsAgree(a: map<string, Doc>, b: map<string, Doc>)
    requires forall k :: At(a, k) == At(b, k)
    ensures a == b
  {
    forall k ensures k in a <==> k in b ensures k in a ==> a[k] == b[k] {
      assert At(a, k) == At(b, k);
    }
  }

  lemma DiffRemove(f: map<string, Doc>, t: map<string, Doc>, k: string, v: Doc)
    requires k !in f && k !in t
    ensures DiffMaps(f[k := v], t) == DiffMaps(f, t)[k := DNull]
  {
    var a, b := DiffMaps(f[k := v], t), DiffMaps(f, t)[k := DNull];
    forall j ensures At(a, j) == At(b, j) {
      DiffMapsAt(f[k := v], t, j);
      DiffMapsAt(f, t, j);
      assert j != k ==> At(f[k := v], j) == At(f, j);
    }
    MapsAgree(a, b);
  }

  lemma DiffAdd(f: map<string, Doc>, t: map<string, Doc>, k: string, w: Doc)
    requires k !in f && k !in t
    ensures DiffMaps(f, t[k := w]) == DiffMaps(f, t)[k := w]
  {
    var a, b := DiffMaps(f, t[k := w]), DiffMaps(f, t)[k := w];
    forall j ensures At(a, j) == At(b, j) {
      DiffMapsAt(f, t[k := w], j);
      DiffMapsAt(f, t, j);
      assert j != k ==> At(t[k := w], j) == At(t, j);
    }
    MapsAgree(a, b);
  }

  lemma DiffSame(f: map<string, Doc>, t: map<string, Doc>, k: string, v: Doc)
    requires k !in f && k !in t
    ensures DiffMaps(f[k := v], t[k := v]) == DiffMaps(f, t)
  {
    var a, b := DiffMaps(f[k := v], t[k := v]), DiffMaps(f, t);
    forall j ensures At(a, j) == At(b, j) {
      DiffMapsAt(f[k := v], t[k := v], j);
      DiffMapsAt(f, t, j);
      assert j != k ==> At(f[k := v], j) == At(f, j) && At(t[k := v], j) == At(t, j);
    }
    MapsAgree(a, b);
  }

  lemma DiffChange(f: map<string, Doc>, t: map<string, Doc>, k: string, v: Doc, w: Doc)
    requires k !in f && k !in t && v != w
    ensures DiffMaps(f[k := v], t[k := w]) == DiffMaps(f, t)[k := DiffPatch(v, w)]
  {
    var a, b := DiffMaps(f[k := v], t[k := w]), DiffMaps(f, t)[k := DiffPatch(v, w)];
    forall j ensures At(a, j) == At(b, j) {
      DiffMapsAt(f[k := v], t[k := w], j);
      DiffMapsAt(f, t, j);
      assert j != k ==> At(f[k := v], j) == At(f, j) && At(t[k := w], j) == At(t, j);
    }
    MapsAgree(a, b);
  }

  /** No object reached through objects has a null-valued member. */
  ghost predicate NullFree(d: Doc) {
    d.DObject? ==> forall k | k in d.members :: d.members[k] != DNull && NullFree(d.members[k])
  }

  /** Where a merge patch can say b, given a: each new or changed member must not be null. */
  ghost predicate Expressible(a: Doc, b: Doc) {
    b.DObject? ==>
      if !a.DObject? then NullFree(b)
      else forall k | k in b.members && At(a.members, k) != Some(b.members[k]) ::
        && b.members[k] != DNull
        && (if k in a.members then Expressible(a.members[k], b.members[k]) else NullFree(b.members[k]))
  }

  /** Merging a value into what is not an object yields the value, exactly when it is free of null members. */
  lemma {:induction false} MergeIntoOther(target: Option<Doc>, v: Doc)
    requires target.None? || !target.value.DObject?
    ensures MergePatch(target, v) == v <==> NullFree(v)
    decreases v
  {
    if v.DObject? {
      var p := v.members;
      var m := MergeMaps(map[], p);
      assert MergePatch(target, v) == DObject(m);
      forall k | k in p ensures k in m && m[k] == p[k] <==> p[k] != DNull && NullFree(p[k]) {
        MergeMapsAt(map[], p, k);
        MergeIntoOther(None, p[k]);
      }
      forall k | k in m ensures k in p {
        MergeMapsAt(map[], p, k);
      }
      if NullFree(v) {
        assert m == p;
      }
    }
  }

  /** Round trip: the patch from a to b turns a into b exactly when b is expressible from a. */
  lemma {:induction false} DiffThenMerge(a: Doc, b: Doc)
    ensures MergePatch(Some(a), DiffPatch(a, b)) == b <==> Expressible(a, b)
    decreases b, 1
  {
    if !b.DObject? {
    } else if !a.DObject? {
      MergeIntoOther(Some(a), b);
    } else {
      var f, t := a.members, b.members;
      var m := MergeMaps(f, DiffMaps(f, t));
      assert DiffPatch(a, b) == DObject(DiffMaps(f, t));
      assert MergePatch(Some(a), DiffPatch(a, b)) == DObject(m);
      forall k ensures At(m, k) == At(t, k) <==> Kept(f, t, k) {
        MergedAt(a, b, k);
      }
      if forall k :: Kept(f, t, k) {
        MapsAgree(m, t);
      }
      if m == t {
        assert forall k :: Kept(f, t, k);
      }
      assert Expressible(a, b) <==> forall k :: Kept(f, t, k);
    }
  }

  /** The part of Expressible that concerns one name. */
  ghost predicate Kept(f: map<string, Doc>, t: map<string, Doc>, k: string) {
    k in t && At(f, k) != Some(t[k]) ==>
      && t[k] != DNull
      && (if k in f then Expressible(f[k], t[k]) else NullFree(t[k]))
  }

  lemma {:induction false} MergedAt(a: Doc, b: Doc, k: string)
    requires a.DObject? && b.DObject?
    ensures var f, t := a.members, b.members; At(MergeMaps(f, DiffMaps(f, t)), k) == At(t, k) <==> Kept(f, t, k)
    decreases b, 0
  {
    var f, t := a.members, b.members;
    MergeMapsAt(f, DiffMaps(f, t), k);
    DiffMapsAt(f, t, k);
    if k in t && At(f, k) != At(t, k) {
      if k in f {
        DiffThenMerge(f[k], t[k]);
      } else {
        MergeIntoOther(None, t[k]);
      }
    }
  }

  /** In particular whenever the target has no null member at all. */
  lemma {:induction false} NullFreeExpressible(a: Doc, b: Doc)
    requires NullFree(b)
    ensures Expressible(a, b)
  {
    if a.DObject? && b.DObject? {
      forall k | k in b.members && k in a.members ensures Expressible(a.members[k], b.members[k]) {
        NullFreeExpressible(a.members[k], b.members[k]);
      }
    }
  }
}
