/** Laying a caller's JSON over a stored record's (src/api/instances.rs 270-297). */
module Merge {
  datatype Json = Null | Bool(b: bool) | Number(n: int) | Text(s: string) | Array(items: seq<Json>) | Object(fields: map<string, Json>)

  /** Objects merge field by field, and so do objects in their fields; anything else replaces. */
  function MergeJson(base: Json, patch: Json): Json
    decreases patch
  {
    if base.Object? && patch.Object? then
      Object(map k | k in base.fields.Keys + patch.fields.Keys ::
        if k !in patch.fields then base.fields[k]
        else if !patch.fields[k].Object? then patch.fields[k]
        else MergeJson(if k in base.fields then base.fields[k] else Null, patch.fields[k]))
    else patch
  }

  /** Field by field: what the change does not name stays, what it names is replaced unless both sides are objects,
      and these are merged. Anything but two objects is replaced whole. */
  lemma MergedFields(base: Json, patch: Json, k: string)
    ensures !base.Object? || !patch.Object? ==> MergeJson(base, patch) == patch
    ensures base.Object? && patch.Object? ==>
              var r := MergeJson(base, patch);
              && r.Object? && (k in r.fields <==> k in base.fields || k in patch.fields)
              && (k in base.fields && k !in patch.fields ==> r.fields[k] == base.fields[k])
              && (k in patch.fields ==>
                    r.fields[k] == if k in base.fields && base.fields[k].Object? && patch.fields[k].Object?
                                   then MergeJson(base.fields[k], patch.fields[k]) else patch.fields[k])
  {
  }

  /** What stands at a path of field names, if every step leads into an object that has it. */
  function ValueAt(j: Json, path: seq<string>): set<Json> {
    if path == [] then {j}
    else if j.Object? && path[0] in j.fields then ValueAt(j.fields[path[0]], path[1..])
    else {}
  }

  lemma {:induction false} MergeSelf(j: Json)
    ensures MergeJson(j, j) == j
    decreases j
  {
    if j.Object? {
      forall k | k in j.fields ensures MergeJson(j, j).fields[k] == j.fields[k] {
        if j.fields[k].Object? {
          MergeSelf(j.fields[k]);
        }
      }
    }
  }

  /** Sending the same change again changes nothing. */
  lemma {:induction false} MergeTwice(base: Json, patch: Json)
    ensures MergeJson(MergeJson(base, patch), patch) == MergeJson(base, patch)
    decreases patch
  {
    var once := MergeJson(base, patch);
    if base.Object? && patch.Object? {
      forall k | k in once.fields ensures MergeJson(once, patch).fields[k] == once.fields[k] {
        if k in patch.fields && patch.fields[k].Object? {
          MergeTwice(if k in base.fields then base.fields[k] else Null, patch.fields[k]);
        }
      }
    } else {
      MergeSelf(patch);
    }
  }

  /** The patch speaks about this path: it says something there that is not an object, or replaces what
      a step towards it was. */
  predicate Speaks(base: Json, patch: Json, path: seq<string>)
    decreases path
  {
    if !base.Object? || !patch.Object? then true
    else if path == [] then false
    else if path[0] !in patch.fields then false
    else if path[0] !in base.fields then true
    else Speaks(base.fields[path[0]], patch.fields[path[0]], path[1..])
  }

  /** That is, somewhere on the path the patch has a value, and that or the record's there is no object. */
  lemma {:induction false} SpeaksExactly(base: Json, patch: Json, path: seq<string>)
    ensures Speaks(base, patch, path) <==> exists n: nat :: SpeaksAt(base, patch, path, n)
    decreases path
  {
    if !base.Object? || !patch.Object? {
      assert path[..0] == [];
      assert patch in ValueAt(patch, path[..0]);
      assert SpeaksAt(base, patch, path, 0);
    } else {
      assert base in ValueAt(base, path[..0]);
      assert !SpeaksAt(base, patch, path, 0);
      forall n: nat | 0 < n <= |path|
        ensures path[0] !in patch.fields ==> !SpeaksAt(base, patch, path, n)
      {
        OneStep(patch, path, n);
      }
      if path != [] && path[0] in patch.fields {
        var k := path[0];
        var b := if k in base.fields then base.fields[k] else Null;
        SpeaksExactly(b, patch.fields[k], path[1..]);
        forall n: nat | n < |path|
          ensures SpeaksAt(b, patch.fields[k], path[1..], n) <==> SpeaksAt(base, patch, path, n + 1)
        {
          OneStep(base, path, n + 1);
          OneStep(patch, path, n + 1);
        }
        if n: nat :| SpeaksAt(base, patch, path, n) {
          var m: nat := n - 1;
          assert SpeaksAt(b, patch.fields[k], path[1..], m);
        }
      }
    }
  }

  lemma OneStep(j: Json, path: seq<string>, n: nat)
    requires 0 < n <= |path|
    ensures var k := path[0];
            ValueAt(j, path[..n]) == if j.Object? && k in j.fields then ValueAt(j.fields[k], path[1..][..n - 1]) else {}
  {
    assert path[..n][1..] == path[1..][..n - 1];
  }

  ghost predicate SpeaksAt(base: Json, patch: Json, path: seq<string>, n: nat) {
    n <= |path| && exists v :: v in ValueAt(patch, path[..n]) && !(v.Object? && exists b :: b in ValueAt(base, path[..n]) && b.Object?)
  }

  /** However deep: a path the patch speaks about holds what the patch says there, and a path it does not
      speak about holds what it held, unless it is an object and was merged into. */
  lemma {:induction false} MergedAt(base: Json, patch: Json, path: seq<string>)
    ensures Speaks(base, patch, path) ==> ValueAt(MergeJson(base, patch), path) == ValueAt(patch, path)
    ensures !Speaks(base, patch, path) && ValueAt(patch, path) == {} ==> ValueAt(MergeJson(base, patch), path) == ValueAt(base, path)
    decreases path
  {
    if base.Object? && patch.Object? && path != [] && path[0] in patch.fields {
      var k := path[0];
      if k in base.fields {
        MergedAt(base.fields[k], patch.fields[k], path[1..]);
      }
    }
  }

  /** Two changes that name different fields of a record can be applied in either order. */
  lemma DisjointChangesCommute(base: Json, p: Json, q: Json)
    requires base.Object? && p.Object? && q.Object? && p.fields.Keys !! q.fields.Keys
    ensures MergeJson(MergeJson(base, p), q) == MergeJson(MergeJson(base, q), p)
  {
    var pq, qp := MergeJson(MergeJson(base, p), q), MergeJson(MergeJson(base, q), p);
    forall k | k in pq.fields ensures k in qp.fields && pq.fields[k] == qp.fields[k] {
    }
    assert pq.fields.Keys == qp.fields.Keys;
  }
}
