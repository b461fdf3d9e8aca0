/**
 * "First occurrence wins" de-duplication by a key, as the seeding code gets it from a
 * `Set` of seen ticket ids (or a `Map` keyed by ticket id) and from `new Set(array)`.
 * This is the reference definition the seeding loops are proved against.
 */
module Dedup {

  /** `xs[i]` is the first element of `xs` with its key. */
  predicate FirstWithKey<T(==)>(xs: seq<T>, key: T -> string, i: int)
    requires 0 <= i < |xs|
  {
    forall j :: 0 <= j < i ==> key(xs[j]) != key(xs[i])
  }

  function KeysOf<T(==)>(xs: seq<T>, key: T -> string): set<string> {
    set i | 0 <= i < |xs| :: key(xs[i])
  }

  predicate DistinctKeys<T(==)>(xs: seq<T>, key: T -> string) {
    forall i, j :: 0 <= i < j < |xs| ==> key(xs[i]) != key(xs[j])
  }

  /** Whenever `xs[i]` is the first element of `xs` with the key of `r[k]`, `r[k]` is that element. */
  predicate PicksFirsts<T(==)>(r: seq<T>, xs: seq<T>, key: T -> string) {
    forall k, i :: 0 <= k < |r| && 0 <= i < |xs| && FirstWithKey(xs, key, i) && key(xs[i]) == key(r[k]) ==>
      r[k] == xs[i]
  }

  /**
   * The elements of `xs` that are the first with their key, in their order in `xs`:
   * keys become distinct, no key is lost, and every survivor is a first occurrence.
   */
  function KeepFirst<T(==)>(xs: seq<T>, key: T -> string): (r: seq<T>)
    ensures |r| <= |xs|
    ensures DistinctKeys(r, key)
    ensures KeysOf(r, key) == KeysOf(xs, key)
    ensures PicksFirsts(r, xs, key)
  {
    if xs == [] then []
    else
      var n := |xs| - 1;
      var kept := KeepFirst(xs[..n], key);
      assert xs == xs[..n] + [xs[n]];
      KeysSnoc(xs[..n], xs[n], key);
      FirstWithKeyLast(xs[..n], xs[n], key);
      PicksFirstsSnoc(kept, xs[..n], xs[n], key);
      if FirstWithKey(xs, key, n) then
        KeysSnoc(kept, xs[n], key);
        DistinctSnoc(kept, xs[n], key);
        kept + [xs[n]]
      else
        kept
  }

  lemma KeysSnoc<T>(xs: seq<T>, x: T, key: T -> string)
    ensures KeysOf(xs + [x], key) == KeysOf(xs, key) + {key(x)}
  {
    var ys := xs + [x];
    forall s | s in KeysOf(ys, key) ensures s in KeysOf(xs, key) + {key(x)} {
      var i :| 0 <= i < |ys| && key(ys[i]) == s;
      if i < |xs| { assert key(xs[i]) == s; }
    }
    forall s | s in KeysOf(xs, key) + {key(x)} ensures s in KeysOf(ys, key) {
      if s == key(x) {
        assert key(ys[|xs|]) == s;
      } else {
        var i :| 0 <= i < |xs| && key(xs[i]) == s;
        assert key(ys[i]) == s;
      }
    }
  }

  /** The last element is a first occurrence exactly when its key is new. */
  lemma FirstWithKeyLast<T>(xs: seq<T>, x: T, key: T -> string)
    ensures FirstWithKey(xs + [x], key, |xs|) <==> key(x) !in KeysOf(xs, key)
  {
    var ys := xs + [x];
    if key(x) in KeysOf(xs, key) {
      var i :| 0 <= i < |xs| && key(xs[i]) == key(x);
      assert key(ys[i]) == key(ys[|xs|]);
    } else {
      forall j | 0 <= j < |xs| ensures key(ys[j]) != key(ys[|xs|]) {
        assert key(xs[j]) in KeysOf(xs, key);
      }
    }
  }

  lemma DistinctSnoc<T>(r: seq<T>, x: T, key: T -> string)
    requires DistinctKeys(r, key) && key(x) !in KeysOf(r, key)
    ensures DistinctKeys(r + [x], key)
  {
    var ys := r + [x];
    forall i, j | 0 <= i < j < |ys| ensures key(ys[i]) != key(ys[j]) {
      if j == |r| {
        assert key(r[i]) in KeysOf(r, key);
      } else {
        assert ys[i] == r[i] && ys[j] == r[j];
      }
    }
  }

  lemma PicksFirstsSnoc<T>(kept: seq<T>, xs: seq<T>, x: T, key: T -> string)
    requires PicksFirsts(kept, xs, key) && KeysOf(kept, key) == KeysOf(xs, key)
    ensures key(x) in KeysOf(xs, key) ==> PicksFirsts(kept, xs + [x], key)
    ensures key(x) !in KeysOf(xs, key) ==> PicksFirsts(kept + [x], xs + [x], key)
  {
    var ys := xs + [x];
    if key(x) in KeysOf(xs, key) {
      forall k, i | 0 <= k < |kept| && 0 <= i < |ys| && FirstWithKey(ys, key, i) && key(ys[i]) == key(kept[k])
        ensures kept[k] == ys[i]
      {
        var i0 :| 0 <= i0 < |xs| && key(xs[i0]) == key(x);
        assert key(ys[i0]) == key(ys[|xs|]);
        assert i != |xs|;
        assert ys[i] == xs[i];
        assert FirstWithKey(xs, key, i) by {
          forall j | 0 <= j < i ensures key(xs[j]) != key(xs[i]) { assert ys[j] == xs[j]; }
        }
      }
    } else {
      var rs := kept + [x];
      forall k, i | 0 <= k < |rs| && 0 <= i < |ys| && FirstWithKey(ys, key, i) && key(ys[i]) == key(rs[k])
        ensures rs[k] == ys[i]
      {
        if k < |kept| {
          assert rs[k] == kept[k];
          assert key(kept[k]) in KeysOf(xs, key);
          assert i != |xs|;
          assert ys[i] == xs[i];
          assert FirstWithKey(xs, key, i) by {
            forall j | 0 <= j < i ensures key(xs[j]) != key(xs[i]) { assert ys[j] == xs[j]; }
          }
        } else {
          assert rs[k] == x;
          assert forall j :: 0 <= j < |xs| ==> ys[j] == xs[j] && key(xs[j]) in KeysOf(xs, key);
          assert i == |xs|;
        }
      }
    }
  }

  /** Adding one more element to the input adds it to the output exactly when its key is new. */
  lemma KeepFirstSnoc<T>(xs: seq<T>, x: T, key: T -> string)
    ensures KeepFirst(xs + [x], key) ==
              KeepFirst(xs, key) + (if key(x) in KeysOf(xs, key) then [] else [x])
  {
    var ys := xs + [x];
    assert ys[..|xs|] == xs;
    FirstWithKeyLast(xs, x, key);
  }
}
