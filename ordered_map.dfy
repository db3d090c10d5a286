/**
 * A dictionary that remembers insertion order: a JavaScript plain object used
 * as a dictionary with non-numeric keys (`Object.entries` lists keys in the
 * order they were first assigned) or a Python dict. It is an association list
 * in which each key occurs at most once.
 */
module OrderedMap {
  import opened Seqs

  type Assoc<V> = seq<(string, V)>

  function Keys<V>(m: Assoc<V>): (ks: seq<string>)
    ensures |ks| == |m|
    ensures forall i :: 0 <= i < |m| ==> ks[i] == m[i].0
  {
    seq(|m|, i requires 0 <= i < |m| => m[i].0)
  }

  /** `Object.values(m)` / `dict.values()`. */
  function Values<V>(m: Assoc<V>): (vs: seq<V>)
    ensures |vs| == |m|
    ensures forall i :: 0 <= i < |m| ==> vs[i] == m[i].1
  {
    seq(|m|, i requires 0 <= i < |m| => m[i].1)
  }

  /** Each key occurs once. */
  predicate Valid<V>(m: Assoc<V>) {
    NoDuplicates(Keys(m))
  }

  /** The value stored under `k`, or `d` when `k` is absent. */
  function Get<V>(m: Assoc<V>, k: string, d: V): (v: V)
    ensures k !in Keys(m) ==> v == d
    ensures Valid(m) ==> forall i :: 0 <= i < |m| && m[i].0 == k ==> v == m[i].1
  {
    if k in Keys(m) then
      var i := IndexOf(Keys(m), k);
      assert Valid(m) ==> forall j :: 0 <= j < |m| && m[j].0 == k ==> j == i;
      m[i].1
    else d
  }

  /**
   * `m[k] = v`: an existing key keeps its position and gets the new value,
   * a new key is appended.
   */
  function Put<V>(m: Assoc<V>, k: string, v: V): (r: Assoc<V>)
    ensures k !in Keys(m) ==> r == m + [(k, v)]
    ensures k in Keys(m) ==> |r| == |m|
    ensures Keys(r) == if k in Keys(m) then Keys(m) else Keys(m) + [k]
    ensures Valid(m) ==> Valid(r)
    ensures Valid(m) ==> forall i :: 0 <= i < |m| ==> r[i] == if m[i].0 == k then (k, v) else m[i]
  {
    if k in Keys(m) then
      var i := IndexOf(Keys(m), k);
      var r := m[i := (k, v)];
      assert Keys(r) == Keys(m);
      r
    else
      var r := m + [(k, v)];
      assert Keys(r) == Keys(m) + [k];
      r
  }

  /** Reading a key back after writing it yields the written value; other keys are untouched. */
  lemma GetPut<V>(m: Assoc<V>, k: string, v: V, k': string, d: V)
    requires Valid(m)
    ensures Get(Put(m, k, v), k', d) == if k' == k then v else Get(m, k', d)
  {
    var r := Put(m, k, v);
    if k' in Keys(r) {
      var i := IndexOf(Keys(r), k');
      if i < |m| {
        assert m[i].0 == k';
      }
    }
  }

  /** Writing the same key twice leaves only the second value. */
  lemma PutPut<V>(m: Assoc<V>, k: string, v1: V, v2: V)
    requires Valid(m)
    ensures Put(Put(m, k, v1), k, v2) == Put(m, k, v2)
  {
    var r1 := Put(m, k, v1);
    var a, b := Put(r1, k, v2), Put(m, k, v2);
    if k in Keys(m) {
      assert |a| == |b|;
      forall i | 0 <= i < |a| ensures a[i] == b[i] {
        assert r1[i] == if m[i].0 == k then (k, v1) else m[i];
      }
    } else {
      assert |a| == |b| == |m| + 1;
      forall i | 0 <= i < |a| ensures a[i] == b[i] {
        if i < |m| {
          assert r1[i] == m[i];
        } else {
          assert r1[i].0 == k;
        }
      }
    }
  }
}
