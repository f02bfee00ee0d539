/**
 * The analyzer's lookup tables are Go maps filled by `m[k] = v` in traversal
 * order, so a later entry for a key overwrites an earlier one. A table is
 * modelled as the list of entries in the order they were written.
 */
module Tables {

  /** The map obtained by writing the entries of `es` one after the other. */
  function ToMap<K, V>(es: seq<(K, V)>): map<K, V> {
    if es == [] then map[]
    else ToMap(es[..|es| - 1])[es[|es| - 1].0 := es[|es| - 1].1]
  }

  /** Every written key is in the map. */
  lemma {:induction false} ToMapHasWritten<K, V>(es: seq<(K, V)>, e: (K, V))
    requires e in es
    ensures e.0 in ToMap(es)
  {
    var front := es[..|es| - 1];
    if es[|es| - 1] != e {
      assert es == front + [es[|es| - 1]];
      ToMapHasWritten(front, e);
    }
  }

  /** The last entry written for a key decides its value. */
  lemma {:induction false} ToMapLastWins<K, V>(es: seq<(K, V)>, i: nat)
    requires i < |es|
    requires forall j | i < j < |es| :: es[j].0 != es[i].0
    ensures es[i].0 in ToMap(es) && ToMap(es)[es[i].0] == es[i].1
  {
    if i < |es| - 1 {
      var front := es[..|es| - 1];
      ToMapLastWins(front, i);
    }
  }

  /** Writing one more entry: the new map is the old one updated at that key. */
  lemma ToMapSnoc<K, V>(es: seq<(K, V)>, k: K, v: V)
    ensures ToMap(es + [(k, v)]) == ToMap(es)[k := v]
  {
    assert (es + [(k, v)])[..|es|] == es;
  }

  /** Writes of other keys after `a` leave key `k` as `a` left it. */
  lemma {:induction false} ToMapAppendMiss<K, V>(a: seq<(K, V)>, b: seq<(K, V)>, k: K)
    requires forall j | 0 <= j < |b| :: b[j].0 != k
    ensures k in ToMap(a + b) <==> k in ToMap(a)
    ensures k in ToMap(a) ==> ToMap(a + b)[k] == ToMap(a)[k]
  {
    if b != [] {
      var front := b[..|b| - 1];
      assert (a + b)[..|a + b| - 1] == a + front;
      ToMapAppendMiss(a, front, k);
    } else {
      assert a + b == a;
    }
  }

  /** When `b` writes `k`, always with value `v`, the map ends with `k` at `v`, whatever `a` wrote. */
  lemma {:induction false} ToMapAppendConst<K, V>(a: seq<(K, V)>, b: seq<(K, V)>, k: K, v: V)
    requires (k, v) in b
    requires forall j | 0 <= j < |b| :: b[j].0 == k ==> b[j].1 == v
    ensures k in ToMap(a + b) && ToMap(a + b)[k] == v
  {
    var front := b[..|b| - 1];
    assert (a + b)[..|a + b| - 1] == a + front;
    if b[|b| - 1].0 != k {
      var j :| 0 <= j < |b| && b[j] == (k, v);
      assert front[j] == (k, v);
      ToMapAppendConst(a, front, k, v);
    }
  }

  /** Every value in the map was written by some entry for its key. */
  lemma {:induction false} ToMapValueWritten<K, V>(es: seq<(K, V)>, k: K)
    requires k in ToMap(es)
    ensures (k, ToMap(es)[k]) in es
  {
    var front := es[..|es| - 1];
    if es[|es| - 1].0 != k {
      ToMapValueWritten(front, k);
      assert (k, ToMap(front)[k]) in front;
    }
  }

  /** The entries contributed by each item, in order. */
  function Concat<T, E>(xs: seq<T>, f: T -> seq<E>): seq<E> {
    if xs == [] then []
    else Concat(xs[..|xs| - 1], f) + f(xs[|xs| - 1])
  }

  /** An entry is in the concatenation exactly when some item contributes it. */
  lemma {:induction false} ConcatSpec<T, E>(xs: seq<T>, f: T -> seq<E>, e: E)
    ensures e in Concat(xs, f) <==> exists i | 0 <= i < |xs| :: e in f(xs[i])
  {
    if xs != [] {
      var front := xs[..|xs| - 1];
      ConcatSpec(front, f, e);
      assert e in Concat(xs, f) <==> e in Concat(front, f) || e in f(xs[|xs| - 1]);
      if exists i | 0 <= i < |xs| :: e in f(xs[i]) {
        var i :| 0 <= i < |xs| && e in f(xs[i]);
        if i < |front| {
          assert front[i] == xs[i];
        }
      }
      if exists i | 0 <= i < |front| :: e in f(front[i]) {
        var i :| 0 <= i < |front| && e in f(front[i]);
        assert front[i] == xs[i];
      }
    }
  }
}
