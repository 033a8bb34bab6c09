/** A `BTreeMap` filled by inserting key/value pairs one after another
    (`insert` in a loop, or `collect` from an iterator of pairs): a later
    pair overwrites an earlier pair with the same key. */
module Assoc {
  import opened Wrappers

  /** The map obtained by inserting the pairs of `ps` from first to last. */
  function FromPairs<K, V>(ps: seq<(K, V)>): (m: map<K, V>)
    ensures m.Keys == set i | 0 <= i < |ps| :: ps[i].0
  {
    if ps == [] then map[]
    else
      var init := ps[..|ps| - 1];
      var last := ps[|ps| - 1];
      assert (set i | 0 <= i < |ps| :: ps[i].0)
          == (set i | 0 <= i < |init| :: init[i].0) + {last.0} by {
        forall i | 0 <= i < |init|
          ensures init[i].0 == ps[i].0
        {
        }
      }
      FromPairs(init)[last.0 := last.1]
  }

  /** The value of a key is the one in its last pair. */
  lemma {:induction false} FromPairsLastWins<K, V>(ps: seq<(K, V)>, i: nat)
    requires i < |ps|
    requires forall j :: i < j < |ps| ==> ps[j].0 != ps[i].0
    ensures ps[i].0 in FromPairs(ps) && FromPairs(ps)[ps[i].0] == ps[i].1
  {
    if i < |ps| - 1 {
      var init := ps[..|ps| - 1];
      assert init[i] == ps[i];
      FromPairsLastWins(init, i);
    }
  }

  /** Inserting one more pair: its key takes its value, every other key keeps its own. */
  lemma FromPairsSnoc<K, V>(ps: seq<(K, V)>, k: K, v: V)
    ensures FromPairs(ps + [(k, v)]) == FromPairs(ps)[k := v]
  {
    assert (ps + [(k, v)])[..|ps|] == ps;
  }

  /** The pairs that `f` yields for the elements of `xs`, in order; elements
      for which `f` yields nothing are skipped. */
  function FilterMap<A, K, V>(xs: seq<A>, f: A -> Option<(K, V)>): seq<(K, V)> {
    if xs == [] then []
    else
      var init := FilterMap(xs[..|xs| - 1], f);
      match f(xs[|xs| - 1])
      case None => init
      case Some(e) => init + [e]
  }

  /** Element `i` of `xs` yields a pair with key `k`. */
  ghost predicate Yields<A, K, V>(xs: seq<A>, f: A -> Option<(K, V)>, i: int, k: K) {
    0 <= i < |xs| && f(xs[i]).Some? && f(xs[i]).value.0 == k
  }

  /** One more element: nothing changes when it yields nothing; otherwise its
      key takes its value and every other key keeps its own. */
  lemma FilterMapSnoc<A, K, V>(xs: seq<A>, x: A, f: A -> Option<(K, V)>)
    ensures f(x).None? ==> FromPairs(FilterMap(xs + [x], f)) == FromPairs(FilterMap(xs, f))
    ensures f(x).Some? ==>
      FromPairs(FilterMap(xs + [x], f)) == FromPairs(FilterMap(xs, f))[f(x).value.0 := f(x).value.1]
  {
    assert (xs + [x])[..|xs|] == xs;
    if f(x).Some? {
      FromPairsSnoc(FilterMap(xs, f), f(x).value.0, f(x).value.1);
    }
  }

  /** The keys of the map are exactly the keys the elements yield. */
  lemma {:induction false} FilterMapKeys<A, K, V>(xs: seq<A>, f: A -> Option<(K, V)>, k: K)
    ensures k in FromPairs(FilterMap(xs, f)) <==> exists i :: Yields(xs, f, i, k)
  {
    if xs != [] {
      var init := xs[..|xs| - 1];
      var last := xs[|xs| - 1];
      assert xs == init + [last];
      FilterMapSnoc(init, last, f);
      FilterMapKeys(init, f, k);
      assert forall i :: 0 <= i < |init| ==> (Yields(xs, f, i, k) <==> Yields(init, f, i, k));
      if k in FromPairs(FilterMap(xs, f)) && !Yields(xs, f, |init|, k) {
        var i :| Yields(init, f, i, k);
        assert Yields(xs, f, i, k);
      }
    }
  }

  /** The value of a key is the one yielded by the last element yielding it. */
  lemma {:induction false} FilterMapLastWins<A, K, V>(xs: seq<A>, f: A -> Option<(K, V)>, i: nat, k: K, v: V)
    requires i < |xs| && f(xs[i]) == Some((k, v))
    requires forall j :: i < j < |xs| ==> !Yields(xs, f, j, k)
    ensures k in FromPairs(FilterMap(xs, f)) && FromPairs(FilterMap(xs, f))[k] == v
  {
    var init := xs[..|xs| - 1];
    var last := xs[|xs| - 1];
    assert xs == init + [last];
    FilterMapSnoc(init, last, f);
    if i < |init| {
      assert !Yields(xs, f, |init|, k);
      assert forall j :: i < j < |init| ==> (Yields(xs, f, j, k) <==> Yields(init, f, j, k));
      FilterMapLastWins(init, f, i, k, v);
    }
  }
}
