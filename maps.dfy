/** Collecting a sequence of key/value pairs into a map, as Rust's
    `HashMap` and `HeaderMap` do when each pair is inserted in turn: an
    insert replaces the earlier value of the same key. */
module Maps {

  /** Some pair has key `k`. */
  ghost predicate HasKey<K, V>(ps: seq<(K, V)>, k: K) {
    exists i :: 0 <= i < |ps| && ps[i].0 == k
  }

  /** The last pair with key `k` has value `v`. */
  ghost predicate LastValue<K, V>(ps: seq<(K, V)>, k: K, v: V) {
    exists i :: 0 <= i < |ps| && ps[i] == (k, v) && forall j :: i < j < |ps| ==> ps[j].0 != k
  }

  /** Collecting pairs into a `HashMap`: every key is present and a repeated
      key keeps its last value. */
  function CollectMap<K(==, !new), V>(ps: seq<(K, V)>): (m: map<K, V>)
    ensures forall k :: k in m <==> HasKey(ps, k)
    ensures forall k :: k in m ==> LastValue(ps, k, m[k])
    decreases |ps|
  {
    if |ps| == 0 then map[]
    else
      var m0 := CollectMap(ps[..|ps| - 1]);
      CollectStep(ps, m0);
      m0[ps[|ps| - 1].0 := ps[|ps| - 1].1]
  }

  /** Inserting the last pair into the map of the earlier ones keeps both
      properties of `CollectMap`. */
  lemma CollectStep<K(!new), V>(ps: seq<(K, V)>, m0: map<K, V>)
    requires |ps| > 0
    requires forall k :: k in m0 <==> HasKey(ps[..|ps| - 1], k)
    requires forall k :: k in m0 ==> LastValue(ps[..|ps| - 1], k, m0[k])
    ensures var m := m0[ps[|ps| - 1].0 := ps[|ps| - 1].1];
      && (forall k :: k in m <==> HasKey(ps, k))
      && (forall k :: k in m ==> LastValue(ps, k, m[k]))
  {
    var init := ps[..|ps| - 1];
    var last := ps[|ps| - 1];
    var m := m0[last.0 := last.1];
    forall k ensures k in m <==> HasKey(ps, k) {
      if HasKey(init, k) {
        var i :| 0 <= i < |init| && init[i].0 == k;
        assert ps[i] == init[i];
      }
      if HasKey(ps, k) && k != last.0 {
        var i :| 0 <= i < |ps| && ps[i].0 == k;
        assert init[i] == ps[i];
      }
    }
    forall k | k in m ensures LastValue(ps, k, m[k]) {
      if k == last.0 {
        assert ps[|ps| - 1] == (k, m[k]);
      } else {
        var i :| 0 <= i < |init| && init[i] == (k, m0[k]) && forall j :: i < j < |init| ==> init[j].0 != k;
        assert ps[i] == init[i];
        forall j | i < j < |ps| ensures ps[j].0 != k {
          if j < |init| {
            assert ps[j] == init[j];
          }
        }
      }
    }
  }

  /** The value of a key is unique: a last value, when there is one, is the
      value the map holds. */
  lemma LastValueUnique<K, V>(ps: seq<(K, V)>, k: K, v: V, w: V)
    requires LastValue(ps, k, v) && LastValue(ps, k, w)
    ensures v == w
  {
    var i :| 0 <= i < |ps| && ps[i] == (k, v) && forall j :: i < j < |ps| ==> ps[j].0 != k;
    var i' :| 0 <= i' < |ps| && ps[i'] == (k, w) && forall j :: i' < j < |ps| ==> ps[j].0 != k;
    assert !(i < i') && !(i' < i);
  }
}
