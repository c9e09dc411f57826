/** A JavaScript object built by one property assignment per element of a list, some of them
    skipped: every assignment to a key replaces the value an earlier one stored. */
module Assignments {
  import opened JsText

  /** The map that results from visiting `xs` in order and, for each element `x`, storing
      `value(x).value` under `key(x)` when `value(x)` is `Some`, and nothing when it is `None`. */
  function Assign<X, K(==), V>(xs: seq<X>, key: X -> K, value: X -> Option<V>): (m: map<K, V>)
    decreases |xs|
  {
    if xs == [] then map[]
    else
      var others := Assign(xs[..|xs| - 1], key, value);
      var last := xs[|xs| - 1];
      match value(last)
      case None => others
      case Some(v) => others[key(last) := v]
  }

  /** The index of the last element that stores a value under `k`, if any. */
  function LastStore<X, K(==), V>(xs: seq<X>, key: X -> K, value: X -> Option<V>, k: K): (r: Option<nat>)
    ensures r.Some? ==> r.value < |xs| && key(xs[r.value]) == k && value(xs[r.value]).Some?
    ensures r.Some? ==> forall j :: r.value < j < |xs| && key(xs[j]) == k ==> value(xs[j]).None?
    ensures r.None? ==> forall j :: 0 <= j < |xs| && key(xs[j]) == k ==> value(xs[j]).None?
    decreases |xs|
  {
    if xs == [] then None
    else
      var last := xs[|xs| - 1];
      if key(last) == k && value(last).Some? then Some(|xs| - 1)
      else
        var r := LastStore(xs[..|xs| - 1], key, value, k);
        assert forall j :: 0 <= j < |xs| - 1 ==> xs[..|xs| - 1][j] == xs[j];
        r
  }

  /** A key is present exactly when some element stores under it, and it holds the value of the
      last element that does. */
  lemma {:induction false} AssignKeepsLastStore<X, K, V>(xs: seq<X>, key: X -> K, value: X -> Option<V>)
    ensures forall k :: k in Assign(xs, key, value) <==> LastStore(xs, key, value, k).Some?
    ensures forall k :: k in Assign(xs, key, value) ==>
      Some(Assign(xs, key, value)[k]) == value(xs[LastStore(xs, key, value, k).value])
    decreases |xs|
  {
    if xs != [] {
      var init := xs[..|xs| - 1];
      var last := xs[|xs| - 1];
      AssignKeepsLastStore(init, key, value);
      forall k | !(key(last) == k && value(last).Some?)
        ensures LastStore(xs, key, value, k) == LastStore(init, key, value, k)
      {
      }
      assert forall k :: k in Assign(xs, key, value) <==> LastStore(xs, key, value, k).Some?;
      forall k | k in Assign(xs, key, value)
        ensures Some(Assign(xs, key, value)[k]) == value(xs[LastStore(xs, key, value, k).value])
      {
        if key(last) == k && value(last).Some? {
          assert Assign(xs, key, value) == Assign(init, key, value)[k := value(last).value];
        } else {
          assert LastStore(xs, key, value, k) == LastStore(init, key, value, k);
          assert k in Assign(init, key, value) && Assign(xs, key, value)[k] == Assign(init, key, value)[k];
          var i := LastStore(init, key, value, k).value;
          assert init[i] == xs[i];
        }
      }
    }
  }

  /** The keys of the result are the keys of the elements that store something. */
  lemma AssignKeys<X, K, V>(xs: seq<X>, key: X -> K, value: X -> Option<V>)
    ensures forall k :: k in Assign(xs, key, value) <==>
      exists i :: 0 <= i < |xs| && key(xs[i]) == k && value(xs[i]).Some?
  {
    AssignKeepsLastStore(xs, key, value);
    forall k | exists i :: 0 <= i < |xs| && key(xs[i]) == k && value(xs[i]).Some?
      ensures LastStore(xs, key, value, k).Some?
    {
    }
  }

  /** The value under one key of the result is that of an element that stores under it, after
      which no element stores under that key. */
  lemma AssignValueAt<X, K, V>(xs: seq<X>, key: X -> K, value: X -> Option<V>, k: K)
    requires k in Assign(xs, key, value)
    ensures exists i :: (0 <= i < |xs| && key(xs[i]) == k && value(xs[i]) == Some(Assign(xs, key, value)[k])
      && forall j :: i < j < |xs| && key(xs[j]) == k ==> value(xs[j]).None?)
  {
    AssignKeepsLastStore(xs, key, value);
    var i := LastStore(xs, key, value, k).value;
    assert key(xs[i]) == k;
  }

  /** Visiting one more element. */
  lemma AssignStep<X, K, V>(xs: seq<X>, key: X -> K, value: X -> Option<V>, i: nat)
    requires i < |xs|
    ensures Assign(xs[..i + 1], key, value) ==
      match value(xs[i])
      case None => Assign(xs[..i], key, value)
      case Some(v) => Assign(xs[..i], key, value)[key(xs[i]) := v]
  {
    assert xs[..i + 1][..i] == xs[..i];
  }
}
