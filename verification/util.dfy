/** The two key-merge rules of lib/util.js. A JavaScript object is modelled as
    a finite map from property names to values; only own properties count. */
module Util {

  /** `update(x, y)`: every key of `x` that `y` also has takes `y`'s value;
      no key is added. */
  function Update<K, V>(x: map<K, V>, y: map<K, V>): (r: map<K, V>)
    ensures r.Keys == x.Keys
    ensures forall k :: k in x && k in y ==> r[k] == y[k]
    ensures forall k :: k in x && k !in y ==> r[k] == x[k]
  {
    map k | k in x :: if k in y then y[k] else x[k]
  }

  /** `extend(x, y)`: every key of `y` is copied into `x`, `y`'s value winning. */
  function Extend<K, V>(x: map<K, V>, y: map<K, V>): (r: map<K, V>)
    ensures r.Keys == x.Keys + y.Keys
    ensures forall k :: k in y ==> r[k] == y[k]
    ensures forall k :: k in x && k !in y ==> r[k] == x[k]
  {
    x + y
  }

  /** The for-in loop of `update`, visiting the keys of `x` in an arbitrary
      order: the result does not depend on the order. */
  method UpdateInPlace<K, V>(x: map<K, V>, y: map<K, V>) returns (r: map<K, V>)
    ensures r == Update(x, y)
  {
    r := x;
    var todo := x.Keys;
    while todo != {}
      invariant todo <= x.Keys
      invariant r.Keys == x.Keys
      invariant forall k :: k in todo ==> r[k] == x[k]
      invariant forall k :: k in x && k !in todo ==> r[k] == Update(x, y)[k]
      decreases todo
    {
      var key :| key in todo;
      if key in y {
        r := r[key := y[key]];
      }
      todo := todo - {key};
    }
  }

  /** The for-in loop of `extend`, visiting the keys of `y` in an arbitrary order. */
  method ExtendInPlace<K, V>(x: map<K, V>, y: map<K, V>) returns (r: map<K, V>)
    ensures r == Extend(x, y)
  {
    r := x;
    var todo := y.Keys;
    while todo != {}
      invariant todo <= y.Keys
      invariant r.Keys == x.Keys + (y.Keys - todo)
      invariant forall k :: k in y && k !in todo ==> r[k] == y[k]
      invariant forall k :: k in x && k !in y ==> r[k] == x[k]
      invariant forall k :: k in x && k in todo ==> r[k] == x[k]
      decreases todo
    {
      var key :| key in todo;
      r := r[key := y[key]];
      todo := todo - {key};
    }
  }

  /** Applying `update` a second time with the same source changes nothing. */
  lemma UpdateIdempotent<K, V>(x: map<K, V>, y: map<K, V>)
    ensures Update(Update(x, y), y) == Update(x, y)
  {
  }

  /** `update` is `extend` with the source cut down to the keys already present. */
  lemma UpdateIsRestrictedExtend<K, V>(x: map<K, V>, y: map<K, V>)
    ensures Update(x, y) == Extend(x, map k | k in y && k in x :: y[k])
  {
  }

  /** When `y` only has keys `x` already has, the two rules agree. */
  lemma UpdateAgreesWithExtendOnKnownKeys<K, V>(x: map<K, V>, y: map<K, V>)
    requires y.Keys <= x.Keys
    ensures Update(x, y) == Extend(x, y)
  {
  }
}
