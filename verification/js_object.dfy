/**
 * The own properties of an ordinary JavaScript object built by assignments
 * `o[k] = x`, in the order a `for...in` loop visits them (ECMA-262, section
 * 10.1.11.1, OrdinaryOwnPropertyKeys): first the keys that are array
 * indices, in ascending numeric order, then the other keys in the order they
 * were created. Assigning to a key that exists changes its value and keeps
 * its place.
 */
module JsObject {
  import opened Wrappers
  import opened Numerals

  /** 2^32 - 1: an array index is an integer below it. */
  const ArrayIndexLimit: nat := 4294967295

  /**
   * The array index a property key denotes (ECMA-262, section 6.1.7): the key
   * is the canonical decimal numeral of an integer below 2^32 - 1. Keys such
   * as "01", "-1", "1.5" or "4294967295" are not array indices.
   */
  function ArrayIndex(k: string): Option<nat> {
    if IsDigits(k) && NatToString(DigitsValue(k)) == k && DigitsValue(k) < ArrayIndexLimit
    then Some(DigitsValue(k))
    else None
  }

  /** A key is an array index with value `v` exactly when it is the numeral of `v` and `v` is below 2^32 - 1. */
  lemma ArrayIndexOfNumeral(k: string, v: nat)
    ensures ArrayIndex(k) == Some(v) <==> k == NatToString(v) && v < ArrayIndexLimit
  {
    if k == NatToString(v) {
      NatToStringRoundTrip(v);
    }
  }

  /** An object's own properties: `keys` in property order, `values` the key-value map. */
  datatype Obj<V> = Obj(keys: seq<string>, values: map<string, V>)

  predicate IndexBelow(k: string, v: nat) {
    ArrayIndex(k).Some? && ArrayIndex(k).value < v
  }

  /** Where a new array-index key with value `v` is placed: after the leading index keys below `v`. */
  function InsertPos(keys: seq<string>, v: nat): (r: nat)
    ensures r <= |keys|
    ensures forall q :: 0 <= q < r ==> IndexBelow(keys[q], v)
    ensures r < |keys| ==> !IndexBelow(keys[r], v)
    decreases |keys|
  {
    if keys != [] && IndexBelow(keys[0], v) then 1 + InsertPos(keys[1..], v) else 0
  }

  /**
   * `o[k] = x`: an existing key keeps its place, a new array-index key is
   * placed among the index keys by value, and any other new key goes last.
   */
  function Put<V>(o: Obj<V>, k: string, x: V): Obj<V> {
    var keys :=
      if k in o.values then o.keys
      else match ArrayIndex(k)
        case Some(v) => var p := InsertPos(o.keys, v); o.keys[..p] + [k] + o.keys[p..]
        case None => o.keys + [k];
    Obj(keys, o.values[k := x])
  }

  /** The object `{}` after the assignments `ws`, in order. */
  function Run<V>(ws: seq<(string, V)>): Obj<V>
    decreases |ws|
  {
    if ws == [] then Obj([], map[])
    else Put(Run(ws[..|ws| - 1]), ws[|ws| - 1].0, ws[|ws| - 1].1)
  }

  /** The position of the first assignment to `k`, the one that created it; `|ws|` when there is none. */
  function FirstAt<V>(ws: seq<(string, V)>, k: string): (r: nat)
    ensures r <= |ws|
    ensures r < |ws| ==> ws[r].0 == k
    ensures forall q :: 0 <= q < r ==> ws[q].0 != k
    decreases |ws|
  {
    if ws == [] then 0
    else
      var f := FirstAt(ws[..|ws| - 1], k);
      if f < |ws| - 1 then f else if ws[|ws| - 1].0 == k then |ws| - 1 else |ws|
  }

  /** The position of the last assignment to `k`, whose value stays; -1 when there is none. */
  function LastAt<V>(ws: seq<(string, V)>, k: string): (r: int)
    ensures -1 <= r < |ws|
    ensures r >= 0 ==> ws[r].0 == k
    ensures forall q :: r < q < |ws| ==> ws[q].0 != k
    decreases |ws|
  {
    if ws == [] then -1
    else if ws[|ws| - 1].0 == k then |ws| - 1
    else LastAt(ws[..|ws| - 1], k)
  }

  /**
   * Whether key `x` comes before key `y` in property order, where `cx` and
   * `cy` say when each was created: array indices first, in ascending
   * numeric order, then the other keys by creation.
   */
  predicate ForInBefore(x: string, y: string, cx: nat, cy: nat) {
    match (ArrayIndex(x), ArrayIndex(y))
    case (Some(a), Some(b)) => a < b
    case (Some(_), None) => true
    case (None, Some(_)) => false
    case (None, None) => cx < cy
  }

  /** Every two keys of `keys` appear in property order, creation taken from the assignments `ws`. */
  predicate PropertyOrder<V>(keys: seq<string>, ws: seq<(string, V)>) {
    forall a, b :: 0 <= a < b < |keys| ==> ForInBefore(keys[a], keys[b], FirstAt(ws, keys[a]), FirstAt(ws, keys[b]))
  }

  /** What `Run(ws)` is: its keys, its values and the order of its keys. */
  ghost predicate Shaped<V>(o: Obj<V>, ws: seq<(string, V)>) {
    && (forall k :: k in o.keys <==> k in o.values)
    && (forall k :: k in o.values <==> FirstAt(ws, k) < |ws|)
    && (forall k :: k in o.values ==> 0 <= LastAt(ws, k) && o.values[k] == ws[LastAt(ws, k)].1)
    && PropertyOrder(o.keys, ws)
  }

  /**
   * After the assignments `ws`, the object has exactly the keys assigned,
   * each holding the value of its last assignment, and `for...in` visits
   * them in property order.
   */
  lemma {:induction false} RunShape<V>(ws: seq<(string, V)>)
    ensures forall k :: k in Run(ws).keys <==> k in Run(ws).values
    ensures forall k :: k in Run(ws).values <==> FirstAt(ws, k) < |ws|
    ensures forall k :: k in Run(ws).values ==> 0 <= LastAt(ws, k) && Run(ws).values[k] == ws[LastAt(ws, k)].1
    ensures PropertyOrder(Run(ws).keys, ws)
    decreases |ws|
  {
    if ws != [] {
      var init := ws[..|ws| - 1];
      RunShape(init);
      assert ws == init + [ws[|ws| - 1]];
      PutShape(Run(init), init, ws[|ws| - 1]);
    }
  }

  /** One more assignment: creation and last-write positions of the earlier keys do not move. */
  lemma AtExtend<V>(init: seq<(string, V)>, w: (string, V), y: string)
    ensures FirstAt(init + [w], y) == if FirstAt(init, y) < |init| then FirstAt(init, y) else if w.0 == y then |init| else |init| + 1
    ensures LastAt(init + [w], y) == if w.0 == y then |init| else LastAt(init, y)
  {
    assert (init + [w])[..|init|] == init;
  }

  /** `Put` keeps the shape of `Run` for one more assignment. */
  lemma PutShape<V>(o: Obj<V>, init: seq<(string, V)>, w: (string, V))
    requires Shaped(o, init)
    ensures Shaped(Put(o, w.0, w.1), init + [w])
  {
    forall y | y in o.keys ensures FirstAt(init, y) < |init| && FirstAt(init + [w], y) == FirstAt(init, y) {
      AtExtend(init, w, y);
    }
    PutValues(o, init, w);
    if w.0 in o.values {
      PutExisting(o, init, w);
    } else if ArrayIndex(w.0).None? {
      AtExtend(init, w, w.0);
      PutAppend(o, init, w);
    } else {
      PutInsert(o, init, w);
    }
  }

  /** The keys and their order after assigning an existing key. */
  lemma PutExisting<V>(o: Obj<V>, init: seq<(string, V)>, w: (string, V))
    requires (forall k :: k in o.keys <==> k in o.values) && PropertyOrder(o.keys, init) && w.0 in o.values
    requires forall y :: y in o.keys ==> FirstAt(init, y) < |init| && FirstAt(init + [w], y) == FirstAt(init, y)
    ensures forall k :: k in Put(o, w.0, w.1).keys <==> k in Put(o, w.0, w.1).values
    ensures PropertyOrder(Put(o, w.0, w.1).keys, init + [w])
  {
    KeepOrder(o.keys, init, w);
  }

  /** The keys and their order after assigning a new key that is not an array index. */
  lemma PutAppend<V>(o: Obj<V>, init: seq<(string, V)>, w: (string, V))
    requires (forall k :: k in o.keys <==> k in o.values) && PropertyOrder(o.keys, init)
    requires w.0 !in o.values && ArrayIndex(w.0).None? && FirstAt(init + [w], w.0) == |init|
    requires forall y :: y in o.keys ==> FirstAt(init, y) < |init| && FirstAt(init + [w], y) == FirstAt(init, y)
    ensures forall k :: k in Put(o, w.0, w.1).keys <==> k in Put(o, w.0, w.1).values
    ensures PropertyOrder(Put(o, w.0, w.1).keys, init + [w])
  {
    AppendOrder(o.keys, init, w);
  }

  /** The keys and their order after assigning a new array-index key. */
  lemma PutInsert<V>(o: Obj<V>, init: seq<(string, V)>, w: (string, V))
    requires (forall k :: k in o.keys <==> k in o.values) && PropertyOrder(o.keys, init)
    requires w.0 !in o.values && ArrayIndex(w.0).Some?
    requires forall y :: y in o.keys ==> FirstAt(init, y) < |init| && FirstAt(init + [w], y) == FirstAt(init, y)
    ensures forall k :: k in Put(o, w.0, w.1).keys <==> k in Put(o, w.0, w.1).values
    ensures PropertyOrder(Put(o, w.0, w.1).keys, init + [w])
  {
    var v := ArrayIndex(w.0).value;
    var p := InsertPos(o.keys, v);
    assert Put(o, w.0, w.1).keys == o.keys[..p] + [w.0] + o.keys[p..];
    InsertMembers(o.keys, p, w.0);
    InsertOrder(o.keys, init, w, v);
  }

  /** Inserting `x` adds `x` and keeps every other key. */
  lemma InsertMembers(keys: seq<string>, p: nat, x: string)
    requires p <= |keys|
    ensures forall k :: k in keys[..p] + [x] + keys[p..] <==> k in keys || k == x
  {
    assert keys == keys[..p] + keys[p..];
  }

  /** The values after one more assignment: the keys assigned so far, each with its last value. */
  lemma PutValues<V>(o: Obj<V>, init: seq<(string, V)>, w: (string, V))
    requires forall k :: k in o.values <==> FirstAt(init, k) < |init|
    requires forall k :: k in o.values ==> 0 <= LastAt(init, k) && o.values[k] == init[LastAt(init, k)].1
    ensures forall k :: k in Put(o, w.0, w.1).values <==> FirstAt(init + [w], k) < |init + [w]|
    ensures forall k :: k in Put(o, w.0, w.1).values ==>
      0 <= LastAt(init + [w], k) && Put(o, w.0, w.1).values[k] == (init + [w])[LastAt(init + [w], k)].1
  {
    forall k ensures (k in Put(o, w.0, w.1).values <==> FirstAt(init + [w], k) < |init + [w]|)
      && (k in Put(o, w.0, w.1).values ==>
          0 <= LastAt(init + [w], k) && Put(o, w.0, w.1).values[k] == (init + [w])[LastAt(init + [w], k)].1) {
      AtExtend(init, w, k);
    }
  }

  /** Assigning an existing key keeps the order: no key's creation moves. */
  lemma KeepOrder<V>(keys: seq<string>, init: seq<(string, V)>, w: (string, V))
    requires PropertyOrder(keys, init)
    requires forall y :: y in keys ==> FirstAt(init, y) < |init| && FirstAt(init + [w], y) == FirstAt(init, y)
    ensures PropertyOrder(keys, init + [w])
  {
    forall a, b | 0 <= a < b < |keys|
      ensures ForInBefore(keys[a], keys[b], FirstAt(init + [w], keys[a]), FirstAt(init + [w], keys[b])) {
      assert keys[a] in keys && keys[b] in keys;
    }
  }

  /** A new key that is not an array index goes last: it was created after every other key. */
  lemma AppendOrder<V>(keys: seq<string>, init: seq<(string, V)>, w: (string, V))
    requires PropertyOrder(keys, init) && ArrayIndex(w.0).None?
    requires forall y :: y in keys ==> FirstAt(init, y) < |init| && FirstAt(init + [w], y) == FirstAt(init, y)
    requires FirstAt(init + [w], w.0) == |init|
    ensures PropertyOrder(keys + [w.0], init + [w])
  {
    forall a, b | 0 <= a < b < |keys| + 1
      ensures ForInBefore((keys + [w.0])[a], (keys + [w.0])[b], FirstAt(init + [w], (keys + [w.0])[a]), FirstAt(init + [w], (keys + [w.0])[b]))
    {
      AppendPair(keys, init, w, a, b);
    }
  }

  /** One pair of keys of `AppendOrder`. */
  lemma AppendPair<V>(keys: seq<string>, init: seq<(string, V)>, w: (string, V), a: nat, b: nat)
    requires PropertyOrder(keys, init) && ArrayIndex(w.0).None? && a < b <= |keys|
    requires forall y :: y in keys ==> FirstAt(init, y) < |init| && FirstAt(init + [w], y) == FirstAt(init, y)
    requires FirstAt(init + [w], w.0) == |init|
    ensures var ks, ws := keys + [w.0], init + [w];
      ForInBefore(ks[a], ks[b], FirstAt(ws, ks[a]), FirstAt(ws, ks[b]))
  {
    var ks, ws := keys + [w.0], init + [w];
    assert ks[a] == keys[a];
    if b < |keys| {
      assert ks[b] == keys[b];
      OldPair(keys, init, w, a, b);
    } else {
      assert keys[a] in keys && ks[b] == w.0;
      NoneAfter(ks[a], ks[b], FirstAt(ws, ks[a]), FirstAt(ws, ks[b]));
    }
  }

  /** A key that is not an array index comes after every key created before it. */
  lemma NoneAfter(x: string, y: string, cx: nat, cy: nat)
    requires ArrayIndex(y).None? && cx < cy
    ensures ForInBefore(x, y, cx, cy)
  {
  }

  /** A key after the insertion point of a new index key `v` is not an index key at or below `v`. */
  lemma AfterInsertPos<V>(keys: seq<string>, init: seq<(string, V)>, v: nat, c: nat)
    requires PropertyOrder(keys, init) && InsertPos(keys, v) <= c < |keys| && NatToString(v) !in keys
    ensures ArrayIndex(keys[c]).Some? ==> v < ArrayIndex(keys[c]).value
  {
    var p := InsertPos(keys, v);
    if ArrayIndex(keys[c]).Some? {
      ArrayIndexOfNumeral(keys[c], v);
      assert ArrayIndex(keys[c]) != Some(v) by { assert keys[c] in keys; }
      if c > p {
        assert ForInBefore(keys[p], keys[c], FirstAt(init, keys[p]), FirstAt(init, keys[c]));
        assert ArrayIndex(keys[p]).Some? && ArrayIndex(keys[p]).value < ArrayIndex(keys[c]).value;
      }
    }
  }

  /** The element at `i` after inserting `x` at `p`. */
  lemma InsertedAt(keys: seq<string>, p: nat, x: string, i: nat)
    requires p <= |keys| && i <= |keys|
    ensures (keys[..p] + [x] + keys[p..])[i] == if i < p then keys[i] else if i == p then x else keys[i - 1]
  {
  }

  /** A new array-index key is placed after the index keys below it and before every other key. */
  lemma InsertOrder<V>(keys: seq<string>, init: seq<(string, V)>, w: (string, V), v: nat)
    requires PropertyOrder(keys, init) && ArrayIndex(w.0) == Some(v) && w.0 !in keys
    requires forall y :: y in keys ==> FirstAt(init, y) < |init| && FirstAt(init + [w], y) == FirstAt(init, y)
    ensures PropertyOrder(keys[..InsertPos(keys, v)] + [w.0] + keys[InsertPos(keys, v)..], init + [w])
  {
    var p, ws := InsertPos(keys, v), init + [w];
    var ks := keys[..p] + [w.0] + keys[p..];
    forall a, b | 0 <= a < b < |ks| ensures ForInBefore(ks[a], ks[b], FirstAt(ws, ks[a]), FirstAt(ws, ks[b])) {
      InsertPair(keys, init, w, v, a, b);
    }
  }

  /** One pair of keys of `InsertOrder`. */
  lemma InsertPair<V>(keys: seq<string>, init: seq<(string, V)>, w: (string, V), v: nat, a: nat, b: nat)
    requires PropertyOrder(keys, init) && ArrayIndex(w.0) == Some(v) && w.0 !in keys && a < b <= |keys|
    requires forall y :: y in keys ==> FirstAt(init, y) < |init| && FirstAt(init + [w], y) == FirstAt(init, y)
    ensures var p, ws := InsertPos(keys, v), init + [w];
      var ks := keys[..p] + [w.0] + keys[p..];
      ForInBefore(ks[a], ks[b], FirstAt(ws, ks[a]), FirstAt(ws, ks[b]))
  {
    var p := InsertPos(keys, v);
    ArrayIndexOfNumeral(w.0, v);
    InsertedAt(keys, p, w.0, a);
    InsertedAt(keys, p, w.0, b);
    if a == p {
      AfterInsertPos(keys, init, v, b - 1);
    } else if b == p {
      assert IndexBelow(keys[a], v);
    } else {
      OldPair(keys, init, w, if a < p then a else a - 1, if b < p then b else b - 1);
    }
  }

  /** Two earlier keys keep their relative order. */
  lemma OldPair<V>(keys: seq<string>, init: seq<(string, V)>, w: (string, V), a: nat, b: nat)
    requires PropertyOrder(keys, init) && a < b < |keys|
    requires forall y :: y in keys ==> FirstAt(init + [w], y) == FirstAt(init, y)
    ensures ForInBefore(keys[a], keys[b], FirstAt(init + [w], keys[a]), FirstAt(init + [w], keys[b]))
  {
    assert keys[a] in keys && keys[b] in keys;
  }
}
