/**
  The small part of JavaScript's value model that the helpers rely on:
  truthiness of a value, and plain objects as insertion-ordered property
  lists (an own property is a key/value pair; a key appears at most once).
 */
module Js {

  datatype Option<+T> = None | Some(value: T)

  /** A JavaScript value, as far as the helpers inspect it (numbers are integers here). */
  datatype Value = Undefined | Null | Bool(b: bool) | Number(n: int) | Str(s: string) | Object

  /** ToBoolean: the values `if (v)` treats as true. */
  predicate Truthy(v: Value)
  {
    match v
    case Undefined => false
    case Null => false
    case Bool(b) => b
    case Number(n) => n != 0
    case Str(s) => s != ""
    case Object => true
  }

  /** A plain object: its own enumerable properties in enumeration order. */
  type Props<V> = seq<(string, V)>

  /** Every key occurs once, as in any JavaScript object. */
  predicate UniqueKeys<V>(o: Props<V>)
  {
    forall i, j :: 0 <= i < j < |o| ==> o[i].0 != o[j].0
  }

  function Keys<V>(o: Props<V>): set<string>
  {
    if o == [] then {} else {o[0].0} + Keys(o[1..])
  }

  /** The values in enumeration order (underscore's `_.values`). */
  function Values<V>(o: Props<V>): (r: seq<V>)
    ensures |r| == |o|
    ensures forall i :: 0 <= i < |o| ==> r[i] == o[i].1
  {
    seq(|o|, i requires 0 <= i < |o| => o[i].1)
  }

  /** In an object, the values are what access by each key yields, in enumeration order. */
  lemma ValuesByKey<V>(o: Props<V>)
    requires UniqueKeys(o)
    ensures forall i :: 0 <= i < |o| ==> Get(o, o[i].0) == Some(Values(o)[i])
  {
    forall i | 0 <= i < |o| ensures Get(o, o[i].0) == Some(Values(o)[i]) {
      GetAt(o, i);
    }
  }

  /** The keys are exactly the first components of the properties. */
  lemma {:induction false} KeysIndex<V>(o: Props<V>, k: string)
    ensures k in Keys(o) <==> exists i :: 0 <= i < |o| && o[i].0 == k
  {
    if o != [] {
      KeysIndex(o[1..], k);
      if k in Keys(o[1..]) {
        var i :| 0 <= i < |o[1..]| && o[1..][i].0 == k;
        assert o[i + 1].0 == k;
      }
      if exists i :: 0 <= i < |o| && o[i].0 == k {
        var i :| 0 <= i < |o| && o[i].0 == k;
        if i > 0 { assert o[1..][i - 1].0 == k; }
      }
    }
  }

  lemma {:induction false} KeysSnoc<V>(o: Props<V>, p: (string, V))
    ensures Keys(o + [p]) == Keys(o) + {p.0}
  {
    if o == [] {
      assert [p][1..] == [];
    } else {
      assert (o + [p])[1..] == o[1..] + [p];
      KeysSnoc(o[1..], p);
    }
  }

  lemma {:induction false} KeysAppend<V>(a: Props<V>, b: Props<V>)
    ensures Keys(a + b) == Keys(a) + Keys(b)
  {
    if a == [] {
      assert a + b == b;
    } else {
      assert (a + b)[1..] == a[1..] + b;
      KeysAppend(a[1..], b);
    }
  }

  /** Property access `o[k]`; `None` stands for a missing property. */
  function Get<V>(o: Props<V>, k: string): (r: Option<V>)
    ensures r.Some? <==> k in Keys(o)
  {
    if o == [] then None
    else
      if o[0].0 == k then Some(o[0].1) else Get(o[1..], k)
  }

  /** In an object, the property at index i is what access by its key yields. */
  lemma {:induction false} GetAt<V>(o: Props<V>, i: nat)
    requires UniqueKeys(o) && i < |o|
    ensures Get(o, o[i].0) == Some(o[i].1)
  {
    if i > 0 {
      assert UniqueKeys(o[1..]) by {
        forall a, b | 0 <= a < b < |o[1..]| ensures o[1..][a].0 != o[1..][b].0 {
          assert o[1..][a] == o[a + 1] && o[1..][b] == o[b + 1];
        }
      }
      assert o[0].0 != o[i].0;
      GetAt(o[1..], i - 1);
    }
  }

  /** Access in an object whose last property is p. */
  lemma {:induction false} GetSnoc<V>(o: Props<V>, p: (string, V), k: string)
    requires UniqueKeys(o + [p])
    ensures Get(o + [p], k) == if k == p.0 then Some(p.1) else Get(o, k)
  {
    if o == [] {
    } else {
      assert (o + [p])[1..] == o[1..] + [p];
      assert (o + [p])[0] == o[0];
      assert o[0].0 != p.0 by { assert (o + [p])[|o|] == p; }
      assert UniqueKeys(o[1..] + [p]) by {
        forall a, b | 0 <= a < b < |o[1..] + [p]|
          ensures (o[1..] + [p])[a].0 != (o[1..] + [p])[b].0
        {
          assert (o[1..] + [p])[a] == (o + [p])[a + 1];
          assert (o[1..] + [p])[b] == (o + [p])[b + 1];
        }
      }
      GetSnoc(o[1..], p, k);
    }
  }

  /**
    Assignment `o[k] = v`: an existing property keeps its place and takes the
    new value; a new property goes to the end.
   */
  function Put<V>(o: Props<V>, k: string, v: V): (r: Props<V>)
    ensures Get(r, k) == Some(v)
    ensures forall k' :: k' != k ==> Get(r, k') == Get(o, k')
    ensures Keys(r) == Keys(o) + {k}
    ensures k !in Keys(o) ==> r == o + [(k, v)]
  {
    if o == [] then [(k, v)]
    else if o[0].0 == k then [(k, v)] + o[1..]
    else
      var r := [o[0]] + Put(o[1..], k, v);
      assert r[1..] == Put(o[1..], k, v);
      r
  }

  /** Assigning to an existing key changes no key and no position. */
  lemma {:induction false} PutKeepsOrder<V>(o: Props<V>, k: string, v: V)
    requires k in Keys(o)
    ensures |Put(o, k, v)| == |o|
    ensures forall i :: 0 <= i < |o| ==> Put(o, k, v)[i].0 == o[i].0
  {
    if o[0].0 != k {
      PutKeepsOrder(o[1..], k, v);
      var r := Put(o, k, v);
      assert r == [o[0]] + Put(o[1..], k, v);
      forall i | 0 < i < |o| ensures r[i].0 == o[i].0 {
        assert r[i] == Put(o[1..], k, v)[i - 1];
        assert o[i] == o[1..][i - 1];
      }
    }
  }

  /** Assignment keeps the keys of an object distinct. */
  lemma PutUnique<V>(o: Props<V>, k: string, v: V)
    requires UniqueKeys(o)
    ensures UniqueKeys(Put(o, k, v))
  {
    if k in Keys(o) {
      PutKeepsOrder(o, k, v);
    } else {
      KeysIndex(o, k);
      var r := Put(o, k, v);
      assert r == o + [(k, v)];
      forall i, j | 0 <= i < j < |r| ensures r[i].0 != r[j].0 {
        assert r[i] == o[i];
        if j == |o| {
          assert r[j].0 == k;
        } else {
          assert r[j] == o[j];
        }
      }
    }
  }

  /** The value behind `o[k]`, with a missing property read as `undefined`. */
  function Lookup(o: Props<Value>, k: string): (v: Value)
    ensures k !in Keys(o) ==> v == Undefined
  {
    match Get(o, k)
    case Some(v) => v
    case None => Undefined
  }
}
