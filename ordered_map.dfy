/**
 * A PHP array with string keys, as the question passes solutions around
 * (`value1 => value2`): an ordered sequence of key/value pairs with
 * distinct keys. Assigning to a key that is present replaces its value in
 * place; assigning to a new key appends it.
 */
module OrderedMap {
  import opened Wrappers

  type Assoc = seq<(string, string)>

  /** The keys present in the array. */
  function Keys(a: Assoc): set<string> {
    set i | 0 <= i < |a| :: a[i].0
  }

  predicate DistinctKeys(a: Assoc) {
    forall i, j :: 0 <= i < j < |a| ==> a[i].0 != a[j].0
  }

  lemma {:induction false} KeysCons(x: (string, string), rest: Assoc)
    ensures Keys([x] + rest) == {x.0} + Keys(rest)
  {
    var a := [x] + rest;
    forall k | k in Keys(a) ensures k in {x.0} + Keys(rest) {
      var i :| 0 <= i < |a| && a[i].0 == k;
      if i > 0 { assert rest[i - 1] == a[i]; }
    }
    forall k | k in Keys(rest) ensures k in Keys(a) {
      var i :| 0 <= i < |rest| && rest[i].0 == k;
      assert a[i + 1] == rest[i];
    }
    assert a[0] == x;
  }

  /** `$a[$k] ?? null`. */
  function Get(a: Assoc, k: string): (r: Option<string>)
    ensures r.Some? <==> k in Keys(a)
    ensures r.Some? ==> exists i :: 0 <= i < |a| && a[i] == (k, r.value)
  {
    if a == [] then None
    else
      assert a == [a[0]] + a[1..];
      KeysCons(a[0], a[1..]);
      if a[0].0 == k then Some(a[0].1)
      else
        var r := Get(a[1..], k);
        assert forall i :: 1 <= i < |a| ==> a[i] == a[1..][i - 1];
        r
  }

  /** `$a[$k] = $v`. */
  function Put(a: Assoc, k: string, v: string): Assoc {
    if a == [] then [(k, v)]
    else if a[0].0 == k then [(k, v)] + a[1..]
    else [a[0]] + Put(a[1..], k, v)
  }

  /** After `$a[$k] = $v`, `$a[$k]` is `$v` and every other key reads as before. */
  lemma {:induction false} GetPut(a: Assoc, k: string, v: string, k': string)
    ensures Get(Put(a, k, v), k') == if k == k' then Some(v) else Get(a, k')
  {
    if a != [] && a[0].0 != k {
      GetPut(a[1..], k, v, k');
    }
  }

  /** A pair in front of distinct keys keeps them distinct exactly when its key is new. */
  lemma {:induction false} DistinctCons(x: (string, string), rest: Assoc)
    ensures DistinctKeys([x] + rest) <==> x.0 !in Keys(rest) && DistinctKeys(rest)
  {
    var a := [x] + rest;
    assert forall i :: 0 <= i < |rest| ==> a[i + 1] == rest[i];
    if DistinctKeys(a) {
      forall i | 0 <= i < |rest| ensures rest[i].0 != x.0 {
        assert a[0].0 != a[i + 1].0;
      }
    }
  }

  /** Assignment adds its key to the keys present. */
  lemma {:induction false} PutKeys(a: Assoc, k: string, v: string)
    ensures Keys(Put(a, k, v)) == Keys(a) + {k}
  {
    if a == [] {
      KeysCons((k, v), []);
    } else {
      assert a == [a[0]] + a[1..];
      KeysCons(a[0], a[1..]);
      if a[0].0 == k {
        KeysCons((k, v), a[1..]);
      } else {
        PutKeys(a[1..], k, v);
        KeysCons(a[0], Put(a[1..], k, v));
      }
    }
  }

  /** Assignment keeps the keys distinct. */
  lemma {:induction false} PutDistinct(a: Assoc, k: string, v: string)
    requires DistinctKeys(a)
    ensures DistinctKeys(Put(a, k, v))
  {
    if a == [] {
      DistinctCons((k, v), []);
    } else {
      assert a == [a[0]] + a[1..];
      DistinctCons(a[0], a[1..]);
      if a[0].0 == k {
        DistinctCons((k, v), a[1..]);
      } else {
        PutDistinct(a[1..], k, v);
        PutKeys(a[1..], k, v);
        DistinctCons(a[0], Put(a[1..], k, v));
      }
    }
  }

  /** Assigning to a key that is not present appends the pair at the end. */
  lemma {:induction false} PutNew(a: Assoc, k: string, v: string)
    requires k !in Keys(a)
    ensures Put(a, k, v) == a + [(k, v)]
  {
    if a != [] {
      assert a == [a[0]] + a[1..];
      KeysCons(a[0], a[1..]);
      PutNew(a[1..], k, v);
      assert [a[0]] + (a[1..] + [(k, v)]) == a + [(k, v)];
    }
  }

  /** With distinct keys, each pair is found under its own key. */
  lemma {:induction false} GetAt(a: Assoc, i: nat)
    requires DistinctKeys(a) && i < |a|
    ensures Get(a, a[i].0) == Some(a[i].1)
  {
    if i > 0 {
      assert a[1..][i - 1] == a[i];
      assert DistinctKeys(a[1..]) by {
        forall x, y | 0 <= x < y < |a[1..]| ensures a[1..][x].0 != a[1..][y].0 {
          assert a[1..][x] == a[x + 1] && a[1..][y] == a[y + 1];
        }
      }
      GetAt(a[1..], i - 1);
    }
  }

  /** Reading an array that ends in a pair with a new key: that key gives the pair's value, every other key reads as in the front. */
  lemma {:induction false} GetSnoc(a: Assoc, x: (string, string), k: string)
    requires x.0 !in Keys(a)
    ensures Get(a + [x], k) == if k == x.0 then Some(x.1) else Get(a, k)
  {
    PutNew(a, x.0, x.1);
    GetPut(a, x.0, x.1, k);
  }
}
