/** PHP's ordered arrays with string keys, as the library uses them for
    CSV rows, `toArray` results and command-line options: entries keep
    their insertion order, and assigning to a key already present replaces
    its value where it stands. */
module Arrays {
  import opened Outcomes

  type Assoc<V> = seq<(string, V)>

  function Keys<V>(a: Assoc<V>): (ks: seq<string>)
    ensures |ks| == |a| && forall i | 0 <= i < |a| :: ks[i] == a[i].0
  {
    seq(|a|, i requires 0 <= i < |a| => a[i].0)
  }

  /** array_values(a) */
  function Values<V>(a: Assoc<V>): (vs: seq<V>)
    ensures |vs| == |a| && forall i | 0 <= i < |a| :: vs[i] == a[i].1
  {
    seq(|a|, i requires 0 <= i < |a| => a[i].1)
  }

  predicate Distinct(ks: seq<string>) {
    forall i, j | 0 <= i < j < |ks| :: ks[i] != ks[j]
  }

  /** `a[k]` when `isset`: the value stored under `k`, if any. */
  function Get<V>(a: Assoc<V>, k: string): (r: Option<V>)
    ensures r.None? <==> k !in Keys(a)
    ensures r.Some? ==> exists i | 0 <= i < |a| :: a[i] == (k, r.value) && forall j | 0 <= j < i :: a[j].0 != k
  {
    assert a != [] ==> Keys(a) == [a[0].0] + Keys(a[1..]);
    if a == [] then None
    else if a[0].0 == k then Some(a[0].1)
    else Get(a[1..], k)
  }

  /** `a[k] ?? d` */
  function GetOr<V>(a: Assoc<V>, k: string, d: V): (r: V)
    ensures k !in Keys(a) ==> r == d
    ensures k in Keys(a) ==> Some(r) == Get(a, k)
  {
    match Get(a, k)
    case Some(v) => v
    case None => d
  }

  /** `a[k] = v` */
  function Put<V>(a: Assoc<V>, k: string, v: V): (r: Assoc<V>)
    ensures k in Keys(a) ==> Keys(r) == Keys(a)
    ensures k !in Keys(a) ==> r == a + [(k, v)]
  {
    if a == [] then [(k, v)]
    else if a[0].0 == k then
      assert Keys([(k, v)] + a[1..]) == Keys(a);
      [(k, v)] + a[1..]
    else
      assert Keys(a) == [a[0].0] + Keys(a[1..]);
      var r := [a[0]] + Put(a[1..], k, v);
      assert Keys(r) == [a[0].0] + Keys(Put(a[1..], k, v));
      r
  }

  /** After `a[k] = v`, reading `k` gives `v`. */
  lemma {:induction false} GetPutSame<V>(a: Assoc<V>, k: string, v: V)
    ensures Get(Put(a, k, v), k) == Some(v)
  {
    if a != [] && a[0].0 != k {
      GetPutSame(a[1..], k, v);
      assert Put(a, k, v)[1..] == Put(a[1..], k, v);
    }
  }

  /** `a[k] = v` leaves every other key's value alone. */
  lemma {:induction false} GetPutOther<V>(a: Assoc<V>, k: string, v: V, other: string)
    requires other != k
    ensures Get(Put(a, k, v), other) == Get(a, other)
  {
    if a == [] {
    } else if a[0].0 == k {
      assert Put(a, k, v)[1..] == a[1..];
    } else {
      GetPutOther(a[1..], k, v, other);
      assert Put(a, k, v)[1..] == Put(a[1..], k, v);
    }
  }

  /** Pairing each key with the value at the same position. */
  function Zip<V>(ks: seq<string>, vs: seq<V>): (r: Assoc<V>)
    requires |ks| == |vs|
    ensures Keys(r) == ks && Values(r) == vs
  {
    seq(|ks|, i requires 0 <= i < |ks| => (ks[i], vs[i]))
  }

  /** Pairing one more key with one more value adds one entry at the end. */
  lemma ZipSnoc<V>(ks: seq<string>, vs: seq<V>, k: string, v: V)
    requires |ks| == |vs|
    ensures Zip(ks + [k], vs + [v]) == Zip(ks, vs) + [(k, v)]
  {
  }

  /** Setting a key the pairing lacks appends it with its value. */
  lemma ZipPutFresh<V>(ks: seq<string>, vs: seq<V>, k: string, v: V)
    requires |ks| == |vs| && k !in ks
    ensures Put(Zip(ks, vs), k, v) == Zip(ks + [k], vs + [v])
  {
    ZipSnoc(ks, vs, k, v);
  }

  /** An array is the pairing of its keys with its values. */
  lemma ZipKeysValues<V>(a: Assoc<V>)
    ensures Zip(Keys(a), Values(a)) == a
  {
  }

  /** With distinct keys, the value at position `i` is the one read under its key. */
  lemma {:induction false} GetDistinct<V>(a: Assoc<V>, i: nat)
    requires Distinct(Keys(a)) && i < |a|
    ensures Get(a, a[i].0) == Some(a[i].1)
  {
    if i > 0 {
      assert Keys(a[1..]) == Keys(a)[1..];
      assert a[0].0 != a[i].0 by { assert Keys(a)[0] != Keys(a)[i]; }
      GetDistinct(a[1..], i - 1);
    }
  }
}
