/** Keys and the ordered map (`java.util.TreeMap<String, V>`) the store keeps
    them in. A TreeMap is modelled as a Dafny `map` together with `Entries`,
    which lists its pairs in ascending key order, the order of `entrySet()`. */
module Keys {

  type Key = string

  /** Lexicographic order on strings, the order of `String.compareTo`:
      the first differing character decides, and a proper prefix comes first. */
  predicate Less(a: Key, b: Key)
    decreases |a|
  {
    if |a| == 0 then |b| > 0
    else if |b| == 0 then false
    else if a[0] != b[0] then a[0] < b[0]
    else Less(a[1..], b[1..])
  }

  lemma {:induction false} LessIrreflexive(a: Key)
    ensures !Less(a, a)
    decreases |a|
  {
    if |a| > 0 {
      LessIrreflexive(a[1..]);
    }
  }

  lemma {:induction false} LessAsymmetric(a: Key, b: Key)
    requires Less(a, b)
    ensures !Less(b, a)
    decreases |a|
  {
    if |a| > 0 && |b| > 0 && a[0] == b[0] {
      LessAsymmetric(a[1..], b[1..]);
    }
  }

  lemma {:induction false} LessTransitive(a: Key, b: Key, c: Key)
    requires Less(a, b) && Less(b, c)
    ensures Less(a, c)
    decreases |a|
  {
    if |a| > 0 && a[0] == b[0] && b[0] == c[0] {
      LessTransitive(a[1..], b[1..], c[1..]);
    }
  }

  lemma {:induction false} LessTotal(a: Key, b: Key)
    requires a != b
    ensures Less(a, b) || Less(b, a)
    decreases |a|
  {
    if |a| > 0 && |b| > 0 && a[0] == b[0] {
      assert a == [a[0]] + a[1..] && b == [b[0]] + b[1..];
      LessTotal(a[1..], b[1..]);
    }
  }

  /** `a <= b` in the order of `compareTo`. */
  predicate AtMost(a: Key, b: Key) {
    a == b || Less(a, b)
  }

  lemma {:induction false} AtMostIsNotGreater(a: Key, b: Key)
    ensures AtMost(a, b) <==> !Less(b, a)
  {
    if a == b {
      LessIrreflexive(a);
    } else if Less(a, b) {
      LessAsymmetric(a, b);
    } else {
      LessTotal(a, b);
    }
  }

  /** Every non-empty set of keys has a least element. */
  lemma {:induction false} LeastExists(s: set<Key>)
    requires s != {}
    ensures exists k :: k in s && forall j :: j in s && j != k ==> Less(k, j)
    decreases |s|
  {
    var x :| x in s;
    var rest := s - {x};
    if rest != {} {
      LeastExists(rest);
      var m :| m in rest && forall j :: j in rest && j != m ==> Less(m, j);
      assert x != m;
      LessTotal(x, m);
      if Less(x, m) {
        forall j | j in s && j != x
          ensures Less(x, j)
        {
          if j != m {
            assert j in rest;
            LessTransitive(x, m, j);
          }
        }
      } else {
        forall j | j in s && j != m
          ensures Less(m, j)
        {
          if j != x {
            assert j in rest;
          }
        }
      }
    } else {
      assert forall j :: j in s ==> j == x || j in rest;
    }
  }

  /** The least key of a non-empty set (the first key of a TreeMap). */
  function Least(s: set<Key>): (k: Key)
    requires s != {}
    ensures k in s
    ensures forall j :: j in s && j != k ==> Less(k, j)
  {
    LeastExists(s);
    assert forall a, b :: Less(a, b) ==> !Less(b, a) by {
      forall a, b | Less(a, b)
        ensures !Less(b, a)
      {
        LessAsymmetric(a, b);
      }
    }
    var k :| k in s && forall j :: j in s && j != k ==> Less(k, j);
    k
  }

  /** Strictly ascending, hence duplicate-free. */
  predicate Ascending(ks: seq<Key>) {
    forall i, j :: 0 <= i < j < |ks| ==> Less(ks[i], ks[j])
  }

  /** The keys of a set in ascending order. */
  function SortedKeys(s: set<Key>): (ks: seq<Key>)
    ensures Ascending(ks)
    ensures forall k :: k in ks <==> k in s
    ensures |ks| == |s|
    decreases |s|
  {
    if s == {} then []
    else
      var k := Least(s);
      var rest := SortedKeys(s - {k});
      assert forall j :: j in rest ==> Less(k, j);
      [k] + rest
  }

  lemma {:induction false} AtMostAntisymmetric(a: Key, b: Key)
    requires AtMost(a, b) && AtMost(b, a)
    ensures a == b
  {
    if a != b {
      LessAsymmetric(a, b);
    }
  }

  /** The head of an ascending sequence is at most each of its elements. */
  lemma {:induction false} AscendingHead(xs: seq<Key>, k: Key)
    requires Ascending(xs) && k in xs
    ensures AtMost(xs[0], k)
  {
    var i :| 0 <= i < |xs| && xs[i] == k;
    if i > 0 {
      assert Less(xs[0], xs[i]);
    }
  }

  lemma {:induction false} HeadIsElement(xs: seq<Key>)
    ensures |xs| > 0 ==> xs[0] in xs
  {
  }

  /** Two ascending sequences with the same elements are equal: the ascending
      order of a key set is unique. */
  lemma {:induction false} AscendingUnique(xs: seq<Key>, ys: seq<Key>)
    requires Ascending(xs) && Ascending(ys)
    requires forall k :: k in xs <==> k in ys
    ensures xs == ys
    decreases |xs|
  {
    if |xs| > 0 && |ys| > 0 {
      AscendingHead(xs, ys[0]);
      AscendingHead(ys, xs[0]);
      AtMostAntisymmetric(xs[0], ys[0]);
      forall k
        ensures k in xs[1..] <==> k in ys[1..]
      {
        if k in xs[1..] {
          var i :| 0 <= i < |xs| - 1 && xs[1..][i] == k;
          assert Less(xs[0], xs[i + 1]);
          LessIrreflexive(xs[0]);
          assert k in ys;
          var j :| 0 <= j < |ys| && ys[j] == k;
          assert j != 0;
          assert ys[1..][j - 1] == k;
        }
        if k in ys[1..] {
          var i :| 0 <= i < |ys| - 1 && ys[1..][i] == k;
          assert Less(ys[0], ys[i + 1]);
          LessIrreflexive(ys[0]);
          assert k in xs;
          var j :| 0 <= j < |xs| && xs[j] == k;
          assert j != 0;
          assert xs[1..][j - 1] == k;
        }
      }
      AscendingUnique(xs[1..], ys[1..]);
      assert xs == [xs[0]] + xs[1..];
      assert ys == [ys[0]] + ys[1..];
    } else {
      HeadIsElement(xs);
      HeadIsElement(ys);
    }
  }

  /** The first components of a list of pairs. */
  function KeysOf<V>(ps: seq<(Key, V)>): (ks: seq<Key>)
    ensures |ks| == |ps|
    ensures forall i :: 0 <= i < |ps| ==> ks[i] == ps[i].0
  {
    if |ps| == 0 then [] else [ps[0].0] + KeysOf(ps[1..])
  }

  /** The pairs `(k, m[k])` for the keys `ks`, in the order of `ks`. */
  function Pairs<V>(ks: seq<Key>, m: map<Key, V>): (es: seq<(Key, V)>)
    requires forall i :: 0 <= i < |ks| ==> ks[i] in m
    ensures KeysOf(es) == ks
    ensures forall i :: 0 <= i < |es| ==> es[i].1 == m[ks[i]]
  {
    if |ks| == 0 then [] else [(ks[0], m[ks[0]])] + Pairs(ks[1..], m)
  }

  /** The pairs of a TreeMap in `entrySet()` order. */
  function Entries<V>(m: map<Key, V>): (es: seq<(Key, V)>)
    ensures |es| == |m|
    ensures forall k :: k in KeysOf(es) <==> k in m
    ensures forall i :: 0 <= i < |es| ==> es[i].0 in m && m[es[i].0] == es[i].1
  {
    var ks := SortedKeys(m.Keys);
    var es := Pairs(ks, m);
    assert forall i :: 0 <= i < |es| ==> es[i].0 == ks[i];
    es
  }

  /** `entrySet()` iterates in ascending key order. */
  lemma {:induction false} EntriesAscending<V>(m: map<Key, V>)
    ensures Ascending(KeysOf(Entries(m)))
  {
    var ks := SortedKeys(m.Keys);
    assert KeysOf(Entries(m)) == ks;
  }

  /** The TreeMap built by `put`-ting the pairs of a list in order: a later
      pair for the same key replaces an earlier one. */
  function ToMap<V>(ps: seq<(Key, V)>): (m: map<Key, V>)
    decreases |ps|
  {
    if |ps| == 0 then map[]
    else ToMap(ps[..|ps| - 1])[ps[|ps| - 1].0 := ps[|ps| - 1].1]
  }

  /** The map holds exactly the keys of the list. */
  lemma {:induction false} ToMapKeys<V>(ps: seq<(Key, V)>)
    ensures forall k :: k in ToMap(ps) <==> k in KeysOf(ps)
    decreases |ps|
  {
    if |ps| > 0 {
      var n := |ps| - 1;
      ToMapKeys(ps[..n]);
      assert KeysOf(ps) == KeysOf(ps[..n]) + [ps[n].0];
    }
  }

  /** A prefix of an ascending list is ascending. */
  lemma {:induction false} AscendingInit<V>(ps: seq<(Key, V)>, n: nat)
    requires Ascending(KeysOf(ps)) && n <= |ps|
    ensures Ascending(KeysOf(ps[..n]))
  {
    assert KeysOf(ps[..n]) == KeysOf(ps)[..n];
  }

  /** An ascending list repeats no key. */
  lemma {:induction false} AscendingDistinct<V>(ps: seq<(Key, V)>, i: nat, j: nat)
    requires Ascending(KeysOf(ps)) && i < j < |ps|
    ensures ps[i].0 != ps[j].0
  {
    assert Less(KeysOf(ps)[i], KeysOf(ps)[j]);
    LessIrreflexive(ps[i].0);
  }

  /** In a list without duplicate keys, `ToMap` finds each pair's value. */
  lemma {:induction false} ToMapFinds<V>(ps: seq<(Key, V)>, i: nat)
    requires Ascending(KeysOf(ps))
    requires i < |ps|
    ensures ps[i].0 in ToMap(ps) && ToMap(ps)[ps[i].0] == ps[i].1
    decreases |ps|
  {
    var n := |ps| - 1;
    if i < n {
      var init := ps[..n];
      AscendingInit(ps, n);
      ToMapFinds(init, i);
      AscendingDistinct(ps, i, n);
      assert init[i] == ps[i];
    }
  }

  lemma {:induction false} ToMapFindsAll<V>(ps: seq<(Key, V)>)
    requires Ascending(KeysOf(ps))
    ensures forall i :: 0 <= i < |ps| ==> ps[i].0 in ToMap(ps) && ToMap(ps)[ps[i].0] == ps[i].1
  {
    forall i | 0 <= i < |ps|
      ensures ps[i].0 in ToMap(ps) && ToMap(ps)[ps[i].0] == ps[i].1
    {
      ToMapFinds(ps, i);
    }
  }

  /** `ToMap` of a TreeMap's entry list finds every entry. */
  lemma {:induction false} EntriesFound<V>(m: map<Key, V>)
    ensures forall i :: 0 <= i < |Entries(m)| ==>
      Entries(m)[i].0 in ToMap(Entries(m)) && ToMap(Entries(m))[Entries(m)[i].0] == Entries(m)[i].1
  {
    EntriesAscending(m);
    ToMapFindsAll(Entries(m));
  }

  /** Two maps with the same keys and the same value at each key are equal. */
  lemma {:induction false} MapsAgree<V>(a: map<Key, V>, b: map<Key, V>)
    requires forall k :: k in a <==> k in b
    requires forall k :: k in a ==> a[k] == b[k]
    ensures a == b
  {
  }

  /** Reading a TreeMap back from its entry list gives the same map. */
  lemma {:induction false} ToMapOfEntries<V>(m: map<Key, V>)
    ensures ToMap(Entries(m)) == m
  {
    var es := Entries(m);
    var r := ToMap(es);
    EntriesFound(m);
    ToMapKeys(es);
    forall k | k in m
      ensures k in r && r[k] == m[k]
    {
      assert k in KeysOf(es);
      var i :| 0 <= i < |es| && KeysOf(es)[i] == k;
      assert es[i].0 == k;
    }
    MapsAgree(r, m);
  }

  /** Listing a map built from an ascending list gives that list back. */
  lemma {:induction false} EntriesOfToMap<V>(ps: seq<(Key, V)>)
    requires Ascending(KeysOf(ps))
    ensures Entries(ToMap(ps)) == ps
  {
    var m := ToMap(ps);
    var es := Entries(m);
    EntriesAscending(m);
    ToMapKeys(ps);
    AscendingUnique(KeysOf(es), KeysOf(ps));
    forall i | 0 <= i < |ps|
      ensures es[i] == ps[i]
    {
      assert KeysOf(es)[i] == KeysOf(ps)[i];
      ToMapFinds(ps, i);
    }
  }
}
