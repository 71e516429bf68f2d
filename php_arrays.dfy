/** PHP's ordered arrays, reduced to what the certificate task needs: a sequence
    of key/value entries and the key-preserving union operator `$a + $b`. */
module PhpArrays {

  datatype Entry<V> = Entry(key: int, value: V)

  /** The keys used by an array, as `array_keys` would list them. */
  function Keys<V(==)>(a: seq<Entry<V>>): set<int> {
    set e | e in a :: e.key
  }

  /** The values in iteration order, as `foreach ($a as $v)` visits them. */
  function Values<V>(a: seq<Entry<V>>): (r: seq<V>)
    ensures |r| == |a|
    ensures forall i :: 0 <= i < |a| ==> r[i] == a[i].value
  {
    if a == [] then [] else [a[0].value] + Values(a[1..])
  }

  /** The entries of `b` whose key is not in `ks`, in their order. */
  function Unclaimed<V(==,!new)>(b: seq<Entry<V>>, ks: set<int>): (r: seq<Entry<V>>)
    ensures forall e :: e in r <==> e in b && e.key !in ks
    ensures forall e :: multiset(r)[e] == if e.key in ks then 0 else multiset(b)[e]
  {
    if b == [] then []
    else
      var last := b[|b| - 1];
      assert b == b[..|b| - 1] + [last];
      Unclaimed(b[..|b| - 1], ks) + (if last.key in ks then [] else [last])
  }

  /** The positions of `b` whose key is not in `ks`, in increasing order. */
  function FreshPositions<V>(b: seq<Entry<V>>, ks: set<int>): seq<nat> {
    if b == [] then []
    else FreshPositions(b[..|b| - 1], ks) + (if b[|b| - 1].key in ks then [] else [|b| - 1])
  }

  /** The fresh positions are positions of `b` whose key is not in `ks`, and
      they increase strictly, so each one occurs once. */
  lemma {:induction false} FreshPositionsSound<V>(b: seq<Entry<V>>, ks: set<int>)
    ensures forall i :: 0 <= i < |FreshPositions(b, ks)| ==>
      FreshPositions(b, ks)[i] < |b| && b[FreshPositions(b, ks)[i]].key !in ks
    ensures forall i, j :: 0 <= i < j < |FreshPositions(b, ks)| ==> FreshPositions(b, ks)[i] < FreshPositions(b, ks)[j]
  {
    if b != [] {
      var front := b[..|b| - 1];
      FreshPositionsSound(front, ks);
      var f' := FreshPositions(front, ks);
      forall i | 0 <= i < |f'| ensures b[f'[i]] == front[f'[i]] {
      }
    }
  }

  /** Every position of `b` whose key is not in `ks` is a fresh position. */
  lemma {:induction false} FreshPositionsComplete<V>(b: seq<Entry<V>>, ks: set<int>)
    ensures forall p :: 0 <= p < |b| && b[p].key !in ks ==> p in FreshPositions(b, ks)
  {
    if b != [] {
      var front := b[..|b| - 1];
      FreshPositionsComplete(front, ks);
      forall p | 0 <= p < |b| - 1 && b[p].key !in ks ensures p in FreshPositions(b, ks) {
        assert front[p] == b[p];
      }
    }
  }

  /** The last step of `Unclaimed` and `FreshPositions` on a non-empty `b`:
      both keep what they found in the front, position for position. */
  lemma UnclaimedSnoc<V(!new)>(b: seq<Entry<V>>, ks: set<int>)
    requires b != []
    ensures var front := b[..|b| - 1];
      var d := if b[|b| - 1].key in ks then 0 else 1;
      && |Unclaimed(b, ks)| == |Unclaimed(front, ks)| + d
      && |FreshPositions(b, ks)| == |FreshPositions(front, ks)| + d
      && (forall i :: 0 <= i < |Unclaimed(front, ks)| ==> Unclaimed(b, ks)[i] == Unclaimed(front, ks)[i])
      && (forall i :: 0 <= i < |FreshPositions(front, ks)| ==> FreshPositions(b, ks)[i] == FreshPositions(front, ks)[i])
      && (d == 1 ==> (Unclaimed(b, ks)[|Unclaimed(front, ks)|] == b[|b| - 1]
                      && FreshPositions(b, ks)[|FreshPositions(front, ks)|] == |b| - 1))
  {
    var front, last := b[..|b| - 1], b[|b| - 1];
    assert Unclaimed(b, ks) == Unclaimed(front, ks) + (if last.key in ks then [] else [last]);
  }

  /** `Unclaimed` lists exactly the entries at the fresh positions, in order. */
  lemma {:induction false} UnclaimedInOrder<V(!new)>(b: seq<Entry<V>>, ks: set<int>)
    ensures |Unclaimed(b, ks)| == |FreshPositions(b, ks)|
    ensures forall i :: 0 <= i < |FreshPositions(b, ks)| ==>
      FreshPositions(b, ks)[i] < |b| && Unclaimed(b, ks)[i] == b[FreshPositions(b, ks)[i]]
  {
    FreshPositionsSound(b, ks);
    if b != [] {
      var front := b[..|b| - 1];
      UnclaimedInOrder(front, ks);
      UnclaimedSnoc(b, ks);
      var r, f := Unclaimed(b, ks), FreshPositions(b, ks);
      var f' := FreshPositions(front, ks);
      forall i | 0 <= i < |f'| ensures r[i] == b[f[i]] {
        assert front[f'[i]] == b[f'[i]];
      }
    }
  }

  /** `$a + $b`: every entry of `a` in place, then each entry of `b` whose key
      `a` does not already use, once and in `b`'s order; on a shared key the
      left value wins. */
  function Union<V(==,!new)>(a: seq<Entry<V>>, b: seq<Entry<V>>): (r: seq<Entry<V>>)
    ensures a <= r
    ensures Keys(r) == Keys(a) + Keys(b)
    ensures forall e :: e in r[|a|..] <==> e in b && e.key !in Keys(a)
    ensures forall e :: multiset(r[|a|..])[e] == if e.key in Keys(a) then 0 else multiset(b)[e]
  {
    var r := a + Unclaimed(b, Keys(a));
    assert r[|a|..] == Unclaimed(b, Keys(a));
    r
  }

  /** The entries `$a + $b` appends are those of `b` at the positions whose key
      `a` does not use, in increasing order of position. */
  lemma UnionInOrder<V(!new)>(a: seq<Entry<V>>, b: seq<Entry<V>>)
    ensures |Union(a, b)| == |a| + |FreshPositions(b, Keys(a))|
    ensures forall i :: 0 <= i < |FreshPositions(b, Keys(a))| ==>
      FreshPositions(b, Keys(a))[i] < |b| && Union(a, b)[|a| + i] == b[FreshPositions(b, Keys(a))[i]]
  {
    UnclaimedInOrder(b, Keys(a));
    var t := Unclaimed(b, Keys(a));
    assert Union(a, b) == a + t;
    forall i | 0 <= i < |t| ensures (a + t)[|a| + i] == t[i] {
    }
  }

  /** Values of a concatenation are the concatenated values. */
  lemma {:induction false} ValuesAppend<V>(a: seq<Entry<V>>, b: seq<Entry<V>>)
    ensures Values(a + b) == Values(a) + Values(b)
  {
    var l, r := Values(a + b), Values(a) + Values(b);
    assert |l| == |r|;
    forall i | 0 <= i < |l| ensures l[i] == r[i] {
      if i < |a| {
        assert (a + b)[i] == a[i];
      } else {
        assert (a + b)[i] == b[i - |a|];
      }
    }
  }

  /** What `foreach ($a + $b as $v)` visits: the values of `a` first, then the
      value of every entry of `b` whose key `a` does not use, and nothing else. */
  lemma UnionValues<V(!new)>(a: seq<Entry<V>>, b: seq<Entry<V>>)
    ensures Values(a) <= Values(Union(a, b))
    ensures forall e :: e in b && e.key !in Keys(a) ==> e.value in Values(Union(a, b))
    ensures forall v :: v in Values(Union(a, b)) ==>
      v in Values(a) || exists e :: e in b && e.key !in Keys(a) && e.value == v
  {
    var tail := Unclaimed(b, Keys(a));
    var u := a + tail;
    assert Union(a, b) == u;
    ValuesAppend(a, tail);
    var vs := Values(u);
    assert vs == Values(a) + Values(tail);
    forall e | e in b && e.key !in Keys(a) ensures e.value in vs {
      assert e in tail;
      var k :| 0 <= k < |tail| && tail[k] == e;
      assert vs[|a| + k] == Values(tail)[k] == e.value;
    }
    forall v | v in vs
      ensures v in Values(a) || exists e :: e in b && e.key !in Keys(a) && e.value == v
    {
      if v !in Values(a) {
        assert v in Values(tail);
        var k :| 0 <= k < |tail| && Values(tail)[k] == v;
        assert tail[k] in tail;
      }
    }
  }

  /** `foreach ($a + $b as $v)` visits the values of `a`, then the value at
      each fresh position of `b`, once each and in `b`'s order. */
  lemma UnionValuesInOrder<V(!new)>(a: seq<Entry<V>>, b: seq<Entry<V>>)
    ensures |Values(Union(a, b))| == |a| + |FreshPositions(b, Keys(a))|
    ensures forall i :: 0 <= i < |a| ==> Values(Union(a, b))[i] == a[i].value
    ensures forall i :: 0 <= i < |FreshPositions(b, Keys(a))| ==>
      FreshPositions(b, Keys(a))[i] < |b| && Values(Union(a, b))[|a| + i] == b[FreshPositions(b, Keys(a))[i]].value
  {
    UnionInOrder(a, b);
    var u, f := Union(a, b), FreshPositions(b, Keys(a));
    forall i | 0 <= i < |f| ensures Values(u)[|a| + i] == b[f[i]].value {
      assert u[|a| + i] == b[f[i]];
    }
  }
}
