/** Facts about concatenation and slicing of sequences, stated once over any
    element type and used as proof steps by the task's loops and lemmas. */
module SeqFacts {

  /** Regrouping a four-way concatenation. */
  lemma AppendAssoc<T>(a: seq<T>, b: seq<T>, c: seq<T>, d: seq<T>)
    ensures a + b + c + d == a + (b + c + d)
  {
  }

  /** Regrouping a three-way concatenation. */
  lemma Assoc<T>(a: seq<T>, b: seq<T>, c: seq<T>)
    ensures a + (b + c) == (a + b) + c
  {
  }

  /** The empty sequence is a left unit of concatenation. */
  lemma EmptyAppend<T>(b: seq<T>)
    ensures [] + b == b
  {
  }

  /** Dropping the head of a concatenation with a non-empty left side. */
  lemma TailOfAppend<T>(a: seq<T>, b: seq<T>)
    requires a != []
    ensures (a + b)[0] == a[0] && (a + b)[1..] == a[1..] + b
  {
  }

  /** The empty sequence is a right unit of concatenation. */
  lemma AppendEmpty<T>(a: seq<T>)
    ensures a + [] == a
  {
  }

  /** A non-empty sequence is its head followed by its tail. */
  lemma ConsTail<T>(s: seq<T>)
    requires s != []
    ensures [s[0]] + s[1..] == s
  {
  }

  /** Two singletons of one element make the pair of it. */
  lemma PairAppend<T>(x: T)
    ensures [x] + [x] == [x, x]
  {
  }

  /** The whole of a sequence as a slice, and its empty tail. */
  lemma SliceEnds<T>(s: seq<T>)
    ensures s[0..] == s && s[|s|..] == []
  {
  }

  /** What a prefix of `a + b` holds beyond `a` comes from `b`. */
  lemma PrefixTail<T>(a: seq<T>, b: seq<T>, c: seq<T>)
    requires c <= a + b && |a| <= |c|
    ensures forall k :: |a| <= k < |c| ==> c[k] in b
  {
    forall k | |a| <= k < |c| ensures c[k] in b {
      assert c[k] == (a + b)[k] == b[k - |a|];
    }
  }
}
