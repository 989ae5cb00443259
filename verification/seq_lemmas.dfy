/** Facts about sequence concatenation, stated once for any element type.
    On sequences of strings or of datatypes the solver otherwise compares
    the elements as well, which is far more expensive. */
module SeqLemmas {

  /** Dropping the head of a concatenation. */
  lemma DropFirstAppend<T>(a: seq<T>, b: seq<T>)
    requires a != []
    ensures (a + b)[0] == a[0] && (a + b)[1..] == a[1..] + b
  {
  }

  lemma HeadTail<T>(a: seq<T>)
    requires a != []
    ensures a == [a[0]] + a[1..]
  {
  }

  /** Indexing into a concatenation. */
  lemma AppendIndex<T>(a: seq<T>, b: seq<T>)
    ensures |a + b| == |a| + |b|
    ensures (a + b)[..|a|] == a
    ensures forall i :: 0 <= i < |a| ==> (a + b)[i] == a[i]
    ensures forall i :: 0 <= i < |b| ==> (a + b)[|a| + i] == b[i]
  {
  }

  lemma AppendAssoc<T>(a: seq<T>, b: seq<T>, c: seq<T>)
    ensures (a + b) + c == a + (b + c)
  {
  }

  /** Indexing into `[x, y] + rest` past the pair. */
  lemma PairIndex<T>(x: T, y: T, rest: seq<T>, j: nat)
    requires 2 <= j < 2 + |rest|
    ensures ([x, y] + rest)[j] == rest[j - 2]
  {
  }

  /** Splitting `a + [x] + b` at its head. */
  lemma SplitHead<T>(a: seq<T>, x: T, b: seq<T>)
    ensures a == [] ==> (a + [x] + b)[0] == x && (a + [x] + b)[1..] == b
    ensures a != [] ==> (a + [x] + b)[0] == a[0] && (a + [x] + b)[1..] == a[1..] + [x] + b
  {
  }

  /** `a + b + (c + d + e + f)` read as the head `a + b + c + d` followed
      by `e + f`: both `a` and the head are prefixes, and the whole is the
      head when `e` and `f` are empty. */
  lemma HeadOfSix<T>(a: seq<T>, b: seq<T>, c: seq<T>, d: seq<T>, e: seq<T>, f: seq<T>)
    ensures var whole, head := a + b + (c + d + e + f), a + b + c + d;
            whole == head + (e + f)
            && |a| <= |whole| && whole[..|a|] == a
            && |head| <= |whole| && whole[..|head|] == head
            && (e == [] && f == [] ==> whole == head)
  {
    var whole, head := a + b + (c + d + e + f), a + b + c + d;
    assert whole == head + (e + f);
    assert head == a + (b + c + d);
    assert whole[..|a|] == a by {
      assert whole == a + (b + c + d + (e + f));
    }
  }

  /** Equal sequences after a common prefix are equal. */
  lemma PrefixCancel<T>(p: seq<T>, a: seq<T>, b: seq<T>)
    ensures p + a == p + b ==> a == b
  {
    assert (p + a)[|p|..] == a && (p + b)[|p|..] == b;
  }
}
