/**
 The sequence algebra of fuse: compile-time lists of C++ types, written as
 `empty_seq` and `seq<Head, Tail>`, with the normalising constructor
 `make_seq` and the operations `equal`, `size`, `concat` and `get`.

 Each class template of the library is a pure recursive function here; a
 template instantiation that the compiler rejects is a call whose
 `requires` clause does not hold.
 */
module Fuse {

  /** One type argument. `EmptySeqElem` is `empty_seq` (under any alias)
      passed where an element is expected, the only type `make_seq` treats
      specially. Every other type is an opaque atom `Ty(name)`, where `name`
      is a canonical name for that type: two spellings of one C++ type (an
      alias, `std::size_t` and the type it names) share one `name`, and no
      `name` stands for `empty_seq`. */
  datatype Elem = EmptySeqElem | Ty(name: string)

  /** `empty_seq` and `seq<Head, Tail>`. The tail being a sequence, which
      the library checks with a `static_assert`, holds by construction.
      `Tail` defaults to `empty_seq`, so `seq<int>` is
      `Cons(Ty("int"), Empty)`. */
  datatype Seq = Empty | Cons(head: Elem, tail: Seq)

  /** The elements of `s` from front to back: the abstract view in which
      the contracts below are stated. */
  function Elements(s: Seq): seq<Elem>
  {
    match s
    case Empty => []
    case Cons(h, t) => [h] + Elements(t)
  }

  /** The nested `seq<x0, seq<x1, ... empty_seq>>` written out for `xs`,
      with no elision. */
  function FromElements(xs: seq<Elem>): (s: Seq)
    ensures Elements(s) == xs
  {
    if xs == [] then Empty else Cons(xs[0], FromElements(xs[1..]))
  }

  /** A sequence is determined by its elements. */
  lemma {:induction false} ElementsInjective(a: Seq, b: Seq)
    requires Elements(a) == Elements(b)
    ensures a == b
  {
    match (a, b)
    case (Empty, Empty) =>
    case (Cons(ha, ta), Cons(hb, tb)) =>
      assert Elements(a)[1..] == Elements(ta);
      assert Elements(b)[1..] == Elements(tb);
      ElementsInjective(ta, tb);
    case (Empty, Cons(_, _)) =>
    case (Cons(_, _), Empty) =>
  }

  /** Rebuilding a sequence from its elements gives the sequence back. */
  lemma FromElementsOfElements(s: Seq)
    ensures FromElements(Elements(s)) == s
  {
    ElementsInjective(FromElements(Elements(s)), s);
  }

  // ---------------------------------------------------------------------
  // make_seq

  /** The arguments that are not `empty_seq`, in their original order. This
      reference definition peels arguments off the back, so it is
      independent of the front-to-back recursion of `MakeSeq`. */
  function NonEmpty(args: seq<Elem>): seq<Elem>
  {
    if args == [] then []
    else
      var last := args[|args| - 1];
      NonEmpty(args[..|args| - 1]) + (if last == EmptySeqElem then [] else [last])
  }

  /** Eliding from the back agrees with eliding from the front. */
  lemma {:induction false} NonEmptyCons(x: Elem, xs: seq<Elem>)
    ensures NonEmpty([x] + xs) == (if x == EmptySeqElem then [] else [x]) + NonEmpty(xs)
    decreases |xs|
  {
    if xs == [] {
      assert ([x] + xs)[..0] == [];
    } else {
      var ys := [x] + xs;
      assert ys[..|ys| - 1] == [x] + xs[..|xs| - 1];
      assert ys[|ys| - 1] == xs[|xs| - 1];
      NonEmptyCons(x, xs[..|xs| - 1]);
    }
  }

  /** `make_seq<Args...>`: a sequence of its (at least one) arguments, in
      order, where every argument that is exactly `empty_seq` is dropped.
      A lone `empty_seq` gives `empty_seq`; a lone other type `T` gives
      `seq<T, empty_seq>`. */
  function MakeSeq(args: seq<Elem>): (s: Seq)
    requires |args| >= 1
    ensures Elements(s) == NonEmpty(args)
    ensures EmptySeqElem !in Elements(s)
    ensures Size(s) == |args| - multiset(args)[EmptySeqElem]
  {
    assert args == [args[0]] + args[1..];
    NonEmptyCons(args[0], args[1..]);
    if |args| == 1 then
      (if args[0] == EmptySeqElem then Empty else Cons(args[0], Empty))
    else if args[0] == EmptySeqElem then
      MakeSeq(args[1..])
    else
      Cons(args[0], MakeSeq(args[1..]))
  }

  /** `make_seq` gives `empty_seq` exactly when every argument is
      `empty_seq`. */
  lemma {:induction false} MakeSeqEmptyIff(args: seq<Elem>)
    requires |args| >= 1
    ensures MakeSeq(args) == Empty <==> forall i | 0 <= i < |args| :: args[i] == EmptySeqElem
    decreases |args|
  {
    if |args| > 1 {
      MakeSeqEmptyIff(args[1..]);
      assert forall i | 1 <= i < |args| :: args[i] == args[1..][i - 1];
    }
  }

  /** Two argument lists that agree once `empty_seq` is dropped build the
      same sequence, e.g. `make_seq<empty_seq, int, empty_seq, bool,
      empty_seq>` and `make_seq<int, bool>`. */
  lemma MakeSeqIgnoresEmpty(args: seq<Elem>, args': seq<Elem>)
    requires |args| >= 1 && |args'| >= 1
    requires NonEmpty(args) == NonEmpty(args')
    ensures MakeSeq(args) == MakeSeq(args')
  {
    ElementsInjective(MakeSeq(args), MakeSeq(args'));
  }

  /** A sequence without `empty_seq` elements is rebuilt by `make_seq` from
      its own elements. */
  lemma {:induction false} MakeSeqOfElements(s: Seq)
    requires s != Empty
    requires EmptySeqElem !in Elements(s)
    ensures MakeSeq(Elements(s)) == s
  {
    match s
    case Cons(h, t) =>
      assert Elements(s)[1..] == Elements(t);
      if t != Empty {
        assert EmptySeqElem !in Elements(t);
        MakeSeqOfElements(t);
      }
  }

  // ---------------------------------------------------------------------
  // equal and size

  /** `size<Seq>`: the number of elements. */
  function Size(s: Seq): (n: nat)
    ensures n == |Elements(s)|
    ensures n == 0 <==> s == Empty
  {
    match s
    case Empty => 0
    case Cons(_, t) => Size(t) + 1
  }

  /** `equal<Seq1, Seq2>`: true exactly when the two sequences hold the
      same types at every position and have the same length. */
  function Equal(s1: Seq, s2: Seq): (b: bool)
    ensures b <==> s1 == s2
    ensures Size(s1) != Size(s2) ==> !b
  {
    match (s1, s2)
    case (Empty, Empty) => true
    case (Cons(_, _), Empty) => false
    case (Empty, Cons(_, _)) => false
    case (Cons(h1, t1), Cons(h2, t2)) => h1 == h2 && Equal(t1, t2)
  }

  /** `equal` is an equivalence: reflexive, symmetric and transitive. */
  lemma EqualIsEquivalence(a: Seq, b: Seq, c: Seq)
    ensures Equal(a, a)
    ensures Equal(a, b) == Equal(b, a)
    ensures Equal(a, b) && Equal(b, c) ==> Equal(a, c)
  {
  }

  // ---------------------------------------------------------------------
  // concat

  /** `concat<Seq1, Seq2>`: the elements of `s1` followed by those of `s2`,
      nothing dropped or reordered. The library lists `empty_seq` on
      either side as its own case; `s2` is never taken apart. */
  function Concat(s1: Seq, s2: Seq): (r: Seq)
    ensures Elements(r) == Elements(s1) + Elements(s2)
    ensures Size(r) == Size(s1) + Size(s2)
  {
    match (s1, s2)
    case (Empty, Empty) => Empty
    case (Empty, Cons(_, _)) => s2
    case (Cons(_, _), Empty) => s1
    case (Cons(h, t), Cons(_, _)) => Cons(h, Concat(t, s2))
  }

  /** `empty_seq` is a left and a right identity of `concat`. */
  lemma ConcatIdentity(s: Seq)
    ensures Concat(Empty, s) == s
    ensures Concat(s, Empty) == s
  {
  }

  /** `concat` is associative. */
  lemma {:induction false} ConcatAssociative(a: Seq, b: Seq, c: Seq)
    ensures Concat(Concat(a, b), c) == Concat(a, Concat(b, c))
  {
    match a
    case Empty =>
    case Cons(h, t) =>
      if b == Empty {
      } else if c == Empty {
      } else {
        ConcatAssociative(t, b, c);
      }
  }

  // ---------------------------------------------------------------------
  // get

  /** `get<Seq, Index>`: index 0 is the head, a positive index walks down
      the tail, and a negative index is first turned into `size + Index`.
      Every index outside `-size .. size-1` (and so every index into
      `empty_seq`) fails to compile. */
  function Get(s: Seq, i: int): (e: Elem)
    requires -(Size(s) as int) <= i < Size(s)
    ensures e == Elements(s)[if i < 0 then Size(s) + i else i]
    ensures e in Elements(s)
    decreases s, if i < 0 then 1 else 0
  {
    if i == 0 then s.head
    else if i > 0 then Get(s.tail, i - 1)
    else Get(s, Size(s) + i)
  }

  /** A negative index counts from the end: `i - size` and `i` name the same
      element. */
  lemma GetNegativeIndex(s: Seq, i: int)
    requires 0 <= i < Size(s)
    ensures Get(s, i - Size(s)) == Get(s, i)
  {
  }

  /** The last element of a non-empty sequence, found by walking the
      tails. */
  function Last(s: Seq): Elem
    requires s != Empty
  {
    if s.tail == Empty then s.head else Last(s.tail)
  }

  /** `get<Seq, -1>` is the last element. */
  lemma {:induction false} GetMinusOneIsLast(s: Seq)
    requires s != Empty
    ensures Get(s, -1) == Last(s)
  {
    if s.tail != Empty {
      GetMinusOneIsLast(s.tail);
      assert Elements(s) == [s.head] + Elements(s.tail);
    }
  }

  /** Reading every position with `get` lists the elements in order. */
  lemma GetListsElements(s: Seq)
    ensures seq(Size(s), i requires 0 <= i < Size(s) => Get(s, i)) == Elements(s)
  {
  }

  /** Reading every position with `get` by its negative index lists the
      elements in order too. */
  lemma GetNegativeListsElements(s: Seq)
    ensures seq(Size(s), i requires 0 <= i < Size(s) => Get(s, i - Size(s))) == Elements(s)
  {
    var n := Size(s);
    var es := Elements(s);
    var xs := seq(n, i requires 0 <= i < n => Get(s, i - n));
    assert |xs| == |es|;
    forall i | 0 <= i < n
      ensures xs[i] == es[i]
    {
      assert xs[i] == Get(s, i - n);
    }
    assert xs == es;
  }

  /** Reading every position with `get`, by non-negative or by negative
      indices, and nesting the results gives the sequence back; through
      `make_seq` too, when no element is `empty_seq`. */
  lemma RebuildFromGet(s: Seq)
    ensures FromElements(seq(Size(s), i requires 0 <= i < Size(s) => Get(s, i))) == s
    ensures FromElements(seq(Size(s), i requires 0 <= i < Size(s) => Get(s, i - Size(s)))) == s
    ensures s != Empty && EmptySeqElem !in Elements(s) ==>
              MakeSeq(seq(Size(s), i requires 0 <= i < Size(s) => Get(s, i))) == s
    ensures s != Empty && EmptySeqElem !in Elements(s) ==>
              MakeSeq(seq(Size(s), i requires 0 <= i < Size(s) => Get(s, i - Size(s)))) == s
  {
    GetListsElements(s);
    GetNegativeListsElements(s);
    FromElementsOfElements(s);
    if s != Empty && EmptySeqElem !in Elements(s) {
      MakeSeqOfElements(s);
    }
  }
}
