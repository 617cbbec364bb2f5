/**
 The functional combinators of fuse over the sequence algebra: partial
 application (`apply`), `map`, `filter` and `reduce`.

 A template-template parameter becomes a function-typed parameter: a unary
 metafunction is `Elem -> Elem`, a predicate is `Elem -> bool`, a binary
 metafunction is `(Elem, Elem) -> Elem`, and a variadic one takes its
 argument pack as a `seq<Elem>`.
 */
module Functional {
  import opened Fuse

  // ---------------------------------------------------------------------
  // apply

  /** `apply<Func, Arg...>::type<Args...>`: `func` with the arguments `fixed`
      already supplied; the later arguments follow them, in order. Every
      call of `func` whose arguments start with `fixed` is a call of the
      partial function on the remaining arguments. */
  function Apply<R>(func: seq<Elem> -> R, fixed: seq<Elem>): (partial: seq<Elem> -> R)
    ensures forall args | fixed <= args :: partial(args[|fixed|..]) == func(args)
  {
    assert forall args | fixed <= args :: args == fixed + args[|fixed|..];
    rest => func(fixed + rest)
  }

  /** Fixing no arguments changes nothing, and fixing `a` and then `b` is
      the same as fixing `a + b` at once. */
  lemma ApplyComposes<R>(func: seq<Elem> -> R, a: seq<Elem>, b: seq<Elem>, rest: seq<Elem>)
    ensures Apply(func, [])(rest) == func(rest)
    ensures Apply(Apply(func, a), b)(rest) == Apply(func, a + b)(rest)
  {
    assert [] + rest == rest;
    assert a + (b + rest) == (a + b) + rest;
  }

  // ---------------------------------------------------------------------
  // map

  /** `map<Func, Seq>`: `f` applied to every element, same length, same
      order. */
  function Map(f: Elem -> Elem, s: Seq): (r: Seq)
    ensures Size(r) == Size(s)
    ensures forall i | 0 <= i < Size(s) :: Elements(r)[i] == f(Elements(s)[i])
  {
    match s
    case Empty => Empty
    case Cons(h, t) => Cons(f(h), Map(f, t))
  }

  /** `get` on a mapped sequence, with any valid index, positive or
      negative, reads `f` of the element at that index. */
  lemma MapGet(f: Elem -> Elem, s: Seq, i: int)
    requires -(Size(s) as int) <= i < Size(s)
    ensures Get(Map(f, s), i) == f(Get(s, i))
  {
  }

  /** `map` distributes over `concat`. */
  lemma {:induction false} MapConcat(f: Elem -> Elem, a: Seq, b: Seq)
    ensures Map(f, Concat(a, b)) == Concat(Map(f, a), Map(f, b))
  {
    match a
    case Empty =>
    case Cons(h, t) =>
      if b != Empty {
        MapConcat(f, t, b);
      }
  }

  // ---------------------------------------------------------------------
  // filter

  /** `sub` is `s` with some elements left out, the rest kept in order. */
  predicate Embeds(sub: Seq, s: Seq)
  {
    match (sub, s)
    case (Empty, _) => true
    case (Cons(_, _), Empty) => false
    case (Cons(h1, t1), Cons(h2, t2)) => (h1 == h2 && Embeds(t1, t2)) || Embeds(sub, t2)
  }

  /** `filter<Func, Seq>`: the elements of `s` for which `p` holds, each as
      often as in `s`, in their original order. */
  function Filter(p: Elem -> bool, s: Seq): (r: Seq)
    ensures Size(r) <= Size(s)
    ensures Embeds(r, s)
    ensures forall e :: multiset(Elements(r))[e] == if p(e) then multiset(Elements(s))[e] else 0
    ensures forall e :: e in Elements(r) <==> e in Elements(s) && p(e)
  {
    match s
    case Empty => Empty
    case Cons(h, t) =>
      if p(h) then Cons(h, Filter(p, t)) else Filter(p, t)
  }

  /** A predicate that holds of every element keeps the sequence whole (so
      an always-true predicate is the identity). */
  lemma {:induction false} FilterAllPass(p: Elem -> bool, s: Seq)
    requires forall e | e in Elements(s) :: p(e)
    ensures Filter(p, s) == s
  {
    match s
    case Empty =>
    case Cons(h, t) =>
      assert h in Elements(s);
      assert forall e | e in Elements(t) :: e in Elements(s);
      FilterAllPass(p, t);
  }

  /** A predicate that holds of no element leaves `empty_seq` (so an
      always-false predicate does). */
  lemma FilterNonePass(p: Elem -> bool, s: Seq)
    requires forall e | e in Elements(s) :: !p(e)
    ensures Filter(p, s) == Empty
  {
  }

  /** Filtering twice by the same predicate is filtering once. */
  lemma FilterIdempotent(p: Elem -> bool, s: Seq)
    ensures Filter(p, Filter(p, s)) == Filter(p, s)
  {
    FilterAllPass(p, Filter(p, s));
  }

  /** `filter` distributes over `concat`. */
  lemma {:induction false} FilterConcat(p: Elem -> bool, a: Seq, b: Seq)
    ensures Filter(p, Concat(a, b)) == Concat(Filter(p, a), Filter(p, b))
  {
    match a
    case Empty =>
    case Cons(h, t) =>
      if b == Empty {
        ConcatIdentity(Filter(p, a));
      } else {
        FilterConcat(p, t, b);
      }
  }

  /** The elision done by `make_seq` is a filter that keeps every type
      other than `empty_seq`, applied to the arguments nested as written. */
  lemma {:induction false} MakeSeqIsFilter(args: seq<Elem>)
    requires |args| >= 1
    ensures MakeSeq(args) == Filter(e => e != EmptySeqElem, FromElements(args))
    decreases |args|
  {
    assert FromElements(args) == Cons(args[0], FromElements(args[1..]));
    if |args| == 1 {
      assert FromElements(args[1..]) == Empty;
    } else {
      MakeSeqIsFilter(args[1..]);
    }
  }

  // ---------------------------------------------------------------------
  // reduce

  /** Right fold of `xs` onto the seed `z`: `f(x0, f(x1, ... f(xn, z)))`. */
  function FoldRight(f: (Elem, Elem) -> Elem, xs: seq<Elem>, z: Elem): Elem
  {
    if xs == [] then z else f(xs[0], FoldRight(f, xs[1..], z))
  }

  /** Left fold of `xs` onto the seed `z`: `f(f(f(z, x0), x1) ... xn)`. */
  function FoldLeft(f: (Elem, Elem) -> Elem, z: Elem, xs: seq<Elem>): Elem
    decreases |xs|
  {
    if xs == [] then z else FoldLeft(f, f(z, xs[0]), xs[1..])
  }

  /** `reduce<Func, Seq>` on a sequence of at least two types: the last
      element seeds a right fold of the others, so `[a, b, c]` gives
      `f(a, f(b, c))`. Fewer than two elements fails to compile. */
  function Reduce(f: (Elem, Elem) -> Elem, s: Seq): (r: Elem)
    requires Size(s) >= 2
    ensures r == FoldRight(f, Elements(s)[..Size(s) - 1], Elements(s)[Size(s) - 1])
  {
    var h, t := s.head, s.tail;
    var xs := Elements(s);
    assert xs == [h] + Elements(t);
    if Size(t) == 1 then
      assert xs[..1] == [h];
      assert [h][1..] == [];
      f(h, t.head)
    else
      assert xs[..Size(s) - 1] == [h] + Elements(t)[..Size(t) - 1];
      assert ([h] + Elements(t)[..Size(t) - 1])[1..] == Elements(t)[..Size(t) - 1];
      f(h, Reduce(f, t))
  }

  /** On exactly two elements `reduce` is one application of `f`; on three
      it nests to the right. */
  lemma ReduceNesting(f: (Elem, Elem) -> Elem, a: Elem, b: Elem, c: Elem)
    ensures Reduce(f, Cons(a, Cons(b, Empty))) == f(a, b)
    ensures Reduce(f, Cons(a, Cons(b, Cons(c, Empty)))) == f(a, f(b, c))
  {
  }

  /** `f` is associative. */
  ghost predicate Associative(f: (Elem, Elem) -> Elem)
  {
    forall x, y, z :: f(f(x, y), z) == f(x, f(y, z))
  }

  /** Under an associative `f`, combining `h` in front of a left fold is
      the same as folding from `f(h, z)`. */
  lemma {:induction false} FoldLeftShift(f: (Elem, Elem) -> Elem, h: Elem, z: Elem, xs: seq<Elem>)
    requires Associative(f)
    ensures f(h, FoldLeft(f, z, xs)) == FoldLeft(f, f(h, z), xs)
    decreases |xs|
  {
    if xs != [] {
      FoldLeftShift(f, h, f(z, xs[0]), xs[1..]);
      assert f(h, f(z, xs[0])) == f(f(h, z), xs[0]);
    }
  }

  /** The right-nested `reduce` agrees with a left fold seeded by the
      first element whenever `f` is associative. */
  lemma {:induction false} ReduceIsLeftFoldWhenAssociative(f: (Elem, Elem) -> Elem, s: Seq)
    requires Size(s) >= 2
    requires Associative(f)
    ensures Reduce(f, s) == FoldLeft(f, s.head, Elements(s.tail))
  {
    var t := s.tail;
    assert Elements(t) == [t.head] + Elements(t.tail);
    if Size(t) == 1 {
      assert Elements(t)[1..] == [];
    } else {
      ReduceIsLeftFoldWhenAssociative(f, t);
      FoldLeftShift(f, s.head, t.head, Elements(t.tail));
    }
  }

  /** For a non-associative `f` the nesting matters: with `f(x, y)` giving
      `long` when `x` is `int` and `y` otherwise, `reduce` over
      `[int, char, bool]` is `long` while a left fold would give `bool`. */
  lemma ReduceIsNotLeftFold()
    ensures var f := (x: Elem, y: Elem) => if x == Ty("int") then Ty("long") else y;
            var s := Cons(Ty("int"), Cons(Ty("char"), Cons(Ty("bool"), Empty)));
            Reduce(f, s) == Ty("long") && FoldLeft(f, s.head, Elements(s.tail)) == Ty("bool")
  {
    var f := (x: Elem, y: Elem) => if x == Ty("int") then Ty("long") else y;
    var rest := [Ty("char"), Ty("bool")];
    assert rest[1..] == [Ty("bool")];
    assert [Ty("bool")][1..] == [];
    assert FoldLeft(f, Ty("int"), rest) == FoldLeft(f, Ty("char"), [Ty("bool")]);
  }
}
