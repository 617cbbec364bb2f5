# fuse, modelled in Dafny

fuse is a C++ header library of compile-time lists of types. A list is
`empty_seq` or `seq<Head, Tail>`. The library builds lists with `make_seq`,
which drops every `empty_seq` argument, and inspects and combines them with
`equal`, `size`, `concat` and `get`. The last one also accepts negative
indices, counted from the end. On top of these it offers the combinators
`apply` (partial application), `map`, `filter` and `reduce`.

Each class template becomes a pure recursive Dafny function over an
immutable datatype, and each template specialisation becomes a branch:

- `fuse.dfy`, module `Fuse`, models `fuse/fuse.hpp`. It holds
  `Elem` (a type argument: `EmptySeqElem` for `empty_seq` itself, any
  other type as an opaque `Ty(name)`), `Seq = Empty | Cons(head, tail)`,
  and `MakeSeq`, `Equal`, `Size`, `Concat` and `Get`.
- `functional.dfy`, module `Functional`, models `fuse/functional.hpp`.
  It holds `Apply`, `Map`, `Filter` and `Reduce`. Template-template
  parameters become function-typed parameters: `Elem -> Elem`,
  `Elem -> bool` and `(Elem, Elem) -> Elem`. A variadic pack becomes a
  `seq<Elem>`.

The contracts are stated against independent reference definitions:

- `Elements`: the list as a Dafny `seq<Elem>`.
- `NonEmpty`: the arguments without `empty_seq`, peeled from the back.
- `Embeds`: "is an order-preserving sub-list of".
- `FoldRight` and `FoldLeft` over `seq<Elem>`.

Instantiations that the compiler rejects are preconditions. This covers
`make_seq<>` with no arguments, `get` with an index outside
`-size .. size-1` (which includes any index into `empty_seq`), and `reduce`
over fewer than two elements.

Only `MakeSeq` elides `EmptySeqElem`. `Concat`, `Map` and `Filter` build
`Cons` cells directly, as the library writes `seq<...>` directly
(fuse/fuse.hpp:160, fuse/functional.hpp:30 and 75), so none of them elides
an `empty_seq` it places in the result. `Concat` keeps every element of
both inputs. `Map` keeps `F`'s result even when that result is `empty_seq`.
`Filter` keeps an `empty_seq` element when `P` holds of it. An `empty_seq`
in the input is otherwise treated like any other element: `Map` replaces
it with `F` of it, and `Filter` drops it when `P` is false of it.

The doc comment of `reduce` calls it "left reducing", but the code nests to
the right: `[a, b, c]` gives `F(a, F(b, c))`. The model follows the code.
`Functional.ReduceIsLeftFoldWhenAssociative` shows the two agree when `F`
is associative. `Functional.ReduceIsNotLeftFold` gives a non-associative
`F` on which they differ.

## Model

| member | source | states |
|---|---|---|
| Fuse.MakeSeq | fuse/fuse.hpp:55-81 | needs at least one argument; the result's elements are exactly the non-`empty_seq` arguments in order, it never contains `empty_seq`, and its size is the argument count minus the `empty_seq` count |
| Fuse.MakeSeqEmptyIff | fuse/fuse.hpp:55-81 | `make_seq` gives `empty_seq` exactly when every argument is `empty_seq` (a lone `empty_seq` included) |
| Fuse.MakeSeqIgnoresEmpty | fuse/fuse.hpp:48-81 | two argument lists that agree once `empty_seq` is dropped build the same sequence (e.g. `make_seq<empty_seq, int, empty_seq, bool, empty_seq>` equals `make_seq<int, bool>`) |
| Fuse.MakeSeqOfElements | fuse/fuse.hpp:55-81 | `make_seq` applied to the elements of a non-empty sequence without `empty_seq` elements gives that sequence back |
| Fuse.NonEmptyCons | fuse/fuse.hpp:60-64 | dropping `empty_seq` from the back agrees with the head-first rule of `make_seq` (drop the head if it is `empty_seq`, keep it otherwise) |
| Fuse.FromElements | fuse/fuse.hpp:32-46 | nesting `seq<x0, seq<x1, ... empty_seq>>` by hand, with no elision, has exactly the given elements |
| Fuse.ElementsInjective | fuse/fuse.hpp:32-46 | two sequences with the same elements are the same sequence |
| Fuse.FromElementsOfElements | fuse/fuse.hpp:32-46 | nesting a sequence's own elements rebuilds the sequence |
| Fuse.Size | fuse/fuse.hpp:128-148 | the size is the number of elements, and it is 0 exactly for `empty_seq` |
| Fuse.Equal | fuse/fuse.hpp:88-121 | `equal` holds iff the two sequences are identical, and is false whenever the sizes differ (either side empty included) |
| Fuse.EqualIsEquivalence | fuse/fuse.hpp:88-121 | `equal` is reflexive, symmetric and transitive |
| Fuse.Concat | fuse/fuse.hpp:155-186 | the result's elements are those of the first sequence followed by those of the second, and its size is the sum of the sizes |
| Fuse.ConcatIdentity | fuse/fuse.hpp:167-186 | `empty_seq` is a left and a right identity of `concat` |
| Fuse.ConcatAssociative | fuse/fuse.hpp:155-186 | `concat` is associative |
| Fuse.Get | fuse/fuse.hpp:188-215 | accepts exactly the indices `-size .. size-1`; a non-negative index `i` reads the i-th element, and a negative one reads the element at `size + i` |
| Fuse.GetNegativeIndex | fuse/fuse.hpp:202-206 | for every valid `i >= 0`, `get<S, i - size>` and `get<S, i>` are the same element |
| Fuse.GetMinusOneIsLast | fuse/fuse.hpp:192-215 | `get<S, -1>` is the element found by walking to the last tail |
| Fuse.GetListsElements | fuse/fuse.hpp:195-215 | reading indices `0 .. size-1` with `get` lists the elements in order |
| Fuse.GetNegativeListsElements | fuse/fuse.hpp:195-215 | reading indices `-size .. -1` with `get` lists the elements in order |
| Fuse.RebuildFromGet | fuse/fuse.hpp:195-215 | nesting the elements read by `get`, by positive or by negative indices, rebuilds the sequence; so does passing them to `make_seq`, by positive or by negative indices, when no element is `empty_seq` |
| Functional.Apply | fuse/functional.hpp:10-17 | no call is lost: every call of `Func` whose argument list starts with the fixed arguments is obtained by calling the partial function on the rest of that list |
| Functional.ApplyComposes | fuse/functional.hpp:10-17 | fixing no arguments leaves the function unchanged, and fixing `a` and then `b` is fixing `a + b` |
| Functional.Map | fuse/functional.hpp:25-43 | same size as the input, and position `i` of the result is `F` of position `i` of the input |
| Functional.MapGet | fuse/functional.hpp:25-43 | `get` on the mapped sequence, at any valid positive or negative index, is `F` of `get` on the input |
| Functional.MapConcat | fuse/functional.hpp:25-43 | `map` distributes over `concat` |
| Functional.Filter | fuse/functional.hpp:71-86 | the result is no longer than the input and is an order-preserving sub-list of it; it holds exactly the elements satisfying `P`, each as often as in the input |
| Functional.FilterAllPass | fuse/functional.hpp:71-86 | a predicate true of every element returns the sequence unchanged |
| Functional.FilterNonePass | fuse/functional.hpp:71-86 | a predicate true of no element returns `empty_seq` |
| Functional.FilterIdempotent | fuse/functional.hpp:71-86 | filtering twice by the same predicate equals filtering once |
| Functional.FilterConcat | fuse/functional.hpp:71-86 | `filter` distributes over `concat` |
| Functional.MakeSeqIsFilter | fuse/fuse.hpp:55-81 | `make_seq` equals filtering out `empty_seq` from the arguments nested without elision |
| Functional.Reduce | fuse/functional.hpp:51-63 | needs at least two elements; the result is a right fold of all but the last element, seeded with the last |
| Functional.ReduceNesting | fuse/functional.hpp:51-63 | `[a, b]` reduces to `F(a, b)` and `[a, b, c]` to `F(a, F(b, c))` |
| Functional.FoldLeftShift | fuse/functional.hpp:45-46 | for an associative `F`, applying `F` with `h` in front of a left fold is the same as starting that fold from `F(h, z)` |
| Functional.ReduceIsLeftFoldWhenAssociative | fuse/functional.hpp:45-63 | for an associative `F`, the right-nested `reduce` equals the left fold the doc comment describes |
| Functional.ReduceIsNotLeftFold | fuse/functional.hpp:45-63 | for a non-associative `F`, the right-nested `reduce` and a left fold differ on `[int, char, bool]` |

## Left out

- `boolean<T>`, `base_seq`, and the `type` members that wrap results as `std::integral_constant` or `boolean` (fuse/fuse.hpp:13-19, 100, 138). This is C++ plumbing, so results are plain `bool` and `nat`.
- The `static_assert` on the tail of `seq` (fuse/fuse.hpp:34-35). It only tests `is_base_of<base_seq, Tail>`, so it also accepts as a tail `base_seq` itself, or a user type derived from `base_seq` or `empty_seq` with no `head` and `tail` of its own. Such a tail passes the assert. Operations that never take it apart still work: `get` at index 0 reads only the head (fuse/fuse.hpp:212-215), `equal` gives false once the other side has reached `empty_seq` (fuse/fuse.hpp:113-114), and `concat` returns its first argument unchanged when the second is `empty_seq` and never takes its second argument apart (fuse/fuse.hpp:160, 176-186). Every operation that recurses into the tail reaches its missing `head` or `tail`. That covers `size`, `get` at any other index (a negative index computes `size` first), `equal` when the other side is not yet `empty_seq` there, `concat` of such a sequence with a non-empty second argument, `map`, `filter` and `reduce`. The datatype allows only `Empty` or `Cons` as a tail, so the model excludes these tails.
- The text of compile errors. The `"Index out of bounds"` assertion, the missing `head` of `empty_seq`, and the `size_t`/`int` narrowing failure for an index below `-size` all become the precondition of `Fuse.Get`. Failures in `reduce` and `make_seq<>` likewise become preconditions. No modular `size_t` arithmetic is modelled.
- Compiler evaluation order and memoisation. For example, `equal`'s `&&` instantiates both operands. None of this changes any result.
- The arity constraints on `apply`'s template-template parameter. `Functional.Apply` models only "fixed arguments first, then the rest". Its function parameter takes the whole pack as a `seq<Elem>`.
- Element types are opaque names. `name` in `Ty(name)` is a canonical name for a type other than `empty_seq`: aliases of one C++ type share one name, and an alias of `empty_seq` is `EmptySeqElem`. A value such as `Ty("empty_seq")` is outside this encoding, and `MakeSeq` would keep it. A type that is itself a non-empty `seq<...>` is just another atom, because no operation looks inside its elements.
- The test harness (test/core_test.hpp) is not modelled. Its checks appear as the lemmas above.
