/**
 * An immutable singly linked list: the empty object `{}` or a cell
 * `{ head, tail }`, with the functions the library exports over it. The
 * sequence `Elements(l)` is the abstraction every contract is stated in.
 */
module ConsList {

  /** `EmptyList` (the object `{}`) or `NonEmptyList<T>` (`{ head, tail }`). */
  datatype List<T> = Empty | Node(head: T, tail: List<T>)

  /** The elements of a list, from its head to its last cell. */
  function Elements<T>(l: List<T>): seq<T> {
    match l
    case Empty => []
    case Node(h, t) => [h] + Elements(t)
  }

  /** `cons(head, tail)`: the new cell puts `head` in front of the elements of `tail`. */
  function Cons<T>(head: T, tail: List<T>): (l: List<T>)
    ensures Elements(l) == [head] + Elements(tail)
  {
    Node(head, tail)
  }

  /** `Object.keys(l)`: the own property names of the JavaScript object. */
  function OwnKeys<T>(l: List<T>): (keys: seq<string>)
    ensures |keys| == 0 <==> Elements(l) == []
  {
    if l.Empty? then [] else ["head", "tail"]
  }

  /** `isEmpty(l)`: the object has no own keys. */
  predicate IsEmpty<T>(l: List<T>)
    ensures IsEmpty(l) <==> Elements(l) == []
  {
    |OwnKeys(l)| == 0
  }

  /** `isNotEmpty(l)` */
  predicate IsNotEmpty<T>(l: List<T>)
    ensures IsNotEmpty(l) <==> |Elements(l)| > 0
    ensures IsNotEmpty(l) <==> l.Node?
  {
    !IsEmpty(l)
  }

  /** `head(l)`: the first element. */
  function Head<T>(l: List<T>): (h: T)
    requires IsNotEmpty(l)
    ensures h == Elements(l)[0]
  {
    l.head
  }

  /** `tail(l)`: the list of the remaining elements. */
  function Tail<T>(l: List<T>): (t: List<T>)
    requires IsNotEmpty(l)
    ensures Elements(t) == Elements(l)[1..]
  {
    l.tail
  }

  /** `last(l)`: the final element (an element, whatever the annotation on the source says). */
  function Last<T>(l: List<T>): (x: T)
    requires IsNotEmpty(l)
    ensures x == Elements(l)[|Elements(l)| - 1]
  {
    if IsNotEmpty(l.tail) then Last(l.tail) else l.head
  }

  /** The left fold of a sequence, as a reference: the last element is combined last. */
  function FoldLeft<A, B>(fn: (A, B) -> B, acc: B, s: seq<A>): B
    decreases |s|
  {
    if s == [] then acc else fn(s[|s| - 1], FoldLeft(fn, acc, s[..|s| - 1]))
  }

  /** Starting from `fn(x, acc)` is folding with `x` in front. */
  lemma {:induction false} FoldLeftFront<A, B>(fn: (A, B) -> B, x: A, acc: B, s: seq<A>)
    ensures FoldLeft(fn, fn(x, acc), s) == FoldLeft(fn, acc, [x] + s)
    decreases |s|
  {
    if s == [] {
      assert ([x] + s)[..0] == [];
    } else {
      var init := s[..|s| - 1];
      FoldLeftFront(fn, x, acc, init);
      assert ([x] + s)[..|[x] + s| - 1] == [x] + init;
    }
  }

  /** `fold(fn, acc, l)`: combines the elements from the head on, each into the accumulator so far. */
  function Fold<A, B>(fn: (A, B) -> B, acc: B, l: List<A>): (r: B)
    ensures r == FoldLeft(fn, acc, Elements(l))
  {
    if IsNotEmpty(l) then
      FoldLeftFront(fn, Head(l), acc, Elements(Tail(l)));
      Fold(fn, fn(Head(l), acc), Tail(l))
    else acc
  }

  /** The equations the code of `fold` states: a fold over `{}` is the accumulator, over a cell it moves on with `fn(head, acc)`. */
  lemma FoldEquations<A, B>(fn: (A, B) -> B, acc: B, h: A, t: List<A>)
    ensures Fold(fn, acc, Empty) == acc
    ensures Fold(fn, acc, Cons(h, t)) == Fold(fn, fn(h, acc), t)
  {
  }

  /** A left fold: the last element is combined last, with the fold of all the others. */
  lemma FoldIsLeftAssociative<A, B>(fn: (A, B) -> B, acc: B, s: seq<A>, x: A)
    ensures FoldLeft(fn, acc, s + [x]) == fn(x, FoldLeft(fn, acc, s))
  {
    assert (s + [x])[..|s|] == s;
  }

  /** `fold` combines a list's last element last, with the fold of the elements before it. */
  lemma FoldCombinesLastElementLast<A, B>(fn: (A, B) -> B, acc: B, l: List<A>, m: List<A>, x: A)
    requires Elements(l) == Elements(m) + [x]
    ensures Fold(fn, acc, l) == fn(x, Fold(fn, acc, m))
  {
  }

  /** The right fold of a sequence, for contrast: the first element is combined last. */
  function FoldRight<A, B>(fn: (A, B) -> B, acc: B, s: seq<A>): B
    decreases |s|
  {
    if s == [] then acc else fn(s[0], FoldRight(fn, acc, s[1..]))
  }

  /**
   * `fold` is no right fold: subtracting over 1, 2 from 0 gives 2 - (1 - 0) = 1,
   * where the right fold gives 1 - (2 - 0) = -1.
   */
  lemma FoldIsNotRightFold()
    ensures Fold((a: int, b: int) => a - b, 0, Cons(1, Cons(2, Empty))) == 1
    ensures FoldRight((a: int, b: int) => a - b, 0, [1, 2]) == -1
  {
  }

  /** The elements of a sequence, last one first. */
  function Reversed<T>(s: seq<T>): (r: seq<T>)
    ensures |r| == |s|
    ensures forall k :: 0 <= k < |s| ==> r[k] == s[|s| - 1 - k]
  {
    if s == [] then [] else Reversed(s[1..]) + [s[0]]
  }

  /** A left fold is the right fold of the reversed sequence. */
  lemma {:induction false} FoldLeftIsFoldRightReversed<A, B>(fn: (A, B) -> B, acc: B, s: seq<A>)
    ensures FoldLeft(fn, acc, s) == FoldRight(fn, acc, Reversed(s))
    decreases |s|
  {
    if s != [] {
      var init := s[..|s| - 1];
      FoldLeftIsFoldRightReversed(fn, acc, init);
      assert Reversed(s)[1..] == Reversed(init);
    }
  }

  /** `fold` is the right fold of the list's elements taken last one first. */
  lemma FoldIsRightFoldOfReversed<A, B>(fn: (A, B) -> B, acc: B, l: List<A>)
    ensures Fold(fn, acc, l) == FoldRight(fn, acc, Reversed(Elements(l)))
  {
    FoldLeftIsFoldRightReversed(fn, acc, Elements(l));
  }

  /** The folding function of `length`: `(_, b) => b + 1`. */
  function Increment<T>(): (T, int) -> int {
    (x: T, b: int) => b + 1
  }

  /** Folding with `Increment` adds the number of elements to the start value. */
  lemma {:induction false} FoldIncrement<T>(k: int, l: List<T>)
    ensures Fold(Increment(), k, l) == k + |Elements(l)|
    decreases l
  {
    match l
    case Empty =>
    case Node(h, t) =>
      FoldIncrement(k + 1, t);
  }

  /** `length(l)`: the number of elements. A JavaScript number is modelled as an unbounded integer. */
  function Length<T>(l: List<T>): (n: int)
    ensures n == |Elements(l)|
  {
    FoldIncrement(0, l);
    Fold(Increment(), 0, l)
  }

  /** The folding function of `map`: `(head, acc) => cons(fn(head), acc)`. */
  function ConsMapped<A, B>(fn: A -> B): (A, List<B>) -> List<B> {
    (h: A, acc: List<B>) => Cons(fn(h), acc)
  }

  /** `fn` applied to each element, last element first. */
  function ReverseMapped<A, B>(fn: A -> B, s: seq<A>): (r: seq<B>)
    ensures |r| == |s|
    ensures forall k :: 0 <= k < |s| ==> r[k] == fn(s[|s| - 1 - k])
  {
    if s == [] then [] else ReverseMapped(fn, s[1..]) + [fn(s[0])]
  }

  /** Folding with `ConsMapped(fn)` pushes the mapped elements, last one outermost, onto the accumulator. */
  lemma {:induction false} FoldConsMapped<A, B>(fn: A -> B, acc: List<B>, l: List<A>)
    ensures Elements(Fold(ConsMapped(fn), acc, l)) == ReverseMapped(fn, Elements(l)) + Elements(acc)
    decreases l
  {
    match l
    case Empty =>
    case Node(h, t) =>
      FoldConsMapped(fn, Cons(fn(h), acc), t);
      assert Elements(l)[1..] == Elements(t);
  }

  /**
   * `map(fn, l)` as written: a left fold with `cons`, which builds the result
   * from its last cell outwards, so the mapped elements come out in reverse.
   */
  function Map<A, B>(fn: A -> B, l: List<A>): (r: List<B>)
    ensures |Elements(r)| == |Elements(l)|
    ensures forall k :: 0 <= k < |Elements(l)| ==>
              Elements(r)[k] == fn(Elements(l)[|Elements(l)| - 1 - k])
  {
    FoldConsMapped(fn, Empty, l);
    assert ReverseMapped(fn, Elements(l)) + Elements(Empty) == ReverseMapped(fn, Elements(l));
    Fold(ConsMapped(fn), Empty, l)
  }

  /** `map` keeps the length of the list. */
  lemma MapKeepsLength<A, B>(fn: A -> B, l: List<A>)
    ensures Length(Map(fn, l)) == Length(l)
  {
  }

  /** Mapping twice with `map` as written restores the order: `map(f, map(g, l))` is `g` then `f` on each element in place. */
  lemma MapTwiceKeepsOrder<A, B, C>(f: B -> C, g: A -> B, l: List<A>)
    ensures |Elements(Map(f, Map(g, l)))| == |Elements(l)|
    ensures forall k :: 0 <= k < |Elements(l)| ==> Elements(Map(f, Map(g, l)))[k] == f(g(Elements(l)[k]))
  {
    var s, m := Elements(l), Elements(Map(g, l));
    forall k | 0 <= k < |s| ensures Elements(Map(f, Map(g, l)))[k] == f(g(s[k])) {
      assert m[|m| - 1 - k] == g(s[|s| - 1 - (|m| - 1 - k)]);
    }
  }

  /** `map` as the library's own test reads it: each element mapped where it stands. */
  function MapInOrder<A, B>(fn: A -> B, l: List<A>): (r: List<B>)
    ensures |Elements(r)| == |Elements(l)|
    ensures forall k :: 0 <= k < |Elements(l)| ==> Elements(r)[k] == fn(Elements(l)[k])
  {
    match l
    case Empty => Empty
    case Node(h, t) =>
      var r := Cons(fn(h), MapInOrder(fn, t));
      assert forall k :: 0 < k < |Elements(l)| ==> Elements(l)[k] == Elements(t)[k - 1];
      r
  }

  /** Functor law 1 for the in-order map: mapping the identity gives the list back. */
  lemma {:induction false} MapInOrderIdentity<T>(l: List<T>)
    ensures MapInOrder(x => x, l) == l
  {
    match l
    case Empty =>
    case Node(h, t) =>
      MapInOrderIdentity(t);
  }

  /** Functor law 2 for the in-order map: mapping a composition is mapping twice. */
  lemma {:induction false} MapInOrderComposes<A, B, C>(f: B -> C, g: A -> B, l: List<A>)
    ensures MapInOrder(x => f(g(x)), l) == MapInOrder(f, MapInOrder(g, l))
  {
    match l
    case Empty =>
    case Node(h, t) =>
      MapInOrderComposes(f, g, t);
  }

  /** The discrepancy on two elements: squaring `[1, 2]` with `map` as written gives `[4, 1]`, not `[1, 4]`. */
  lemma MapReversesTwoElements()
    ensures Elements(Map(x => x * x, Cons(1, Cons(2, Empty)))) == [4, 1]
    ensures Elements(MapInOrder(x => x * x, Cons(1, Cons(2, Empty)))) == [1, 4]
  {
    var l := Cons(1, Cons(2, Empty));
    assert Elements(l) == [1, 2];
  }

  /** `flip(fn)`: the same function with its two arguments swapped. */
  function Flip<A(!new), B(!new), C>(fn: (A, B) -> C): (g: (B, A) -> C)
    ensures forall a: A, b: B :: g(b, a) == fn(a, b)
  {
    (b: B, a: A) => fn(a, b)
  }

  /** Flipping twice gives a function that agrees with the original everywhere. */
  lemma FlipFlip<A(!new), B(!new), C>(fn: (A, B) -> C)
    ensures forall a: A, b: B :: Flip(Flip(fn))(a, b) == fn(a, b)
  {
  }

  /** `head` and `tail` undo `cons`. */
  lemma HeadTailOfCons<T>(h: T, t: List<T>)
    ensures IsNotEmpty(Cons(h, t))
    ensures Head(Cons(h, t)) == h && Tail(Cons(h, t)) == t
  {
  }

  /** `last` of a one-cell list is its element; otherwise it is the `last` of the tail. */
  lemma LastEquations<T>(x: T, t: List<T>)
    ensures Last(Cons(x, Empty)) == x
    ensures IsNotEmpty(t) ==> Last(Cons(x, t)) == Last(t)
  {
  }
}
