/** An immutable singly-linked list in the style of Haskell's standard list
    functions. The empty base class of the source is `Nil`; the anonymous
    non-empty node built by `addFront(x)` on a list `xs` is `Cons(x, xs)`.
    Every combinator is specified against `Elems`, the sequence of elements. */
module Lists {
  import opened Exceptions

  datatype List<E> = Nil | Cons(head: E, tail: List<E>)

  /*** Views of a list as a sequence ***/

  /** The elements of a list, in order. */
  function Elems<E>(xs: List<E>): seq<E>
  {
    match xs
    case Nil => []
    case Cons(x, t) => [x] + Elems(t)
  }

  /** The list of a sequence's elements (the list that `arrayToList` builds). */
  function FromSeq<E>(s: seq<E>): (xs: List<E>)
    ensures Elems(xs) == s
    decreases |s|
  {
    if s == [] then Nil else Cons(s[0], FromSeq(s[1..]))
  }

  /** The rows of a list of lists, each row as a sequence. */
  function Grid<E>(xss: List<List<E>>): (g: seq<seq<E>>)
    ensures |g| == |Elems(xss)|
    ensures forall i :: 0 <= i < |g| ==> g[i] == Elems(Elems(xss)[i])
  {
    match xss
    case Nil => []
    case Cons(r, t) => [Elems(r)] + Grid(t)
  }

  /** The list of lists whose rows are those of `g`. */
  function FromGrid<E>(g: seq<seq<E>>): (xss: List<List<E>>)
    ensures Grid(xss) == g
    decreases |g|
  {
    if g == [] then Nil else Cons(FromSeq(g[0]), FromGrid(g[1..]))
  }

  /** Two lists with the same elements are the same list: structural equality. */
  lemma {:induction false} ElemsInjective<E>(xs: List<E>, ys: List<E>)
    requires Elems(xs) == Elems(ys)
    ensures xs == ys
  {
    match xs
    case Nil =>
    case Cons(x, t) =>
      assert Elems(ys)[0] == x;
      assert Elems(t) == Elems(xs)[1..] == Elems(ys)[1..] == Elems(ys.tail);
      ElemsInjective(t, ys.tail);
  }

  /** Two lists of lists with the same rows are the same. */
  lemma {:induction false} GridInjective<E>(xss: List<List<E>>, yss: List<List<E>>)
    requires Grid(xss) == Grid(yss)
    ensures xss == yss
  {
    match xss
    case Nil =>
    case Cons(r, t) =>
      assert Elems(r) == Grid(xss)[0] == Grid(yss)[0] == Elems(yss.head);
      ElemsInjective(r, yss.head);
      assert Grid(t) == Grid(xss)[1..] == Grid(yss)[1..] == Grid(yss.tail);
      GridInjective(t, yss.tail);
  }

  /*** Constructors and observers ***/

  /** `single(x)`: the list [x]. */
  function Single<E>(x: E): List<E>
  {
    Cons(x, Nil)
  }

  predicate IsEmpty<E>(xs: List<E>)
  {
    xs.Nil?
  }

  function Length<E>(xs: List<E>): (n: nat)
    ensures n == |Elems(xs)|
  {
    match xs
    case Nil => 0
    case Cons(_, t) => Length(t) + 1
  }

  /** `at(k)`: the element at index k. The empty list throws NoSuchElement for
      every k, so an index at or beyond the length does too; a non-empty list
      throws IndexOutOfBounds for a negative k. */
  function At<E>(xs: List<E>, k: int): (r: Result<E>)
    ensures xs.Nil? ==> r == Throws(NoSuchElement)
    ensures xs.Cons? && k < 0 ==> r == Throws(IndexOutOfBounds)
    ensures 0 <= k < |Elems(xs)| ==> r == Ok(Elems(xs)[k])
    ensures xs.Cons? && |Elems(xs)| <= k ==> r == Throws(NoSuchElement)
  {
    match xs
    case Nil => Throws(NoSuchElement)
    case Cons(x, t) =>
      if k < 0 then Throws(IndexOutOfBounds)
      else if k == 0 then Ok(x)
      else At(t, k - 1)
  }

  function Head<E>(xs: List<E>): (r: Result<E>)
    ensures r.Ok? <==> xs.Cons?
    ensures r.Ok? ==> r.value == Elems(xs)[0]
    ensures r.Throws? ==> r.exception == NoSuchElement
  {
    match xs
    case Nil => Throws(NoSuchElement)
    case Cons(x, _) => Ok(x)
  }

  function Tail<E>(xs: List<E>): (r: Result<List<E>>)
    ensures r.Ok? <==> xs.Cons?
    ensures r.Ok? ==> Elems(r.value) == Elems(xs)[1..]
    ensures r.Throws? ==> r.exception == NoSuchElement
  {
    match xs
    case Nil => Throws(NoSuchElement)
    case Cons(_, t) => Ok(t)
  }

  /*** Combinators ***/

  /** `xs.append(ys)`: the elements of xs followed by those of ys; ys itself
      is the tail of the result. */
  function Append<E>(xs: List<E>, ys: List<E>): (r: List<E>)
    ensures Elems(r) == Elems(xs) + Elems(ys)
  {
    match xs
    case Nil => ys
    case Cons(x, t) => Cons(x, Append(t, ys))
  }

  /** The accumulator loop `rev(acc, remain)` behind `reverse`: the elements
      of remain backwards, followed by those of acc. */
  function Rev<E>(acc: List<E>, remain: List<E>): (r: List<E>)
    ensures |Elems(r)| == |Elems(remain)| + |Elems(acc)|
    ensures forall i :: 0 <= i < |Elems(remain)| ==>
      Elems(r)[i] == Elems(remain)[|Elems(remain)| - 1 - i]
    ensures Elems(r)[|Elems(remain)|..] == Elems(acc)
    decreases remain
  {
    match remain
    case Nil => acc
    case Cons(h, t) => Rev(Cons(h, acc), t)
  }

  function Reverse<E>(xs: List<E>): (r: List<E>)
    ensures |Elems(r)| == |Elems(xs)|
    ensures forall i :: 0 <= i < |Elems(xs)| ==> Elems(r)[i] == Elems(xs)[|Elems(xs)| - 1 - i]
  {
    Rev(Nil, xs)
  }

  /** `take(n)`: the first n elements; none when n <= 0, all when n is at least
      the length. */
  function Take<E>(xs: List<E>, n: int): (r: List<E>)
    ensures Elems(r) == if n <= 0 then [] else if |Elems(xs)| <= n then Elems(xs) else Elems(xs)[..n]
  {
    match xs
    case Nil => Nil
    case Cons(x, t) => if n <= 0 then Nil else Cons(x, Take(t, n - 1))
  }

  /** `drop(n)`: all but the first n elements; the list itself when n <= 0. */
  function Drop<E>(xs: List<E>, n: int): (r: List<E>)
    ensures Elems(r) == if n <= 0 then Elems(xs) else if |Elems(xs)| <= n then [] else Elems(xs)[n..]
    ensures n <= 0 ==> r == xs
  {
    match xs
    case Nil => Nil
    case Cons(_, t) => if n <= 0 then xs else Drop(t, n - 1)
  }

  /** `takeWhile(p)`: the longest prefix whose elements all satisfy p. */
  function TakeWhile<E>(xs: List<E>, p: E -> bool): (r: List<E>)
    ensures Elems(r) <= Elems(xs)
    ensures forall x :: x in Elems(r) ==> p(x)
    ensures |Elems(r)| < |Elems(xs)| ==> !p(Elems(xs)[|Elems(r)|])
  {
    match xs
    case Nil => Nil
    case Cons(x, t) => if p(x) then Cons(x, TakeWhile(t, p)) else Nil
  }

  /** `dropWhile(p)`: the suffix left once the longest prefix satisfying p is
      removed; it is empty or starts with an element that fails p. */
  function DropWhile<E>(xs: List<E>, p: E -> bool): (r: List<E>)
    ensures |Elems(r)| <= |Elems(xs)|
    ensures Elems(r) == Elems(xs)[|Elems(xs)| - |Elems(r)|..]
    ensures forall i :: 0 <= i < |Elems(xs)| - |Elems(r)| ==> p(Elems(xs)[i])
    ensures r.Cons? ==> !p(r.head)
  {
    match xs
    case Nil => Nil
    case Cons(x, t) => if p(x) then DropWhile(t, p) else xs
  }

  /** `filter(p)`: the elements that satisfy p (their order: FilterAppend). */
  function Filter<E>(xs: List<E>, p: E -> bool): (r: List<E>)
    ensures forall x :: x in Elems(r) ==> x in Elems(xs) && p(x)
    ensures forall x :: x in Elems(xs) && p(x) ==> x in Elems(r)
    ensures |Elems(r)| <= |Elems(xs)|
  {
    match xs
    case Nil => Nil
    case Cons(x, t) => if p(x) then Cons(x, Filter(t, p)) else Filter(t, p)
  }

  function All<E>(xs: List<E>, p: E -> bool): (b: bool)
    ensures b <==> forall x :: x in Elems(xs) ==> p(x)
  {
    match xs
    case Nil => true
    case Cons(x, t) => if p(x) then All(t, p) else false
  }

  function Any<E>(xs: List<E>, p: E -> bool): (b: bool)
    ensures b <==> exists x :: x in Elems(xs) && p(x)
  {
    match xs
    case Nil => false
    case Cons(x, t) => if p(x) then true else Any(t, p)
  }

  /** `map(f)`; f may be partial (a method reference such as `List::head`), and
      must then be defined on every element. */
  function Map<E, F>(xs: List<E>, f: E --> F): List<F>
    requires forall x :: x in Elems(xs) ==> f.requires(x)
  {
    match xs
    case Nil => Nil
    case Cons(x, t) => Cons(f(x), Map(t, f))
  }

  /** `map(f)` keeps the length and applies f to every element in place. */
  lemma {:induction false} MapElems<E, F>(xs: List<E>, f: E --> F)
    requires forall x :: x in Elems(xs) ==> f.requires(x)
    ensures |Elems(Map(xs, f))| == |Elems(xs)|
    ensures forall i :: 0 <= i < |Elems(xs)| ==> Elems(Map(xs, f))[i] == f(Elems(xs)[i])
  {
    match xs
    case Nil =>
    case Cons(x, t) =>
      MapElems(t, f);
      assert Elems(Map(xs, f)) == [f(x)] + Elems(Map(t, f));
  }

  /** `foldl(op, acc)`: ((acc op x1) op x2) ... op xk (see FoldlIsLeftFold). */
  function Foldl<E, F>(xs: List<E>, op: (F, E) -> F, acc: F): F
  {
    match xs
    case Nil => acc
    case Cons(x, t) => Foldl(t, op, op(acc, x))
  }

  /** `foldl1(op)`: the left fold seeded with the head; throws on an empty list. */
  function Foldl1<E>(xs: List<E>, op: (E, E) -> E): (r: Result<E>)
    ensures xs.Nil? ==> r == Throws(UnsupportedOperation)
    ensures xs.Cons? ==> r == Ok(LeftFold(Elems(xs)[1..], op, Elems(xs)[0]))
  {
    match xs
    case Nil => Throws(UnsupportedOperation)
    case Cons(x, t) => FoldlIsLeftFold(t, op, x); Ok(Foldl(t, op, x))
  }

  /** `foldr(op, last)`: x1 op (x2 op (... (xk op last))) (see FoldrIsRightFold). */
  function Foldr<E, F>(xs: List<E>, op: (E, F) -> F, last: F): F
  {
    match xs
    case Nil => last
    case Cons(x, t) => op(x, Foldr(t, op, last))
  }

  /** `foldr1(op)` as the source writes it: the right fold of the tail seeded
      with the HEAD, x2 op (x3 op (... (xk op x1))); throws on an empty list. */
  function Foldr1<E>(xs: List<E>, op: (E, E) -> E): (r: Result<E>)
    ensures xs.Nil? ==> r == Throws(UnsupportedOperation)
    ensures xs.Cons? ==> r == Ok(RightFold(Elems(xs)[1..], op, Elems(xs)[0]))
  {
    match xs
    case Nil => Throws(UnsupportedOperation)
    case Cons(x, t) => FoldrIsRightFold(t, op, x); Ok(Foldr(t, op, x))
  }

  /** `foldr1(op)` as its documentation describes it: seeded with the LAST
      element, x1 op (x2 op (... (x[k-1] op xk))). */
  function Foldr1Documented<E>(xs: List<E>, op: (E, E) -> E): (r: Result<E>)
    ensures xs.Nil? ==> r == Throws(UnsupportedOperation)
    ensures xs.Cons? ==> r == Ok(RightFold(Elems(xs)[..|Elems(xs)| - 1], op, Elems(xs)[|Elems(xs)| - 1]))
  {
    match xs
    case Nil => Throws(UnsupportedOperation)
    case Cons(x, Nil) => Ok(x)
    case Cons(x, t) =>
      var r := Foldr1Documented(t, op);
      assert Elems(xs)[..|Elems(xs)| - 1] == [x] + Elems(t)[..|Elems(t)| - 1];
      RightFoldCons(x, Elems(t)[..|Elems(t)| - 1], op, Elems(t)[|Elems(t)| - 1]);
      Ok(op(x, r.value))
  }

  /** `zipWith(that, op)`: pairwise combination, as long as the shorter list. */
  function ZipWith<E, F, G>(xs: List<E>, ys: List<F>, op: (E, F) -> G): List<G>
  {
    match xs
    case Nil => Nil
    case Cons(x, t) =>
      match ys
      case Nil => Nil
      case Cons(y, u) => Cons(op(x, y), ZipWith(t, u, op))
  }

  /** `zipWith` is as long as the shorter list and combines the elements at
      each index. */
  lemma {:induction false} ZipWithElems<E, F, G>(xs: List<E>, ys: List<F>, op: (E, F) -> G)
    ensures |Elems(ZipWith(xs, ys, op))| == if |Elems(xs)| <= |Elems(ys)| then |Elems(xs)| else |Elems(ys)|
    ensures forall i :: 0 <= i < |Elems(ZipWith(xs, ys, op))| ==>
      Elems(ZipWith(xs, ys, op))[i] == op(Elems(xs)[i], Elems(ys)[i])
  {
    match xs
    case Nil =>
    case Cons(x, t) =>
      match ys
      case Nil =>
      case Cons(y, u) =>
        ZipWithElems(t, u, op);
        assert Elems(ZipWith(xs, ys, op)) == [op(x, y)] + Elems(ZipWith(t, u, op));
  }

  /** `intersperse(sep)`: sep between each two consecutive elements. */
  function Intersperse<E>(xs: List<E>, sep: E): (r: List<E>)
    ensures |Elems(r)| == if xs.Nil? then 0 else 2 * |Elems(xs)| - 1
    ensures forall j :: 0 <= j < |Elems(r)| && j % 2 == 0 ==> Elems(r)[j] == Elems(xs)[j / 2]
    ensures forall j :: 0 <= j < |Elems(r)| && j % 2 == 1 ==> Elems(r)[j] == sep
  {
    match xs
    case Nil => Nil
    case Cons(x, Nil) => Single(x)
    case Cons(x, t) =>
      var rest := Intersperse(t, sep);
      var r := Cons(x, Cons(sep, rest));
      assert Elems(r) == [x, sep] + Elems(rest);
      assert forall j :: 2 <= j < |Elems(r)| ==> Elems(r)[j] == Elems(rest)[j - 2];
      r
  }

  /** `repeat(n, x)`: n copies of x, none when n <= 0. */
  function Repeat<E>(n: int, x: E): List<E>
    decreases n
  {
    if n <= 0 then Nil else Cons(x, Repeat(n - 1, x))
  }

  /** `repeat(n, x)` holds n copies of x, and none when n is not positive. */
  lemma {:induction false} RepeatElems<E>(n: int, x: E)
    ensures Elems(Repeat(n, x)) == seq(if n <= 0 then 0 else n, _ => x)
    decreases n
  {
    if n > 0 {
      RepeatElems(n - 1, x);
      assert Elems(Repeat(n, x)) == [x] + Elems(Repeat(n - 1, x));
    }
  }

  function AppendOp<E>(xs: List<E>, ys: List<E>): List<E>
  {
    Append(xs, ys)
  }

  /** `concat(xss)`: the right fold of `append` over the rows, seeded with []. */
  function Concat<E>(xss: List<List<E>>): (r: List<E>)
    ensures Elems(r) == Flatten(Grid(xss))
  {
    ConcatIsFlatten(xss);
    Foldr(xss, AppendOp, Nil)
  }

  /** `iterateWhile(p, f, x)`: x, f(x), f(f(x)), ... while p holds. The source
      gives no termination argument; this model asks for a measure that every
      step decreases while p holds. */
  function IterateWhile<E(!new)>(p: E -> bool, f: E -> E, measure: E -> nat, x: E): (r: List<E>)
    requires forall y :: p(y) ==> measure(f(y)) < measure(y)
    ensures forall y :: y in Elems(r) ==> p(y)
    ensures r.Nil? <==> !p(x)
    ensures r.Cons? ==> r.head == x
    ensures forall i :: 0 <= i < |Elems(r)| - 1 ==> Elems(r)[i + 1] == f(Elems(r)[i])
    ensures r.Cons? ==> !p(f(Elems(r)[|Elems(r)| - 1]))
    decreases measure(x)
  {
    if !p(x) then Nil
    else
      var rest := IterateWhile(p, f, measure, f(x));
      var r := Cons(x, rest);
      assert forall i :: 1 <= i < |Elems(r)| ==> Elems(r)[i] == Elems(rest)[i - 1];
      r
  }

  predicate NonEmpty<E>(xs: List<E>)
  {
    xs.Cons?
  }

  /** `Length` as the measure `group` hands to `IterateWhile`. Passing
      `Length` itself as a value would attach function-handle axioms to
      `Length`, which every proof about lists and pictures then pays for. */
  function LengthOf<E>(xs: List<E>): nat
  {
    Length(xs)
  }

  /** `group(n)`: consecutive chunks of n elements, the last possibly shorter;
      throws IllegalArgument when n < 1. */
  function Group<E(!new)>(xs: List<E>, n: int): (r: Result<List<List<E>>>)
    ensures n < 1 ==> r == Throws(IllegalArgument)
    ensures 1 <= n ==> r.Ok?
  {
    if n < 1 then Throws(IllegalArgument)
    else
      var dropN := (ys: List<E>) => Drop(ys, n);
      var takeN := (ys: List<E>) => Take(ys, n);
      Ok(Map(IterateWhile(NonEmpty, dropN, LengthOf, xs), takeN))
  }

  function HeadOf<E>(xs: List<E>): E
    requires xs.Cons?
  {
    xs.head
  }

  function TailOf<E>(xs: List<E>): List<E>
    requires xs.Cons?
  {
    xs.tail
  }

  /** The number of elements in all rows together. */
  function Size<E>(xss: List<List<E>>): nat
  {
    match xss
    case Nil => 0
    case Cons(r, t) => Length(r) + Size(t)
  }

  /** Haskell's Data.List.transpose: each output row takes the next element of
      every row that still has one; exhausted and empty rows are skipped. */
  function Transpose<E>(xss: List<List<E>>): List<List<E>>
    decreases Size(xss), Length(xss)
  {
    match xss
    case Nil => Nil
    case Cons(Nil, rest) => Transpose(rest)
    case Cons(Cons(x, xs), rest) =>
      var live := Filter(rest, NonEmpty);
      TailsSize(live);
      FilterSize(rest, NonEmpty);
      Cons(Cons(x, Map(live, HeadOf)), Transpose(Cons(xs, Map(live, TailOf))))
  }

  /*** Conversion from an array (the one loop in the core) ***/

  /** `arrayToList(array)`: cons the elements on from the last one back. */
  method ArrayToList<E>(a: array<E>) returns (xs: List<E>)
    ensures Elems(xs) == a[..]
    ensures xs == FromSeq(a[..])
  {
    xs := Nil;
    var i := a.Length - 1;
    while i >= 0
      invariant -1 <= i < a.Length
      invariant Elems(xs) == a[i + 1..]
    {
      xs := Cons(a[i], xs);
      i := i - 1;
    }
    ElemsInjective(xs, FromSeq(a[..]));
  }

  /*** Reference definitions on sequences ***/

  /** The left fold written from the right end: ((acc op s0) op s1) ... op s[k-1]. */
  function LeftFold<E, F>(s: seq<E>, op: (F, E) -> F, acc: F): F
  {
    if s == [] then acc else op(LeftFold(s[..|s| - 1], op, acc), s[|s| - 1])
  }

  /** The right fold written as a loop from the right end:
      s0 op (s1 op ... (s[k-1] op last)). */
  function RightFold<E, F>(s: seq<E>, op: (E, F) -> F, last: F): F
  {
    if s == [] then last else RightFold(s[..|s| - 1], op, op(s[|s| - 1], last))
  }

  /** All rows of g, one after another. */
  function Flatten<E>(g: seq<seq<E>>): seq<E>
  {
    if g == [] then [] else g[0] + Flatten(g[1..])
  }

  /*** Lemmas used by the definitions above ***/

  lemma {:induction false} LeftFoldSnoc<E, F>(s: seq<E>, x: E, op: (F, E) -> F, acc: F)
    ensures LeftFold(s + [x], op, acc) == op(LeftFold(s, op, acc), x)
  {
    assert (s + [x])[..|s + [x]| - 1] == s;
  }

  lemma {:induction false} LeftFoldCons<E, F>(x: E, s: seq<E>, op: (F, E) -> F, acc: F)
    ensures LeftFold([x] + s, op, acc) == LeftFold(s, op, op(acc, x))
    decreases |s|
  {
    if s == [] {
      assert [x] + s == [] + [x];
      LeftFoldSnoc([], x, op, acc);
    } else {
      var init, z := s[..|s| - 1], s[|s| - 1];
      assert s == init + [z];
      assert [x] + s == ([x] + init) + [z];
      LeftFoldSnoc([x] + init, z, op, acc);
      LeftFoldCons(x, init, op, acc);
      LeftFoldSnoc(init, z, op, op(acc, x));
    }
  }

  /** `foldl` computes the left fold of the elements. */
  lemma {:induction false} FoldlIsLeftFold<E, F>(xs: List<E>, op: (F, E) -> F, acc: F)
    ensures Foldl(xs, op, acc) == LeftFold(Elems(xs), op, acc)
  {
    match xs
    case Nil =>
    case Cons(x, t) =>
      FoldlIsLeftFold(t, op, op(acc, x));
      LeftFoldCons(x, Elems(t), op, acc);
  }

  lemma {:induction false} RightFoldSnoc<E, F>(s: seq<E>, x: E, op: (E, F) -> F, last: F)
    ensures RightFold(s + [x], op, last) == RightFold(s, op, op(x, last))
  {
    assert (s + [x])[..|s + [x]| - 1] == s;
  }

  lemma {:induction false} RightFoldCons<E, F>(x: E, s: seq<E>, op: (E, F) -> F, last: F)
    ensures RightFold([x] + s, op, last) == op(x, RightFold(s, op, last))
    decreases |s|
  {
    if s == [] {
      assert [x] + s == [] + [x];
      RightFoldSnoc([], x, op, last);
    } else {
      var init, z := s[..|s| - 1], s[|s| - 1];
      assert s == init + [z];
      assert [x] + s == ([x] + init) + [z];
      RightFoldSnoc([x] + init, z, op, last);
      RightFoldCons(x, init, op, op(z, last));
      RightFoldSnoc(init, z, op, last);
    }
  }

  /** `foldr` computes the right fold of the elements, as a loop from the end
      would. */
  lemma {:induction false} FoldrIsRightFold<E, F>(xs: List<E>, op: (E, F) -> F, last: F)
    ensures Foldr(xs, op, last) == RightFold(Elems(xs), op, last)
  {
    match xs
    case Nil =>
    case Cons(x, t) =>
      FoldrIsRightFold(t, op, last);
      RightFoldCons(x, Elems(t), op, last);
  }

  lemma {:induction false} ConcatIsFlatten<E>(xss: List<List<E>>)
    ensures Elems(Foldr(xss, AppendOp, Nil)) == Flatten(Grid(xss))
  {
    match xss
    case Nil =>
    case Cons(r, t) =>
      ConcatIsFlatten(t);
      assert Grid(xss)[1..] == Grid(t);
  }

  lemma {:induction false} FilterSize<E>(xss: List<List<E>>, p: List<E> -> bool)
    ensures Size(Filter(xss, p)) <= Size(xss)
    ensures Length(Filter(xss, p)) <= Length(xss)
  {
    match xss
    case Nil =>
    case Cons(r, t) => FilterSize(t, p);
  }

  lemma {:induction false} TailsSize<E>(xss: List<List<E>>)
    requires forall r :: r in Elems(xss) ==> r.Cons?
    ensures Size(Map(xss, TailOf)) + Length(xss) == Size(xss)
    ensures Length(Map(xss, TailOf)) == Length(xss)
  {
    match xss
    case Nil =>
    case Cons(r, t) => TailsSize(t);
  }
}
