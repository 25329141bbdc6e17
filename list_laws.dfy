/** Algebraic laws of the list combinators: what the documentation of each
    one promises, proved about the model of List.java. */
module ListLaws {
  import opened Exceptions
  import opened Lists

  /*** append ***/

  /** Nil is a right identity of append (it is a left one by definition). */
  lemma {:induction false} AppendNil<E>(xs: List<E>)
    ensures Append(xs, Nil) == xs
    ensures Append(Nil, xs) == xs
  {
    assert Elems(Append(xs, Nil)) == Elems(xs) + [] == Elems(xs);
    ElemsInjective(Append(xs, Nil), xs);
  }

  lemma {:induction false} AppendAssociative<E>(xs: List<E>, ys: List<E>, zs: List<E>)
    ensures Append(Append(xs, ys), zs) == Append(xs, Append(ys, zs))
  {
    assert Elems(xs) + Elems(ys) + Elems(zs) == Elems(xs) + (Elems(ys) + Elems(zs));
    ElemsInjective(Append(Append(xs, ys), zs), Append(xs, Append(ys, zs)));
  }

  /*** reverse ***/

  /** reverse is an involution. */
  lemma {:induction false} ReverseReverse<E>(xs: List<E>)
    ensures Reverse(Reverse(xs)) == xs
  {
    var r := Reverse(Reverse(xs));
    var n := |Elems(xs)|;
    forall i | 0 <= i < n
      ensures Elems(r)[i] == Elems(xs)[i]
    {
      assert Elems(r)[i] == Elems(Reverse(xs))[n - 1 - i];
    }
    assert Elems(r) == Elems(xs);
    ElemsInjective(r, xs);
  }

  /*** take and drop ***/

  /** take(n) followed by drop(n) is the list again, for every n; both
      saturate at the ends. */
  lemma {:induction false} TakeDrop<E>(xs: List<E>, n: int)
    ensures Append(Take(xs, n), Drop(xs, n)) == xs
    ensures n <= 0 ==> Take(xs, n) == Nil && Drop(xs, n) == xs
    ensures Length(xs) <= n ==> Take(xs, n) == xs && Drop(xs, n) == Nil
  {
    var s := Elems(xs);
    if n <= 0 {
    } else if |s| <= n {
      ElemsInjective(Take(xs, n), xs);
      ElemsInjective(Drop(xs, n), Nil);
    } else {
      assert s[..n] + s[n..] == s;
    }
    ElemsInjective(Append(Take(xs, n), Drop(xs, n)), xs);
  }

  /*** takeWhile, dropWhile, filter, all ***/

  /** The prefix takeWhile keeps and the suffix dropWhile leaves make up the
      list. */
  lemma {:induction false} TakeWhileDropWhile<E>(xs: List<E>, p: E -> bool)
    ensures Append(TakeWhile(xs, p), DropWhile(xs, p)) == xs
  {
    match xs
    case Nil =>
    case Cons(x, t) =>
      if p(x) {
        TakeWhileDropWhile(t, p);
      }
  }

  /** filter keeps the order of its elements: it distributes over append and
      keeps or drops a single element according to p. */
  lemma {:induction false} FilterAppend<E>(xs: List<E>, ys: List<E>, p: E -> bool)
    ensures Filter(Append(xs, ys), p) == Append(Filter(xs, p), Filter(ys, p))
  {
    match xs
    case Nil =>
    case Cons(x, t) => FilterAppend(t, ys, p);
  }

  lemma FilterSingle<E>(x: E, p: E -> bool)
    ensures Filter(Single(x), p) == if p(x) then Single(x) else Nil
  {
  }

  /** filter(p) is the identity exactly when every element satisfies p. */
  lemma {:induction false} FilterAll<E>(xs: List<E>, p: E -> bool)
    ensures Filter(xs, p) == xs <==> All(xs, p)
  {
    match xs
    case Nil =>
    case Cons(x, t) =>
      FilterAll(t, p);
      if !p(x) {
        assert |Elems(Filter(t, p))| <= |Elems(t)| < |Elems(xs)|;
      }
  }

  /** all and any are dual. */
  lemma AllNotAny<E>(xs: List<E>, p: E -> bool)
    ensures All(xs, p) <==> !Any(xs, x => !p(x))
  {
  }

  /*** folds ***/

  /** foldl over an appended list folds the first part, then the second. */
  lemma {:induction false} FoldlAppend<E, F>(xs: List<E>, ys: List<E>, op: (F, E) -> F, acc: F)
    ensures Foldl(Append(xs, ys), op, acc) == Foldl(ys, op, Foldl(xs, op, acc))
  {
    match xs
    case Nil =>
    case Cons(x, t) => FoldlAppend(t, ys, op, op(acc, x));
  }

  /** foldr over an appended list seeds the first part's fold with the
      second's. */
  lemma {:induction false} FoldrAppend<E, F>(xs: List<E>, ys: List<E>, op: (E, F) -> F, last: F)
    ensures Foldr(Append(xs, ys), op, last) == Foldr(xs, op, Foldr(ys, op, last))
  {
    match xs
    case Nil =>
    case Cons(x, t) => FoldrAppend(t, ys, op, last);
  }

  /** The two renderings of foldr1 disagree: on [1, 2] with subtraction the
      source computes 2 - 1, its documentation promises 1 - 2. */
  lemma Foldr1Discrepancy()
    ensures Foldr1(Cons(1, Cons(2, Nil)), (a: int, b: int) => a - b) == Ok(1)
    ensures Foldr1Documented(Cons(1, Cons(2, Nil)), (a: int, b: int) => a - b) == Ok(-1)
  {
  }

  /*** zipWith ***/

  /** zipWith of a 3-element and a 5-element list has 3 elements. */
  lemma ZipWithTruncates()
    ensures Length(ZipWith(FromSeq([1, 2, 3]), FromSeq([10, 20, 30, 40, 50]), (a: int, b: int) => a + b)) == 3
  {
  }

  /*** group ***/

  lemma {:induction false} GroupUnfold<E(!new)>(xs: List<E>, n: int)
    requires 1 <= n
    ensures xs.Nil? ==> Group(xs, n).value == Nil
    ensures xs.Cons? ==> Group(xs, n).value == Cons(Take(xs, n), Group(Drop(xs, n), n).value)
  {
  }

  /** Chunks of at most n elements, non-empty, all full but the last. */
  ghost predicate Chunked<E>(g: seq<seq<E>>, n: int)
  {
    && (forall i :: 0 <= i < |g| ==> 1 <= |g[i]| <= n)
    && (forall i :: 0 <= i < |g| - 1 ==> |g[i]| == n)
  }

  lemma ChunkedCons<E>(first: seq<E>, h: seq<seq<E>>, n: int)
    requires 1 <= |first| <= n
    requires |first| < n ==> h == []
    requires Chunked(h, n)
    ensures Chunked([first] + h, n)
  {
    var g := [first] + h;
    assert forall i :: 1 <= i < |g| ==> g[i] == h[i - 1];
  }

  /** group(n) for n >= 1 cuts the list into non-empty chunks of n elements,
      the last of at most n. */
  lemma {:induction false} GroupChunkSizes<E(!new)>(xs: List<E>, n: int)
    requires 1 <= n
    ensures Chunked(Grid(Group(xs, n).value), n)
    decreases Length(xs)
  {
    GroupUnfold(xs, n);
    if xs.Cons? {
      var first, rest := Take(xs, n), Drop(xs, n);
      GroupChunkSizes(rest, n);
      var h := Grid(Group(rest, n).value);
      assert Grid(Group(xs, n).value) == [Elems(first)] + h;
      if |Elems(first)| < n {
        ElemsInjective(rest, Nil);
        GroupUnfold(rest, n);
      }
      ChunkedCons(Elems(first), h, n);
    }
  }

  /** Concatenating the chunks of group(n) gives back the list. */
  lemma {:induction false} GroupConcat<E(!new)>(xs: List<E>, n: int)
    requires 1 <= n
    ensures Concat(Group(xs, n).value) == xs
    decreases Length(xs)
  {
    GroupUnfold(xs, n);
    if xs.Cons? {
      var first, rest := Take(xs, n), Drop(xs, n);
      GroupConcat(rest, n);
      var g, h := Grid(Group(xs, n).value), Grid(Group(rest, n).value);
      assert g == [Elems(first)] + h;
      assert g[1..] == h;
      assert Elems(Concat(Group(xs, n).value)) == Elems(first) + Elems(rest);
      TakeDrop(xs, n);
      ElemsInjective(Concat(Group(xs, n).value), xs);
    }
  }

  /** group(2) of [1, 2, 3, 4, 5] is [[1, 2], [3, 4], [5]]. */
  lemma GroupExample()
    ensures Grid(Group(FromSeq([1, 2, 3, 4, 5]), 2).value) == [[1, 2], [3, 4], [5]]
  {
    var xs0 := FromSeq([1, 2, 3, 4, 5]);
    var xs1 := Drop(xs0, 2);
    var xs2 := Drop(xs1, 2);
    var xs3 := Drop(xs2, 2);
    assert Elems(xs1) == [3, 4, 5];
    assert Elems(xs2) == [5];
    ElemsInjective(xs3, Nil);
    GroupUnfold(xs0, 2);
    GroupUnfold(xs1, 2);
    GroupUnfold(xs2, 2);
    GroupUnfold(xs3, 2);
    assert Elems(Take(xs0, 2)) == [1, 2];
    assert Elems(Take(xs1, 2)) == [3, 4];
    assert Elems(Take(xs2, 2)) == [5];
  }

  /*** transpose ***/

  /** The i-th elements of those rows that have one, in row order. */
  function Column<E>(g: seq<seq<E>>, i: nat): seq<E>
  {
    if g == [] then []
    else (if i < |g[0]| then [g[0][i]] else []) + Column(g[1..], i)
  }

  /** The length of the longest row, 0 when there is none. */
  function MaxLength<E>(g: seq<seq<E>>): nat
  {
    if g == [] then 0
    else if |g[0]| < MaxLength(g[1..]) then MaxLength(g[1..]) else |g[0]|
  }

  lemma {:induction false} LiveHeads<E>(rest: List<List<E>>)
    ensures Elems(Map(Filter(rest, NonEmpty), HeadOf)) == Column(Grid(rest), 0)
  {
    match rest
    case Nil =>
    case Cons(r, t) =>
      LiveHeads(t);
      assert Grid(rest)[1..] == Grid(t);
  }

  lemma {:induction false} LiveTails<E>(rest: List<List<E>>, i: nat)
    ensures Column(Grid(Map(Filter(rest, NonEmpty), TailOf)), i) == Column(Grid(rest), i + 1)
  {
    match rest
    case Nil =>
    case Cons(r, t) =>
      LiveTails(t, i);
      var tlt := Map(Filter(t, NonEmpty), TailOf);
      assert Grid(rest)[1..] == Grid(t);
      assert Column(Grid(rest), i + 1) ==
        (if i + 1 < |Elems(r)| then [Elems(r)[i + 1]] else []) + Column(Grid(t), i + 1);
      if r.Cons? {
        var tl := Map(Filter(rest, NonEmpty), TailOf);
        assert tl == Cons(r.tail, tlt);
        assert Grid(tl)[1..] == Grid(tlt);
        assert Column(Grid(tl), i) ==
          (if i < |Elems(r.tail)| then [Elems(r.tail)[i]] else []) + Column(Grid(tlt), i);
      } else {
        assert Map(Filter(rest, NonEmpty), TailOf) == tlt;
      }
  }

  lemma {:induction false} LiveTailsLength<E>(rest: List<List<E>>)
    ensures MaxLength(Grid(Map(Filter(rest, NonEmpty), TailOf))) ==
      if MaxLength(Grid(rest)) == 0 then 0 else MaxLength(Grid(rest)) - 1
  {
    match rest
    case Nil =>
    case Cons(r, t) =>
      LiveTailsLength(t);
      assert Grid(rest)[1..] == Grid(t);
      if r.Cons? {
        var tl := Map(Filter(rest, NonEmpty), TailOf);
        assert tl == Cons(r.tail, Map(Filter(t, NonEmpty), TailOf));
        assert Grid(tl)[1..] == Grid(Map(Filter(t, NonEmpty), TailOf));
      }
  }

  /** transpose turns column i of the input (the i-th elements of the rows
      long enough to have one) into row i, and has as many rows as the
      longest input row is long. */
  lemma {:induction false} TransposeColumns<E>(xss: List<List<E>>)
    ensures |Grid(Transpose(xss))| == MaxLength(Grid(xss))
    ensures forall i :: 0 <= i < |Grid(Transpose(xss))| ==> Grid(Transpose(xss))[i] == Column(Grid(xss), i)
    decreases Size(xss), Length(xss)
  {
    match xss
    case Nil =>
    case Cons(Nil, rest) =>
      TransposeColumns(rest);
      assert Grid(xss)[1..] == Grid(rest);
      forall i: nat ensures Column(Grid(xss), i) == Column(Grid(rest), i) { }
    case Cons(Cons(x, xs), rest) =>
      var live := Filter(rest, NonEmpty);
      TailsSize(live);
      FilterSize(rest, NonEmpty);
      var next := Cons(xs, Map(live, TailOf));
      TransposeColumns(next);
      var t := Transpose(xss);
      var g := Grid(xss);
      assert g[1..] == Grid(rest);
      assert t == Cons(Cons(x, Map(live, HeadOf)), Transpose(next));
      assert Grid(next)[1..] == Grid(Map(live, TailOf));
      LiveTailsLength(rest);
      assert |Grid(t)| == MaxLength(g);
      LiveHeads(rest);
      var gl := Grid(Map(live, TailOf));
      forall k: nat
        ensures Column(gl, k) == Column(Grid(rest), k + 1)
      {
        LiveTails(rest, k);
      }
      assert Grid(t) == [[x] + Column(Grid(rest), 0)] + Grid(Transpose(next));
      assert Grid(next) == [Elems(xs)] + gl;
      assert g == [[x] + Elems(xs)] + Grid(rest);
      ColumnsStep(x, Elems(xs), Grid(rest), gl, Grid(Transpose(next)));
  }

  /** The columns of rows whose first row is x then xs: the first is x then
      the other rows' first column, and column i + 1 is column i once x is
      dropped, given how the other rows' columns shift. */
  lemma ColumnsStep<E>(x: E, xs: seq<E>, gr: seq<seq<E>>, gl: seq<seq<E>>, tn: seq<seq<E>>)
    requires forall k :: 0 <= k < |tn| ==> tn[k] == Column([xs] + gl, k)
    requires forall k: nat :: Column(gl, k) == Column(gr, k + 1)
    ensures forall i :: 0 <= i < 1 + |tn| ==> ([[x] + Column(gr, 0)] + tn)[i] == Column([[x] + xs] + gr, i)
  {
    var g := [[x] + xs] + gr;
    assert g[1..] == gr;
    assert ([xs] + gl)[1..] == gl;
    forall i | 0 <= i < 1 + |tn|
      ensures ([[x] + Column(gr, 0)] + tn)[i] == Column(g, i)
    {
      if i == 0 {
        assert Column(g, 0) == [x] + Column(gr, 0);
      } else {
        assert ([[x] + Column(gr, 0)] + tn)[i] == tn[i - 1];
        assert Column([xs] + gl, i - 1) == (if i - 1 < |xs| then [xs[i - 1]] else []) + Column(gl, i - 1);
        assert Column(g, i) == (if i < |xs| + 1 then [([x] + xs)[i]] else []) + Column(gr, i);
      }
    }
  }

  lemma {:induction false} ColumnOfRectangle<E>(g: seq<seq<E>>, w: nat, i: nat)
    requires forall j :: 0 <= j < |g| ==> |g[j]| == w
    requires i < w
    ensures |Column(g, i)| == |g|
    ensures forall j :: 0 <= j < |g| ==> Column(g, i)[j] == g[j][i]
    ensures MaxLength(g) == if g == [] then 0 else w
  {
    if g != [] {
      ColumnOfRectangle(g[1..], w, i);
    }
  }

  lemma {:induction false} MaxLengthOfEmptyRows<E>(g: seq<seq<E>>)
    requires forall j :: 0 <= j < |g| ==> g[j] == []
    ensures MaxLength(g) == 0
  {
    if g != [] {
      MaxLengthOfEmptyRows(g[1..]);
    }
  }

  /** On d >= 1 rows of a common length w, transpose swaps rows and columns:
      w rows of length d, with out[i][j] == in[j][i]. (With w == 0 the result
      has no rows at all.) */
  lemma TransposeRectangle<E>(xss: List<List<E>>, w: nat)
    requires Length(xss) >= 1
    requires forall j :: 0 <= j < |Grid(xss)| ==> |Grid(xss)[j]| == w
    ensures |Grid(Transpose(xss))| == w
    ensures forall i :: 0 <= i < w ==> |Grid(Transpose(xss))[i]| == Length(xss)
    ensures forall i, j :: 0 <= i < w && 0 <= j < Length(xss) ==>
      Grid(Transpose(xss))[i][j] == Grid(xss)[j][i]
  {
    var g := Grid(xss);
    TransposeColumns(xss);
    if w == 0 {
      MaxLengthOfEmptyRows(g);
    } else {
      ColumnOfRectangle(g, w, 0);
      forall i | 0 <= i < w
        ensures |Grid(Transpose(xss))[i]| == Length(xss)
        ensures forall j :: 0 <= j < Length(xss) ==> Grid(Transpose(xss))[i][j] == g[j][i]
      {
        ColumnOfRectangle(g, w, i);
      }
    }
  }

  /** The ragged example: [[1, 2, 3], [4, 5]] transposes to [[1, 4], [2, 5], [3]]. */
  lemma TransposeRagged()
    ensures Grid(Transpose(FromGrid([[1, 2, 3], [4, 5]]))) == [[1, 4], [2, 5], [3]]
  {
    var g: seq<seq<int>> := [[1, 2, 3], [4, 5]];
    TransposeColumns(FromGrid(g));
    assert g[1..] == [[4, 5]];
    assert MaxLength(g) == 3;
    assert Column(g, 0) == [1, 4];
    assert Column(g, 1) == [2, 5];
    assert Column(g, 2) == [3];
  }
}
