/** A picture: a rectangular block of characters kept as a list of rows,
    with its depth (number of rows) and width (length of every row) cached.
    Every operation builds a new picture out of list combinators. */
module Pictures {
  import opened Exceptions
  import opened Lists
  import opened JavaStrings

  datatype Picture = Picture(text: List<List<char>>, depth: nat, width: nat)

  const Space: char := ' '
  const Horiz: char := '-'
  const Vert: char := '|'

  /** Positions: percentages of padding (or clipping) put before the picture. */
  const TOP: int := 0
  const MID: int := 50
  const BOT: int := 100
  const LFT: int := 0
  const CTR: int := 50
  const RGT: int := 100

  /** The rows of a picture, each as a string. */
  function Rows(p: Picture): seq<seq<char>>
  {
    Grid(p.text)
  }

  /** What the constructor establishes, and the fields being final keep:
      depth counts the rows, every row is width long, and a picture without
      rows has width 0. */
  ghost predicate Valid(p: Picture)
  {
    && p.depth == |Rows(p)|
    && (forall i :: 0 <= i < |Rows(p)| ==> |Rows(p)[i]| == p.width)
    && (p.depth == 0 ==> p.width == 0)
  }

  /*** Construction ***/

  /** Integer.max */
  function Max(a: int, b: int): int
  {
    if a < b then b else a
  }

  function Min(a: int, b: int): int
  {
    if a < b then a else b
  }

  /** `leftJustify(line, width)`: the line followed by spaces up to width. */
  function LeftJustify(line: List<char>, width: int): List<char>
  {
    Append(line, Repeat(width - Length(line), Space))
  }

  /** A left-justified line is the line, then spaces up to the width. */
  lemma LeftJustifyElems(line: List<char>, width: int)
    ensures Elems(LeftJustify(line, width)) == Elems(line) + seq(Max(width - |Elems(line)|, 0), _ => Space)
  {
    RepeatElems(width - Length(line), Space);
  }

  /** `List::length` on a row, as the `int` that `Integer.max` folds over
      (`Lists.Length` gives a `nat`, and a list of `nat` is not a list of
      `int` to the fold). */
  function RowLength(line: List<char>): int
  {
    Length(line)
  }

  /** The width the constructor computes: the right fold of Integer.max over
      the row lengths, seeded with 0. */
  function LongestRow(lines: List<List<char>>): (m: int)
    ensures 0 <= m
  {
    FoldMaxAtLeastSeed(Map(lines, RowLength), 0);
    Foldr(Map(lines, RowLength), Max, 0)
  }

  /** A right fold of max is at least its seed. */
  lemma {:induction false} FoldMaxAtLeastSeed(xs: List<int>, seed: int)
    ensures Foldr(xs, Max, seed) >= seed
  {
    match xs
    case Nil =>
    case Cons(_, t) => FoldMaxAtLeastSeed(t, seed);
  }

  lemma {:induction false} LongestRowIsMax(lines: List<List<char>>)
    ensures var m := Foldr(Map(lines, RowLength), Max, 0);
      && 0 <= m
      && (forall i :: 0 <= i < |Grid(lines)| ==> |Grid(lines)[i]| <= m)
      && (|Grid(lines)| == 0 ==> m == 0)
      && (|Grid(lines)| > 0 ==> exists i :: 0 <= i < |Grid(lines)| && |Grid(lines)[i]| == m)
  {
    match lines
    case Nil =>
    case Cons(r, t) =>
      LongestRowIsMax(t);
      var m := Foldr(Map(t, RowLength), Max, 0);
      assert Map(lines, RowLength) == Cons(RowLength(r), Map(t, RowLength));
      var top := Foldr(Map(lines, RowLength), Max, 0);
      assert top == Max(Length(r), m);
      assert Grid(lines)[0] == Elems(r);
      assert forall i :: 1 <= i < |Grid(lines)| ==> Grid(lines)[i] == Grid(t)[i - 1];
      if Length(r) < m {
        var i :| 0 <= i < |Grid(t)| && |Grid(t)[i]| == m;
        assert Grid(lines)[i + 1] == Grid(t)[i];
      }
  }

  /** `new Picture(lines)`: every row left-justified to the longest one. */
  function MakePicture(lines: List<List<char>>): Picture
  {
    var width := LongestRow(lines);
    Picture(Map(lines, line => LeftJustify(line, width)), Length(lines), width)
  }

  /** The constructor's picture is valid: as many rows as lines, the width of
      the longest line, and every line padded with spaces to that width. */
  lemma MakePictureShape(lines: List<List<char>>)
    ensures var p := MakePicture(lines);
      && Valid(p)
      && p.depth == |Grid(lines)|
      && (forall i :: 0 <= i < |Grid(lines)| ==> |Grid(lines)[i]| <= p.width)
      && (|Grid(lines)| == 0 ==> p.width == 0)
      && (|Grid(lines)| > 0 ==> exists i :: 0 <= i < |Grid(lines)| && |Grid(lines)[i]| == p.width)
      && (forall i :: 0 <= i < |Grid(lines)| ==>
        Rows(p)[i] == Grid(lines)[i] + seq(p.width - |Grid(lines)[i]|, _ => Space))
  {
    LongestRowIsMax(lines);
    JustifiedRows(lines, LongestRow(lines));
  }

  /** Every row of the constructor's picture is its line followed by spaces
      up to the longest line's length. */
  lemma JustifiedRows(lines: List<List<char>>, width: int)
    requires width == LongestRow(lines)
    ensures |Rows(MakePicture(lines))| == |Grid(lines)|
    ensures forall i :: 0 <= i < |Grid(lines)| ==> |Grid(lines)[i]| <= width
    ensures forall i :: 0 <= i < |Grid(lines)| ==>
      Rows(MakePicture(lines))[i] == Grid(lines)[i] + seq(width - |Grid(lines)[i]|, _ => Space)
  {
    LongestRowIsMax(lines);
    JustifiedLines(lines, width);
    assert MakePicture(lines).text == Map(lines, line => LeftJustify(line, width));
  }

  /** Lines no longer than width, each left-justified to width. */
  lemma JustifiedLines(lines: List<List<char>>, width: int)
    requires forall i :: 0 <= i < |Grid(lines)| ==> |Grid(lines)[i]| <= width
    ensures |Grid(Map(lines, line => LeftJustify(line, width)))| == |Grid(lines)|
    ensures forall i :: 0 <= i < |Grid(lines)| ==>
      Grid(Map(lines, line => LeftJustify(line, width)))[i] == Grid(lines)[i] + seq(width - |Grid(lines)[i]|, _ => Space)
  {
    var justified := Map(lines, line => LeftJustify(line, width));
    MapElems(lines, line => LeftJustify(line, width));
    forall i | 0 <= i < |Grid(lines)|
      ensures Grid(justified)[i] == Grid(lines)[i] + seq(width - |Grid(lines)[i]|, _ => Space)
    {
      assert Elems(justified)[i] == LeftJustify(Elems(lines)[i], width);
      LeftJustifyElems(Elems(lines)[i], width);
    }
  }

  /** `stringToListOfCharacters(s)`: the first character consed onto the
      list of the rest. */
  function StringToChars(s: string): (cs: List<char>)
    ensures Elems(cs) == s
  {
    if |s| == 0 then Nil
    else Cons(s[0], StringToChars(s[1..]))
  }

  /** `new Picture(string)`: the lines of the string, split at newlines. The
      source turns the array of lines into a list with `arrayToList`, whose
      result FromSeq gives. */
  function FromString(s: string): Picture
  {
    MakePicture(Map(FromSeq(Split(s)), StringToChars))
  }

  /** `emptyPicture()` is `new Picture("")`: one empty row, as
      PictureLaws.EmptyPictureIsFromString proves. */
  function EmptyPicture(): Picture
  {
    Picture(Cons(Nil, Nil), 1, 0)
  }

  /** `box(d, w, c)`: d rows of w copies of c. The source joins d lines of w
      copies of c with newlines and reads them back with the string
      constructor, which splits a text of newlines into no lines at all;
      PictureLaws.BoxIsFromString proves this definition equal to that
      construction. */
  function Box(d: int, w: int, c: char): Picture
  {
    if d <= 0 || w <= 0 then EmptyPicture()
    else if c == '\n' then Picture(Nil, 0, 0)
    else Picture(Repeat(d, Repeat(w, c)), d, w)
  }

  predicate IsEmpty(p: Picture)
  {
    p.depth == 0 || p.width == 0
  }

  function CharToString(c: char): string
  {
    [c]
  }

  function StringConcat(a: string, b: string): string
  {
    a + b
  }

  /** The private `toString(line)`: the characters as strings, folded with +. */
  function RowToString(line: List<char>): (s: string)
    ensures s == Elems(line)
  {
    RowToStringIsElems(line);
    Foldr(Map(line, CharToString), StringConcat, "")
  }

  lemma {:induction false} RowToStringIsElems(line: List<char>)
    ensures Foldr(Map(line, CharToString), StringConcat, "") == Elems(line)
  {
    match line
    case Nil =>
    case Cons(c, t) => RowToStringIsElems(t);
  }

  /** `toString()`: the rows joined with newlines. */
  function ToString(p: Picture): (s: string)
    ensures s == Join(Rows(p), '\n')
  {
    var lines := Map(p.text, RowToString);
    MapElems(p.text, RowToString);
    assert Elems(lines) == Rows(p);
    Join(Elems(lines), '\n')
  }

  /** `map(f)`: f applied to every character. */
  function MapPicture(p: Picture, f: char -> char): Picture
  {
    MakePicture(Map(p.text, line => Map(line, f)))
  }

  /*** Composition ***/

  /** `aboveAligned`: the rows of p then those of q; an empty operand gives the
      other one back. */
  function AboveAligned(p: Picture, q: Picture): Picture
  {
    if IsEmpty(p) then q
    else if IsEmpty(q) then p
    else MakePicture(Append(p.text, q.text))
  }

  /** `besideAligned`: each row of p joined to the row of q beside it. */
  function BesideAligned(p: Picture, q: Picture): Picture
  {
    if IsEmpty(p) then q
    else if IsEmpty(q) then p
    else MakePicture(ZipWith(p.text, q.text, AppendOp))
  }

  /** The position clamped into 0..100. */
  function Clamp(position: int): int
  {
    Min(Max(position, 0), 100)
  }

  function Abs(n: int): nat
  {
    if n < 0 then -n else n
  }

  /** a * k, as repeated addition. `FixWidth` and `FixDepth` are unfolded in
      many proofs; writing `len * pos` there directly would bring a nonlinear
      product into every such unfolding, which makes those proofs much more
      expensive for the solver. `TimesIsProduct` shows this is the product. */
  function Times(a: nat, k: nat): nat
  {
    if k == 0 then 0 else Times(a, k - 1) + a
  }

  lemma {:induction false} TimesIsProduct(a: nat, k: nat)
    ensures Times(a, k) == a * k
  {
    if k > 0 {
      TimesIsProduct(a, k - 1);
    }
  }

  lemma {:induction false} TimesMonotonic(a: nat, j: nat, k: nat)
    requires j <= k
    ensures Times(a, j) <= Times(a, k)
    decreases k
  {
    if j < k {
      TimesMonotonic(a, j, k - 1);
    }
  }

  /** The leading share `len * pos / 100` of len, with pos the position
      clamped into 0..100. */
  function LeadingShare(len: nat, position: int): nat
  {
    Times(len, Clamp(position)) / 100
  }

  /** The leading share is the product the source computes, never negative
      (so Java's and Dafny's division agree) and never more than len. */
  lemma LeadingShareBound(len: nat, position: int)
    ensures LeadingShare(len, position) == len * Clamp(position) / 100
    ensures LeadingShare(len, position) <= len
  {
    TimesMonotonic(len, Clamp(position), 100);
    TimesIsProduct(len, 100);
    TimesIsProduct(len, Clamp(position));
  }

  /** `fixWidth(width, position, fill)`: pad with fill boxes left and right, or
      clip columns on the left and right, to the given width. */
  function FixWidth(p: Picture, width: int, position: int, fill: char): Picture
  {
    var len := Abs(width - p.width);
    var leftWidth := LeadingShare(len, position);
    var rightWidth := len - leftWidth;
    if width < 1 then EmptyPicture()
    else if width > p.width then
      BesideAligned(BesideAligned(Box(p.depth, leftWidth, fill), p), Box(p.depth, rightWidth, fill))
    else
      MakePicture(ClipColumns(p.text, leftWidth, width + leftWidth))
  }

  /** The clipping branch of `fixWidth`: every row taken to hi, then dropped
      from lo. */
  function ClipColumns(text: List<List<char>>, lo: int, hi: int): List<List<char>>
  {
    Map(Map(text, line => Take(line, hi)), line => Drop(line, lo))
  }

  /** `fixDepth(depth, position, fill)`: pad with fill boxes above and below,
      or clip rows at the top and bottom, to the given depth. */
  function FixDepth(p: Picture, depth: int, position: int, fill: char): Picture
  {
    var len := Abs(depth - p.depth);
    var topDepth := LeadingShare(len, position);
    var botDepth := len - topDepth;
    if depth < 1 then EmptyPicture()
    else if depth > p.depth then
      AboveAligned(AboveAligned(Box(topDepth, p.width, fill), p), Box(botDepth, p.width, fill))
    else
      MakePicture(Drop(Take(p.text, depth + topDepth), topDepth))
  }

  /** The private `above(that, position, fill)`: the narrower picture is first
      fixed to the wider one's width. */
  function AboveFill(p: Picture, q: Picture, position: int, fill: char): Picture
  {
    if IsEmpty(p) then q
    else if IsEmpty(q) then p
    else if p.width < q.width then AboveAligned(FixWidth(p, q.width, position, fill), q)
    else AboveAligned(p, FixWidth(q, p.width, position, fill))
  }

  /** The private `beside(that, position, fill)`: the shallower picture is
      first fixed to the deeper one's depth. */
  function BesideFill(p: Picture, q: Picture, position: int, fill: char): Picture
  {
    if IsEmpty(p) then q
    else if IsEmpty(q) then p
    else if p.depth < q.depth then BesideAligned(FixDepth(p, q.depth, position, fill), q)
    else BesideAligned(p, FixDepth(q, p.depth, position, fill))
  }

  /** The public `above(that, position)`, padding with spaces. */
  function Above(p: Picture, q: Picture, position: int): Picture
  {
    AboveFill(p, q, position, Space)
  }

  /** The public `beside(that, position)`, padding with spaces. */
  function Beside(p: Picture, q: Picture, position: int): Picture
  {
    BesideFill(p, q, position, Space)
  }

  /*** Transformations ***/

  /** `transpose()`: the list transpose of the rows. */
  function Transpose(p: Picture): Picture
  {
    MakePicture(Lists.Transpose(p.text))
  }

  /** `reflectHorizontal()`: the rows in reverse order. */
  function ReflectHorizontal(p: Picture): Picture
  {
    MakePicture(Reverse(p.text))
  }

  function ReverseOf(line: List<char>): List<char>
  {
    Reverse(line)
  }

  /** `reflectVertical()`: every row reversed. */
  function ReflectVertical(p: Picture): Picture
  {
    MakePicture(Map(p.text, ReverseOf))
  }

  /** Java's `%` on int: the remainder takes the sign of the dividend. */
  function JavaRem(a: int, b: int): int
    requires b > 0
  {
    if a >= 0 then a % b else -((-a) % b)
  }

  /** `rotate(quadrants)`, switching on `quadrants % 4`: 1, 2 and 3 rotate,
      every other remainder (0 and the negative ones) leaves p as it is. */
  function Rotate(p: Picture, quadrants: int): Picture
  {
    match JavaRem(quadrants, 4)
    case 1 => ReflectVertical(Transpose(p))
    case 2 => ReflectVertical(ReflectHorizontal(p))
    case 3 => ReflectHorizontal(Transpose(p))
    case _ => p
  }

  /*** Folds over lists of pictures ***/

  /** `stack(pictures, position, fill)`: the right fold of above, seeded with
      the empty picture. */
  function StackFill(pictures: List<Picture>, position: int, fill: char): Picture
  {
    Foldr(pictures, (p: Picture, q: Picture) => AboveFill(p, q, position, fill), EmptyPicture())
  }

  /** `spread(pictures, position, fill)`: the right fold of beside, seeded with
      the empty picture. */
  function SpreadFill(pictures: List<Picture>, position: int, fill: char): Picture
  {
    Foldr(pictures, (p: Picture, q: Picture) => BesideFill(p, q, position, fill), EmptyPicture())
  }

  function Stack(pictures: List<Picture>, position: int): Picture
  {
    StackFill(pictures, position, Space)
  }

  function Spread(pictures: List<Picture>, position: int): Picture
  {
    SpreadFill(pictures, position, Space)
  }

  /*** Borders and frames ***/

  /** A column of depth(p) one-cell boxes of fill, stacked left-aligned, then p. */
  function LeftBorder(p: Picture, fill: char): Picture
  {
    Beside(Stack(Repeat(p.depth, Box(1, 1, fill)), LFT), p, TOP)
  }

  function RightBorder(p: Picture, fill: char): Picture
  {
    Beside(p, Stack(Repeat(p.depth, Box(1, 1, fill)), RGT), TOP)
  }

  /** A row of width(p) one-cell boxes of fill, spread top-aligned, above p. */
  function TopBorder(p: Picture, fill: char): Picture
  {
    Above(Spread(Repeat(p.width, Box(1, 1, fill)), TOP), p, LFT)
  }

  function BottomBorder(p: Picture, fill: char): Picture
  {
    Above(p, Spread(Repeat(p.width, Box(1, 1, fill)), TOP), LFT)
  }

  /** `border(fill)`: top, then bottom, then left, then right. */
  function Border(p: Picture, fill: char): Picture
  {
    RightBorder(LeftBorder(BottomBorder(TopBorder(p, fill), fill), fill), fill)
  }

  function LeftFrame(p: Picture): Picture
  {
    LeftBorder(p, Vert)
  }

  function RightFrame(p: Picture): Picture
  {
    RightBorder(p, Vert)
  }

  function TopFrame(p: Picture): Picture
  {
    TopBorder(p, Horiz)
  }

  function BottomFrame(p: Picture): Picture
  {
    BottomBorder(p, Horiz)
  }

  /** `frame()`: left, right, top, then bottom frame. */
  function Frame(p: Picture): Picture
  {
    BottomFrame(TopFrame(RightFrame(LeftFrame(p))))
  }

  /*** Tables ***/

  /** The method reference `Picture::width` that `maxWidth` maps with: a
      datatype field is not a function value of its own. */
  function WidthOf(p: Picture): int
  {
    p.width
  }

  /** The method reference `Picture::depth` that `maxDepth` maps with. */
  function DepthOf(p: Picture): int
  {
    p.depth
  }

  /** The largest measure of the pictures, or start if that is larger: the
      running maximum a stream's `max()` keeps. */
  function Largest(ps: List<Picture>, size: Picture -> int, start: int): (m: int)
    ensures start <= m
    ensures m == start || exists q :: q in Elems(ps) && size(q) == m
    ensures forall q :: q in Elems(ps) ==> size(q) <= m
  {
    match ps
    case Nil => start
    case Cons(q, rest) => Largest(rest, size, Max(start, size(q)))
  }

  /** `maxWidth(pictures)`: the largest width; the stream's `max().getAsInt()`
      throws NoSuchElement on an empty list. */
  function MaxWidth(pictures: List<Picture>): (r: Result<int>)
    ensures pictures.Nil? <==> r == Throws(NoSuchElement)
    ensures r.Ok? ==> exists p :: p in Elems(pictures) && p.width == r.value
    ensures r.Ok? ==> forall p :: p in Elems(pictures) ==> p.width <= r.value
  {
    match pictures
    case Nil => Throws(NoSuchElement)
    case Cons(p, rest) => Ok(Largest(rest, WidthOf, p.width))
  }

  /** `maxDepth(pictures)`: the largest depth; throws on an empty list. */
  function MaxDepth(pictures: List<Picture>): (r: Result<int>)
    ensures pictures.Nil? <==> r == Throws(NoSuchElement)
    ensures r.Ok? ==> exists p :: p in Elems(pictures) && p.depth == r.value
    ensures r.Ok? ==> forall p :: p in Elems(pictures) ==> p.depth <= r.value
  {
    match pictures
    case Nil => Throws(NoSuchElement)
    case Cons(p, rest) => Ok(Largest(rest, DepthOf, p.depth))
  }

  /** `normaliseCol(pictures, position, fill)`: every picture fixed to the
      largest width. */
  function NormaliseColFill(pictures: List<Picture>, position: int, fill: char): Result<List<Picture>>
  {
    var width :- MaxWidth(pictures);
    Ok(Map(pictures, (p: Picture) => FixWidth(p, width, position, fill)))
  }

  /** `normaliseRow(pictures, position, fill)`: every picture fixed to the
      largest depth. */
  function NormaliseRowFill(pictures: List<Picture>, position: int, fill: char): Result<List<Picture>>
  {
    var depth :- MaxDepth(pictures);
    Ok(Map(pictures, (p: Picture) => FixDepth(p, depth, position, fill)))
  }

  function NormaliseCol(pictures: List<Picture>, position: int): Result<List<Picture>>
  {
    NormaliseColFill(pictures, position, Space)
  }

  function NormaliseRow(pictures: List<Picture>, position: int): Result<List<Picture>>
  {
    NormaliseRowFill(pictures, position, Space)
  }

  /** `tableCol`: the pictures at a common width, each with a top frame,
      stacked, with one bottom frame under all of them. */
  function TableColFill(pictures: List<Picture>, position: int, fill: char): Result<Picture>
  {
    var cells :- NormaliseColFill(pictures, position, fill);
    Ok(BottomFrame(StackFill(Map(cells, TopFrame), position, fill)))
  }

  /** `tableRow`: the pictures at a common depth, each with a left frame,
      spread, with one right frame after all of them. */
  function TableRowFill(pictures: List<Picture>, position: int, fill: char): Result<Picture>
  {
    var cells :- NormaliseRowFill(pictures, position, fill);
    Ok(RightFrame(SpreadFill(Map(cells, LeftFrame), position, fill)))
  }

  function TableCol(pictures: List<Picture>, position: int): Result<Picture>
  {
    TableColFill(pictures, position, Space)
  }

  function TableRow(pictures: List<Picture>, position: int): Result<Picture>
  {
    TableRowFill(pictures, position, Space)
  }
}
