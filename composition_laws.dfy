/** Composition of pictures with padding: `above` and `beside` of two
    pictures, stacks and spreads of lists of pictures, borders and frames. */
module CompositionLaws {
  import opened Lists
  import opened Pictures
  import opened PictureLaws

  /*** Above and beside with padding ***/

  /** `above(that, position, fill)` of two non-empty pictures: the narrower one
      is fixed to the wider one's width, then the rows of the first come
      above those of the second. */
  lemma AboveFillShape(p: Picture, q: Picture, position: int, fill: char)
    requires Valid(p) && Valid(q)
    requires !Pictures.IsEmpty(p) && !Pictures.IsEmpty(q)
    requires fill != '\n'
    ensures var w := Max(p.width, q.width);
      var r := AboveFill(p, q, position, fill);
      && Valid(r)
      && r.depth == p.depth + q.depth && r.width == w
      && Rows(r) == Rows(FixWidth(p, w, position, fill)) + Rows(FixWidth(q, w, position, fill))
  {
    if p.width < q.width {
      FixWidthPad(p, q.width, position, fill);
      FixWidthSame(q, position, fill);
      AboveAlignedRows(FixWidth(p, q.width, position, fill), q);
    } else {
      FixWidthSame(p, position, fill);
      if q.width < p.width {
        FixWidthPad(q, p.width, position, fill);
      } else {
        FixWidthSame(q, position, fill);
      }
      AboveAlignedRows(p, FixWidth(q, p.width, position, fill));
    }
  }

  /** `beside(that, position, fill)` of two non-empty pictures: the shallower
      one is fixed to the deeper one's depth, then each row of the first is
      joined to the row of the second beside it. */
  lemma BesideFillShape(p: Picture, q: Picture, position: int, fill: char)
    requires Valid(p) && Valid(q)
    requires !Pictures.IsEmpty(p) && !Pictures.IsEmpty(q)
    requires fill != '\n'
    ensures var d := Max(p.depth, q.depth);
      && Valid(FixDepth(p, d, position, fill)) && FixDepth(p, d, position, fill).depth == d
      && Valid(FixDepth(q, d, position, fill)) && FixDepth(q, d, position, fill).depth == d
    ensures var d := Max(p.depth, q.depth);
      var r := BesideFill(p, q, position, fill);
      && Valid(r)
      && r.depth == d && r.width == p.width + q.width
      && forall i :: 0 <= i < d ==>
        Rows(r)[i] == Rows(FixDepth(p, d, position, fill))[i] + Rows(FixDepth(q, d, position, fill))[i]
  {
    if p.depth < q.depth {
      FixDepthPad(p, q.depth, position, fill);
      FixDepthSame(q, position, fill);
      BesideAlignedRows(FixDepth(p, q.depth, position, fill), q);
    } else {
      FixDepthSame(p, position, fill);
      if q.depth < p.depth {
        FixDepthPad(q, p.depth, position, fill);
      } else {
        FixDepthSame(q, position, fill);
      }
      BesideAlignedRows(p, FixDepth(q, p.depth, position, fill));
    }
  }

  /*** Stacks and spreads ***/

  /** The rows of the pictures, one picture after another. */
  ghost function StackedRows(ps: List<Picture>): seq<string>
  {
    match ps
    case Nil => []
    case Cons(q, t) => Rows(q) + StackedRows(t)
  }

  ghost function TotalDepth(ps: List<Picture>): nat
  {
    match ps
    case Nil => 0
    case Cons(q, t) => q.depth + TotalDepth(t)
  }

  /** Row i of every picture, joined left to right. */
  ghost function RowAcross(ps: List<Picture>, i: nat): string
  {
    match ps
    case Nil => []
    case Cons(q, t) => (if i < |Rows(q)| then Rows(q)[i] else []) + RowAcross(t, i)
  }

  ghost function TotalWidth(ps: List<Picture>): nat
  {
    match ps
    case Nil => 0
    case Cons(q, t) => q.width + TotalWidth(t)
  }

  /** Every picture of the list is valid and w wide. */
  ghost predicate AllWidth(ps: List<Picture>, w: nat)
  {
    forall q :: q in Elems(ps) ==> Valid(q) && q.width == w
  }

  /** Every picture of the list is valid, d deep and not empty. */
  ghost predicate AllDepth(ps: List<Picture>, d: nat)
  {
    forall q :: q in Elems(ps) ==> Valid(q) && q.depth == d && q.width >= 1
  }

  /** `aboveAligned` and `besideAligned` give back the other operand when one
      of the two is empty; when both are, the second comes back. */
  lemma AlignedEmptyOperand(p: Picture, q: Picture)
    ensures Pictures.IsEmpty(p) ==> AboveAligned(p, q) == q && BesideAligned(p, q) == q
    ensures !Pictures.IsEmpty(p) && Pictures.IsEmpty(q) ==> AboveAligned(p, q) == p && BesideAligned(p, q) == p
  {
  }

  /** The same holds of the padding `above` and `beside`, whatever the position
      and fill. */
  lemma FillEmptyOperand(p: Picture, q: Picture, position: int, fill: char)
    ensures Pictures.IsEmpty(p) ==> AboveFill(p, q, position, fill) == q && BesideFill(p, q, position, fill) == q
    ensures !Pictures.IsEmpty(p) && Pictures.IsEmpty(q) ==>
      AboveFill(p, q, position, fill) == p && BesideFill(p, q, position, fill) == p
  {
  }

  /** `stack` and `spread` of no pictures give the empty picture; of one
      picture, that picture, unless it is empty, when the seed comes back. */
  lemma FoldsOfFew(p: Picture, position: int, fill: char)
    ensures StackFill(Nil, position, fill) == EmptyPicture()
    ensures SpreadFill(Nil, position, fill) == EmptyPicture()
    ensures StackFill(Cons(p, Nil), position, fill) == if Pictures.IsEmpty(p) then EmptyPicture() else p
    ensures SpreadFill(Cons(p, Nil), position, fill) == if Pictures.IsEmpty(p) then EmptyPicture() else p
  {
    StackCons(p, Nil, position, fill);
    SpreadCons(p, Nil, position, fill);
  }

  /** One step of the fold behind `stack`. */
  lemma StackCons(q: Picture, t: List<Picture>, position: int, fill: char)
    ensures StackFill(Cons(q, t), position, fill) == AboveFill(q, StackFill(t, position, fill), position, fill)
  {
  }

  /** One step of the fold behind `spread`. */
  lemma SpreadCons(q: Picture, t: List<Picture>, position: int, fill: char)
    ensures SpreadFill(Cons(q, t), position, fill) == BesideFill(q, SpreadFill(t, position, fill), position, fill)
  {
  }

  /** `stack` of pictures of one positive width: their rows one after another,
      with no padding. */
  lemma {:induction false} StackSameWidth(ps: List<Picture>, w: nat, position: int, fill: char)
    requires ps.Cons? && w >= 1
    requires AllWidth(ps, w)
    ensures var r := StackFill(ps, position, fill);
      Valid(r) && r.width == w && r.depth == TotalDepth(ps) && Rows(r) == StackedRows(ps)
  {
    var q := ps.head;
    var t := ps.tail;
    StackCons(q, t, position, fill);
    assert q in Elems(ps);
    if t.Nil? {
      EmptyPictureShape();
      assert StackFill(ps, position, fill) == q;
    } else {
      assert forall x :: x in Elems(t) ==> x in Elems(ps);
      StackSameWidth(t, w, position, fill);
      var below := StackFill(t, position, fill);
      FixWidthSame(below, position, fill);
      AboveAlignedRows(q, below);
    }
  }

  /** `spread` of pictures of one positive depth: their rows joined side by
      side, with no padding. */
  lemma {:induction false} SpreadSameDepth(ps: List<Picture>, d: nat, position: int, fill: char)
    requires ps.Cons? && d >= 1
    requires AllDepth(ps, d)
    ensures var r := SpreadFill(ps, position, fill);
      && Valid(r) && r.depth == d && r.width == TotalWidth(ps)
      && forall i :: 0 <= i < d ==> Rows(r)[i] == RowAcross(ps, i)
  {
    var q := ps.head;
    var t := ps.tail;
    SpreadCons(q, t, position, fill);
    assert q in Elems(ps);
    if t.Nil? {
      EmptyPictureShape();
      assert SpreadFill(ps, position, fill) == q;
    } else {
      assert forall x :: x in Elems(t) ==> x in Elems(ps);
      SpreadSameDepth(t, d, position, fill);
      assert t.head in Elems(t);
      var right := SpreadFill(t, position, fill);
      FixDepthSame(right, position, fill);
      BesideAlignedRows(q, right);
    }
  }

  /** The rows and the depth of n stacked copies of a one-cell picture. */
  lemma {:induction false} StackedCells(n: int, b: Picture, c: char)
    requires Rows(b) == [[c]] && b.depth == 1
    ensures StackedRows(Repeat(n, b)) == seq(if n <= 0 then 0 else n, _ => [c])
    ensures TotalDepth(Repeat(n, b)) == if n <= 0 then 0 else n
    decreases n
  {
    if n > 0 {
      StackedCells(n - 1, b, c);
    }
  }

  /** The single row and the width of n spread copies of a one-cell picture. */
  lemma {:induction false} SpreadCells(n: int, b: Picture, c: char)
    requires Rows(b) == [[c]] && b.width == 1
    ensures RowAcross(Repeat(n, b), 0) == Fill(if n <= 0 then 0 else n, c)
    ensures TotalWidth(Repeat(n, b)) == if n <= 0 then 0 else n
    decreases n
  {
    if n > 0 {
      SpreadCells(n - 1, b, c);
      assert Fill(n, c) == [c] + Fill(n - 1, c);
    }
  }

  /** n one-cell boxes of c, stacked: a column of n cells. */
  lemma ColumnOfCells(n: int, c: char, position: int, fill: char)
    requires n >= 1 && c != '\n'
    ensures var r := StackFill(Repeat(n, Box(1, 1, c)), position, fill);
      Valid(r) && r.depth == n && r.width == 1 && Rows(r) == seq(n, _ => [c])
  {
    var b := Box(1, 1, c);
    BoxShape(1, 1, c);
    assert Fill(1, c) == [c];
    assert Rows(b) == [Fill(1, c)];
    RepeatElems(n, b);
    StackedCells(n, b, c);
    StackSameWidth(Repeat(n, b), 1, position, fill);
  }

  /** n one-cell boxes of c, spread: a row of n cells. */
  lemma RowOfCells(n: int, c: char, position: int, fill: char)
    requires n >= 1 && c != '\n'
    ensures var r := SpreadFill(Repeat(n, Box(1, 1, c)), position, fill);
      Valid(r) && r.depth == 1 && r.width == n && Rows(r) == [Fill(n, c)]
  {
    var b := Box(1, 1, c);
    BoxShape(1, 1, c);
    assert Fill(1, c) == [c];
    assert Rows(b) == [Fill(1, c)];
    RepeatElems(n, b);
    SpreadCells(n, b, c);
    SpreadSameDepth(Repeat(n, b), 1, position, fill);
  }

  /*** Borders and frames ***/

  /** `leftBorder(fill)`: a column of fill joined on the left. */
  lemma LeftBorderShape(p: Picture, fill: char)
    requires Valid(p) && !Pictures.IsEmpty(p) && fill != '\n'
    ensures var r := LeftBorder(p, fill);
      && Valid(r) && r.depth == p.depth && r.width == p.width + 1
      && forall i :: 0 <= i < p.depth ==> Rows(r)[i] == [fill] + Rows(p)[i]
  {
    var column := Stack(Repeat(p.depth, Box(1, 1, fill)), LFT);
    ColumnOfCells(p.depth, fill, LFT, Space);
    BesideFillShape(column, p, TOP, Space);
    FixDepthSame(column, TOP, Space);
    FixDepthSame(p, TOP, Space);
  }

  /** `rightBorder(fill)`: a column of fill joined on the right. */
  lemma RightBorderShape(p: Picture, fill: char)
    requires Valid(p) && !Pictures.IsEmpty(p) && fill != '\n'
    ensures var r := RightBorder(p, fill);
      && Valid(r) && r.depth == p.depth && r.width == p.width + 1
      && forall i :: 0 <= i < p.depth ==> Rows(r)[i] == Rows(p)[i] + [fill]
  {
    var column := Stack(Repeat(p.depth, Box(1, 1, fill)), RGT);
    ColumnOfCells(p.depth, fill, RGT, Space);
    BesideFillShape(p, column, TOP, Space);
    FixDepthSame(column, TOP, Space);
    FixDepthSame(p, TOP, Space);
  }

  /** `topBorder(fill)`: a row of fill put on top. */
  lemma TopBorderShape(p: Picture, fill: char)
    requires Valid(p) && !Pictures.IsEmpty(p) && fill != '\n'
    ensures var r := TopBorder(p, fill);
      && Valid(r) && r.depth == p.depth + 1 && r.width == p.width
      && Rows(r) == [Fill(p.width, fill)] + Rows(p)
  {
    var row := Spread(Repeat(p.width, Box(1, 1, fill)), TOP);
    RowOfCells(p.width, fill, TOP, Space);
    AboveFillShape(row, p, LFT, Space);
    FixWidthSame(row, LFT, Space);
    FixWidthSame(p, LFT, Space);
  }

  /** `bottomBorder(fill)`: a row of fill put underneath. */
  lemma BottomBorderShape(p: Picture, fill: char)
    requires Valid(p) && !Pictures.IsEmpty(p) && fill != '\n'
    ensures var r := BottomBorder(p, fill);
      && Valid(r) && r.depth == p.depth + 1 && r.width == p.width
      && Rows(r) == Rows(p) + [Fill(p.width, fill)]
  {
    var row := Spread(Repeat(p.width, Box(1, 1, fill)), TOP);
    RowOfCells(p.width, fill, TOP, Space);
    AboveFillShape(p, row, LFT, Space);
    FixWidthSame(row, LFT, Space);
    FixWidthSame(p, LFT, Space);
  }

  /** A column of fill on the left, then one on the right. */
  lemma SidesShape(p: Picture, fill: char)
    requires Valid(p) && !Pictures.IsEmpty(p) && fill != '\n'
    ensures var r := RightBorder(LeftBorder(p, fill), fill);
      && Valid(r) && r.depth == p.depth && r.width == p.width + 2
      && forall i :: 0 <= i < p.depth ==> Rows(r)[i] == [fill] + Rows(p)[i] + [fill]
  {
    LeftBorderShape(p, fill);
    RightBorderShape(LeftBorder(p, fill), fill);
  }

  /** A row of fill on top, then one underneath. */
  lemma CapsShape(p: Picture, fill: char)
    requires Valid(p) && !Pictures.IsEmpty(p) && fill != '\n'
    ensures var r := BottomBorder(TopBorder(p, fill), fill);
      && Valid(r) && r.depth == p.depth + 2 && r.width == p.width
      && Rows(r) == [Fill(p.width, fill)] + Rows(p) + [Fill(p.width, fill)]
  {
    TopBorderShape(p, fill);
    BottomBorderShape(TopBorder(p, fill), fill);
  }

  /** `border(fill)`: a ring of fill, one cell thick, round the picture. */
  lemma BorderShape(p: Picture, fill: char)
    requires Valid(p) && !Pictures.IsEmpty(p) && fill != '\n'
    ensures var r := Border(p, fill);
      && Valid(r) && r.depth == p.depth + 2 && r.width == p.width + 2
      && Rows(r)[0] == Fill(p.width + 2, fill)
      && Rows(r)[p.depth + 1] == Fill(p.width + 2, fill)
      && forall i :: 0 <= i < p.depth ==> Rows(r)[i + 1] == [fill] + Rows(p)[i] + [fill]
  {
    CapsShape(p, fill);
    SidesShape(BottomBorder(TopBorder(p, fill), fill), fill);
    FillBracketed(p.width, fill);
  }

  /** A cell of c either side of n copies of c: n + 2 copies. */
  lemma FillBracketed(n: nat, c: char)
    ensures [c] + Fill(n, c) + [c] == Fill(n + 2, c)
  {
    assert forall k :: 0 <= k < n + 2 ==> ([c] + Fill(n, c) + [c])[k] == c;
  }

  /** `frame()`: bars down the sides, then dashes along the top and the
      bottom, which also fill the corners. */
  lemma FrameShape(p: Picture)
    requires Valid(p) && !Pictures.IsEmpty(p)
    ensures var r := Frame(p);
      && Valid(r) && r.depth == p.depth + 2 && r.width == p.width + 2
      && Rows(r)[0] == Fill(p.width + 2, Horiz)
      && Rows(r)[p.depth + 1] == Fill(p.width + 2, Horiz)
      && forall i :: 0 <= i < p.depth ==> Rows(r)[i + 1] == [Vert] + Rows(p)[i] + [Vert]
  {
    SidesShape(p, Vert);
    CapsShape(RightBorder(LeftBorder(p, Vert), Vert), Horiz);
  }
}
