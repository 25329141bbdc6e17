/** The table operations: lists of pictures brought to one width (or depth)
    and ruled off with frame lines. */
module TableLaws {
  import opened Exceptions
  import opened Lists
  import opened Pictures
  import opened PictureLaws
  import opened CompositionLaws

  /** Every picture of the list is valid and not empty. */
  ghost predicate AllNonEmpty(ps: List<Picture>)
  {
    forall q :: q in Elems(ps) ==> Valid(q) && !Pictures.IsEmpty(q)
  }

  /*** Normalising ***/

  /** `normaliseCol`: every picture fixed to the largest width; an empty list
      throws, as `maxWidth` does. */
  lemma NormaliseColShape(pictures: List<Picture>, position: int, fill: char)
    ensures pictures.Nil? ==> NormaliseColFill(pictures, position, fill) == Throws(NoSuchElement)
    ensures pictures.Cons? ==>
      var r := NormaliseColFill(pictures, position, fill);
      && r.Ok?
      && |Elems(r.value)| == |Elems(pictures)|
      && forall i :: 0 <= i < |Elems(pictures)| ==>
        Elems(r.value)[i] == FixWidth(Elems(pictures)[i], MaxWidth(pictures).value, position, fill)
  {
    if pictures.Cons? {
      var w := MaxWidth(pictures).value;
      MapElems(pictures, (p: Picture) => FixWidth(p, w, position, fill));
    }
  }

  /** `normaliseRow`: every picture fixed to the largest depth; an empty list
      throws, as `maxDepth` does. */
  lemma NormaliseRowShape(pictures: List<Picture>, position: int, fill: char)
    ensures pictures.Nil? ==> NormaliseRowFill(pictures, position, fill) == Throws(NoSuchElement)
    ensures pictures.Cons? ==>
      var r := NormaliseRowFill(pictures, position, fill);
      && r.Ok?
      && |Elems(r.value)| == |Elems(pictures)|
      && forall i :: 0 <= i < |Elems(pictures)| ==>
        Elems(r.value)[i] == FixDepth(Elems(pictures)[i], MaxDepth(pictures).value, position, fill)
  {
    if pictures.Cons? {
      var d := MaxDepth(pictures).value;
      MapElems(pictures, (p: Picture) => FixDepth(p, d, position, fill));
    }
  }

  /** After `normaliseCol`, non-empty pictures all have the largest width and
      keep their depths. */
  lemma NormaliseColWidths(pictures: List<Picture>, position: int, fill: char)
    requires pictures.Cons? && AllNonEmpty(pictures) && fill != '\n'
    ensures |Elems(NormaliseColFill(pictures, position, fill).value)| == |Elems(pictures)|
    ensures var cells := NormaliseColFill(pictures, position, fill).value;
      && AllWidth(cells, MaxWidth(pictures).value)
      && MaxWidth(pictures).value >= 1
      && forall i :: 0 <= i < |Elems(pictures)| ==> Elems(cells)[i].depth == Elems(pictures)[i].depth
  {
    var w := MaxWidth(pictures).value;
    var cells := NormaliseColFill(pictures, position, fill).value;
    NormaliseColShape(pictures, position, fill);
    assert pictures.head in Elems(pictures);
    forall i | 0 <= i < |Elems(pictures)|
      ensures Valid(Elems(cells)[i]) && Elems(cells)[i].width == w
      ensures Elems(cells)[i].depth == Elems(pictures)[i].depth
    {
      var q := Elems(pictures)[i];
      assert q in Elems(pictures);
      FixWidthWidens(q, w, position, fill);
    }
  }

  /** After `normaliseRow`, non-empty pictures all have the largest depth and
      keep their widths. */
  lemma NormaliseRowDepths(pictures: List<Picture>, position: int, fill: char)
    requires pictures.Cons? && AllNonEmpty(pictures) && fill != '\n'
    ensures |Elems(NormaliseRowFill(pictures, position, fill).value)| == |Elems(pictures)|
    ensures var cells := NormaliseRowFill(pictures, position, fill).value;
      && AllDepth(cells, MaxDepth(pictures).value)
      && MaxDepth(pictures).value >= 1
      && forall i :: 0 <= i < |Elems(pictures)| ==> Elems(cells)[i].width == Elems(pictures)[i].width
  {
    var d := MaxDepth(pictures).value;
    var cells := NormaliseRowFill(pictures, position, fill).value;
    NormaliseRowShape(pictures, position, fill);
    assert pictures.head in Elems(pictures);
    forall i | 0 <= i < |Elems(pictures)|
      ensures Valid(Elems(cells)[i]) && Elems(cells)[i].depth == d && Elems(cells)[i].width >= 1
      ensures Elems(cells)[i].width == Elems(pictures)[i].width
    {
      var q := Elems(pictures)[i];
      assert q in Elems(pictures);
      FixDepthDeepens(q, d, position, fill);
    }
  }

  /** Two lists of pictures whose depths agree index by index have the same
      total depth. */
  lemma {:induction false} SameDepths(xs: List<Picture>, ys: List<Picture>)
    requires |Elems(xs)| == |Elems(ys)|
    requires forall i :: 0 <= i < |Elems(xs)| ==> Elems(xs)[i].depth == Elems(ys)[i].depth
    ensures TotalDepth(xs) == TotalDepth(ys)
  {
    if xs.Cons? {
      assert Elems(xs)[0] == xs.head && Elems(ys)[0] == ys.head;
      forall i | 0 <= i < |Elems(xs.tail)|
        ensures Elems(xs.tail)[i].depth == Elems(ys.tail)[i].depth
      {
        assert Elems(xs)[i + 1] == Elems(xs.tail)[i] && Elems(ys)[i + 1] == Elems(ys.tail)[i];
      }
      SameDepths(xs.tail, ys.tail);
    }
  }

  /** Two lists of pictures whose widths agree index by index have the same
      total width. */
  lemma {:induction false} SameWidths(xs: List<Picture>, ys: List<Picture>)
    requires |Elems(xs)| == |Elems(ys)|
    requires forall i :: 0 <= i < |Elems(xs)| ==> Elems(xs)[i].width == Elems(ys)[i].width
    ensures TotalWidth(xs) == TotalWidth(ys)
  {
    if xs.Cons? {
      assert Elems(xs)[0] == xs.head && Elems(ys)[0] == ys.head;
      forall i | 0 <= i < |Elems(xs.tail)|
        ensures Elems(xs.tail)[i].width == Elems(ys.tail)[i].width
      {
        assert Elems(xs)[i + 1] == Elems(xs.tail)[i] && Elems(ys)[i + 1] == Elems(ys.tail)[i];
      }
      SameWidths(xs.tail, ys.tail);
    }
  }

  /** `normaliseRow` of pictures already of one depth changes none of them. */
  lemma NormaliseRowSame(pictures: List<Picture>, d: nat, position: int, fill: char)
    requires pictures.Cons? && d >= 1 && AllDepth(pictures, d)
    ensures MaxDepth(pictures) == Ok(d)
    ensures NormaliseRowFill(pictures, position, fill) == Ok(pictures)
  {
    assert pictures.head in Elems(pictures);
    NormaliseRowShape(pictures, position, fill);
    var cells := NormaliseRowFill(pictures, position, fill).value;
    forall i | 0 <= i < |Elems(pictures)|
      ensures Elems(cells)[i] == Elems(pictures)[i]
    {
      assert Elems(pictures)[i] in Elems(pictures);
      FixDepthSame(Elems(pictures)[i], position, fill);
    }
    ElemsInjective(cells, pictures);
  }

  /*** Table columns ***/

  /** Each cell under a rule of w dashes, one cell after another. */
  ghost function RuledRows(cells: List<Picture>, w: nat): seq<string>
  {
    match cells
    case Nil => []
    case Cons(q, t) => [Fill(w, Horiz)] + Rows(q) + RuledRows(t, w)
  }

  /** Cells of one width, each given a top frame. */
  lemma {:induction false} TopFramedCells(cells: List<Picture>, w: nat)
    requires w >= 1 && AllWidth(cells, w)
    ensures AllWidth(Map(cells, TopFrame), w)
    ensures StackedRows(Map(cells, TopFrame)) == RuledRows(cells, w)
    ensures TotalDepth(Map(cells, TopFrame)) == TotalDepth(cells) + |Elems(cells)|
  {
    match cells
    case Nil =>
    case Cons(q, t) =>
      assert q in Elems(cells);
      assert forall x :: x in Elems(t) ==> x in Elems(cells);
      TopBorderShape(q, Horiz);
      TopFramedCells(t, w);
  }

  /** `tableCol` of no pictures throws, as `maxWidth` does. */
  lemma TableColEmpty(position: int, fill: char)
    ensures TableColFill(Nil, position, fill) == Throws(NoSuchElement)
    ensures TableCol(Nil, position) == Throws(NoSuchElement)
  {
    NormaliseColShape(Nil, position, fill);
    NormaliseColShape(Nil, position, Space);
  }

  /** Cells of one width, each under a top frame, stacked, with a bottom
      frame under them all. */
  lemma RuledColumn(cells: List<Picture>, w: nat, position: int, fill: char)
    requires cells.Cons? && w >= 1 && AllWidth(cells, w)
    ensures var r := BottomFrame(StackFill(Map(cells, TopFrame), position, fill));
      && Valid(r)
      && r.width == w
      && r.depth == TotalDepth(cells) + |Elems(cells)| + 1
      && Rows(r) == RuledRows(cells, w) + [Fill(w, Horiz)]
  {
    TopFramedCells(cells, w);
    var framed := Map(cells, TopFrame);
    StackSameWidth(framed, w, position, fill);
    BottomBorderShape(StackFill(framed, position, fill), Horiz);
  }

  /** `tableCol` of non-empty pictures: all at the largest width, each under a
      rule of dashes, with one more rule at the bottom. */
  lemma TableColShape(pictures: List<Picture>, position: int, fill: char)
    requires pictures.Cons? && AllNonEmpty(pictures) && fill != '\n'
    ensures TableColFill(pictures, position, fill).Ok?
    ensures var w := MaxWidth(pictures).value;
      var cells := NormaliseColFill(pictures, position, fill).value;
      var r := TableColFill(pictures, position, fill).value;
      && Valid(r)
      && r.width == w
      && r.depth == TotalDepth(pictures) + |Elems(pictures)| + 1
      && Rows(r) == RuledRows(cells, w) + [Fill(w, Horiz)]
  {
    var cells := NormaliseColFill(pictures, position, fill).value;
    NormaliseColShape(pictures, position, fill);
    NormaliseColWidths(pictures, position, fill);
    SameDepths(cells, pictures);
    RuledColumn(cells, MaxWidth(pictures).value, position, fill);
  }

  /*** Table rows ***/

  /** Row i of each cell after a bar, one cell after another. */
  ghost function RuledRow(cells: List<Picture>, i: nat): string
  {
    match cells
    case Nil => []
    case Cons(q, t) => [Vert] + (if i < |Rows(q)| then Rows(q)[i] else []) + RuledRow(t, i)
  }

  /** Cells of one depth, each given a left frame. */
  lemma {:induction false} LeftFramedCells(cells: List<Picture>, d: nat)
    requires d >= 1 && AllDepth(cells, d)
    ensures AllDepth(Map(cells, LeftFrame), d)
    ensures forall i :: 0 <= i < d ==> RowAcross(Map(cells, LeftFrame), i) == RuledRow(cells, i)
    ensures TotalWidth(Map(cells, LeftFrame)) == TotalWidth(cells) + |Elems(cells)|
  {
    match cells
    case Nil =>
    case Cons(q, t) =>
      assert q in Elems(cells);
      assert forall x :: x in Elems(t) ==> x in Elems(cells);
      LeftBorderShape(q, Vert);
      LeftFramedCells(t, d);
  }

  /** `tableRow` of no pictures throws, as `maxDepth` does. */
  lemma TableRowEmpty(position: int, fill: char)
    ensures TableRowFill(Nil, position, fill) == Throws(NoSuchElement)
    ensures TableRow(Nil, position) == Throws(NoSuchElement)
  {
    NormaliseRowShape(Nil, position, fill);
    NormaliseRowShape(Nil, position, Space);
  }

  /** Cells of one depth, each after a left frame, spread, with a right
      frame after them all. */
  lemma RuledRowPicture(cells: List<Picture>, d: nat, position: int, fill: char)
    requires cells.Cons? && d >= 1 && AllDepth(cells, d)
    ensures var r := RightFrame(SpreadFill(Map(cells, LeftFrame), position, fill));
      && Valid(r)
      && r.depth == d
      && r.width == TotalWidth(cells) + |Elems(cells)| + 1
      && forall i :: 0 <= i < d ==> Rows(r)[i] == RuledRow(cells, i) + [Vert]
  {
    LeftFramedCells(cells, d);
    var framed := Map(cells, LeftFrame);
    SpreadSameDepth(framed, d, position, fill);
    RightBorderShape(SpreadFill(framed, position, fill), Vert);
  }

  /** `tableRow` of non-empty pictures: all at the largest depth, each after a
      bar, with one more bar at the right. */
  lemma TableRowShape(pictures: List<Picture>, position: int, fill: char)
    requires pictures.Cons? && AllNonEmpty(pictures) && fill != '\n'
    ensures TableRowFill(pictures, position, fill).Ok?
    ensures var d := MaxDepth(pictures).value;
      var cells := NormaliseRowFill(pictures, position, fill).value;
      var r := TableRowFill(pictures, position, fill).value;
      && Valid(r)
      && r.depth == d
      && r.width == TotalWidth(pictures) + |Elems(pictures)| + 1
      && forall i :: 0 <= i < d ==> Rows(r)[i] == RuledRow(cells, i) + [Vert]
  {
    var cells := NormaliseRowFill(pictures, position, fill).value;
    NormaliseRowShape(pictures, position, fill);
    NormaliseRowDepths(pictures, position, fill);
    SameWidths(cells, pictures);
    RuledRowPicture(cells, MaxDepth(pictures).value, position, fill);
  }
}
