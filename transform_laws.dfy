/** Transformations of a picture: transpose, the two reflections, rotation by
    quadrants and mapping a function over the characters. */
module TransformLaws {
  import opened Lists
  import opened ListLaws
  import opened Pictures
  import opened PictureLaws

  /*** Transpose ***/

  /** `transpose()` of a picture with at least one column: its columns become
      the rows, so cell (j, i) of the result is cell (i, j) of p. */
  lemma TransposeShape(p: Picture)
    requires Valid(p) && p.width >= 1
    ensures var r := Pictures.Transpose(p);
      && Valid(r)
      && r.depth == p.width && r.width == p.depth
      && forall j, i :: 0 <= j < p.width && 0 <= i < p.depth ==> Rows(r)[j][i] == Rows(p)[i][j]
  {
    TransposeRectangle(p.text, p.width);
    MakeRect(Lists.Transpose(p.text), p.depth);
  }

  /** A picture whose rows are all empty, `emptyPicture()` among them,
      transposes to the picture with no rows at all: the rows' depth is lost. */
  lemma TransposeNoColumns(p: Picture)
    requires Valid(p) && p.width == 0
    ensures Pictures.Transpose(p) == Picture(Nil, 0, 0)
  {
    TransposeColumns(p.text);
    MaxLengthOfEmptyRows(Rows(p));
    var t := Lists.Transpose(p.text);
    assert |Elems(t)| == 0;
  }

  lemma TransposeEmptyPicture()
    ensures Pictures.Transpose(EmptyPicture()) == Picture(Nil, 0, 0)
    ensures Pictures.Transpose(EmptyPicture()).depth == 0
  {
    EmptyPictureShape();
    TransposeNoColumns(EmptyPicture());
  }

  /** Transposing twice gives back a picture with at least one row and one
      column. */
  lemma TransposeTwice(p: Picture)
    requires Valid(p) && p.width >= 1
    ensures Pictures.Transpose(Pictures.Transpose(p)) == p
  {
    var t := Pictures.Transpose(p);
    TransposeShape(p);
    TransposeShape(t);
    var tt := Pictures.Transpose(t);
    forall i | 0 <= i < p.depth
      ensures Rows(tt)[i] == Rows(p)[i]
    {
      assert forall j :: 0 <= j < p.width ==> Rows(tt)[i][j] == Rows(t)[j][i] == Rows(p)[i][j];
    }
    RowsDetermine(tt, p);
  }

  /*** Reflections ***/

  /** `reflectHorizontal()`: the same size, with row i of the result row
      depth-1-i of p. */
  lemma ReflectHorizontalShape(p: Picture)
    requires Valid(p)
    ensures var r := ReflectHorizontal(p);
      && Valid(r)
      && r.depth == p.depth && r.width == p.width
      && forall i :: 0 <= i < p.depth ==> Rows(r)[i] == Rows(p)[p.depth - 1 - i]
  {
    var lines := Reverse(p.text);
    if p.depth == 0 {
      MakePictureShape(lines);
    } else {
      assert Rect(Grid(lines), p.width);
      MakeRect(lines, p.width);
    }
  }

  lemma ReflectHorizontalTwice(p: Picture)
    requires Valid(p)
    ensures ReflectHorizontal(ReflectHorizontal(p)) == p
  {
    var r := ReflectHorizontal(p);
    ReflectHorizontalShape(p);
    ReflectHorizontalShape(r);
    var rr := ReflectHorizontal(r);
    assert forall i :: 0 <= i < p.depth ==> Rows(rr)[i] == Rows(r)[p.depth - 1 - i] == Rows(p)[i];
    RowsDetermine(rr, p);
  }

  /** `reflectVertical()`: the same size, with cell (i, j) of the result cell
      (i, width-1-j) of p. */
  lemma ReflectVerticalShape(p: Picture)
    requires Valid(p)
    ensures var r := ReflectVertical(p);
      && Valid(r)
      && r.depth == p.depth && r.width == p.width
      && forall i, j :: 0 <= i < p.depth && 0 <= j < p.width ==>
        Rows(r)[i][j] == Rows(p)[i][p.width - 1 - j]
  {
    var lines := Map(p.text, ReverseOf);
    MapElems(p.text, ReverseOf);
    forall i | 0 <= i < p.depth
      ensures |Grid(lines)[i]| == p.width
      ensures forall j :: 0 <= j < p.width ==> Grid(lines)[i][j] == Rows(p)[i][p.width - 1 - j]
    {
      assert Grid(lines)[i] == Elems(Reverse(Elems(p.text)[i]));
    }
    if p.depth == 0 {
      MakePictureShape(lines);
    } else {
      MakeRect(lines, p.width);
    }
  }

  lemma ReflectVerticalTwice(p: Picture)
    requires Valid(p)
    ensures ReflectVertical(ReflectVertical(p)) == p
  {
    var r := ReflectVertical(p);
    ReflectVerticalShape(p);
    ReflectVerticalShape(r);
    var rr := ReflectVertical(r);
    forall i | 0 <= i < p.depth
      ensures Rows(rr)[i] == Rows(p)[i]
    {
      assert forall j :: 0 <= j < p.width ==>
        Rows(rr)[i][j] == Rows(r)[i][p.width - 1 - j] == Rows(p)[i][j];
    }
    RowsDetermine(rr, p);
  }

  /*** Rotation ***/

  /** `rotate(quadrants)` leaves p as it is for a multiple of four and, since
      Java's remainder of a negative number is negative, for every negative
      number of quadrants. */
  lemma RotateIdentity(p: Picture, quadrants: int)
    requires quadrants < 0 || quadrants % 4 == 0
    ensures Rotate(p, quadrants) == p
  {
  }

  /** Four more quadrants rotate the same way, for quadrants >= 0. */
  lemma RotatePeriodic(p: Picture, quadrants: int)
    requires quadrants >= 0
    ensures Rotate(p, quadrants + 4) == Rotate(p, quadrants)
  {
    assert JavaRem(quadrants + 4, 4) == JavaRem(quadrants, 4);
  }

  /** A quarter turn clockwise: width rows of depth cells, cell (j, k) being
      cell (depth-1-k, j) of p. */
  lemma RotateQuarter(p: Picture)
    requires Valid(p) && p.width >= 1
    ensures var r := Rotate(p, 1);
      && Valid(r)
      && r.depth == p.width && r.width == p.depth
      && forall j, k :: 0 <= j < p.width && 0 <= k < p.depth ==>
        Rows(r)[j][k] == Rows(p)[p.depth - 1 - k][j]
  {
    var t := Pictures.Transpose(p);
    TransposeShape(p);
    ReflectVerticalShape(t);
  }

  /** A half turn: the same size, cell (i, j) being cell
      (depth-1-i, width-1-j) of p. */
  lemma RotateHalf(p: Picture)
    requires Valid(p)
    ensures var r := Rotate(p, 2);
      && Valid(r)
      && r.depth == p.depth && r.width == p.width
      && forall i, j :: 0 <= i < p.depth && 0 <= j < p.width ==>
        Rows(r)[i][j] == Rows(p)[p.depth - 1 - i][p.width - 1 - j]
  {
    var h := ReflectHorizontal(p);
    ReflectHorizontalShape(p);
    ReflectVerticalShape(h);
  }

  /** Three quarter turns: width rows of depth cells, cell (j, k) being cell
      (k, width-1-j) of p. */
  lemma RotateThreeQuarters(p: Picture)
    requires Valid(p) && p.width >= 1
    ensures var r := Rotate(p, 3);
      && Valid(r)
      && r.depth == p.width && r.width == p.depth
      && forall j, k :: 0 <= j < p.width && 0 <= k < p.depth ==>
        Rows(r)[j][k] == Rows(p)[k][p.width - 1 - j]
  {
    var t := Pictures.Transpose(p);
    TransposeShape(p);
    ReflectHorizontalShape(t);
  }

  /** Two quarter turns are a half turn. */
  lemma RotateQuarterTwice(p: Picture)
    requires Valid(p) && p.width >= 1
    ensures Rotate(Rotate(p, 1), 1) == Rotate(p, 2)
  {
    var r1 := Rotate(p, 1);
    RotateQuarter(p);
    RotateQuarter(r1);
    RotateHalf(p);
    var r2 := Rotate(r1, 1);
    var h := Rotate(p, 2);
    forall i | 0 <= i < p.depth
      ensures Rows(r2)[i] == Rows(h)[i]
    {
      assert forall j :: 0 <= j < p.width ==>
        Rows(r2)[i][j] == Rows(r1)[p.width - 1 - j][i] == Rows(h)[i][j];
    }
    RowsDetermine(r2, h);
  }

  /** Without columns the law above fails: a quarter turn of the empty
      picture loses its one empty row, and further turns keep the picture
      with no rows, so four turns do not give the empty picture back. */
  lemma RotateEmptyPicture()
    ensures Rotate(EmptyPicture(), 1) == Picture(Nil, 0, 0)
    ensures Rotate(Picture(Nil, 0, 0), 1) == Picture(Nil, 0, 0)
    ensures Rotate(Rotate(Rotate(Rotate(EmptyPicture(), 1), 1), 1), 1) != EmptyPicture()
  {
    EmptyPictureShape();
    MakeSelf(EmptyPicture());
    assert ReflectVertical(EmptyPicture()) == EmptyPicture();
    TransposeEmptyPicture();
  }

  /** Two half turns give back every picture. */
  lemma RotateHalfTwice(p: Picture)
    requires Valid(p)
    ensures Rotate(Rotate(p, 2), 2) == p
  {
    var h := Rotate(p, 2);
    RotateHalf(p);
    RotateHalf(h);
    var hh := Rotate(h, 2);
    forall i | 0 <= i < p.depth
      ensures Rows(hh)[i] == Rows(p)[i]
    {
      assert forall j :: 0 <= j < p.width ==>
        Rows(hh)[i][j] == Rows(h)[p.depth - 1 - i][p.width - 1 - j] == Rows(p)[i][j];
    }
    RowsDetermine(hh, p);
  }

  /** Four quarter turns give back a picture with at least one row and one
      column. */
  lemma RotateQuarterFourTimes(p: Picture)
    requires Valid(p) && p.width >= 1
    ensures Rotate(Rotate(Rotate(Rotate(p, 1), 1), 1), 1) == p
  {
    var h := Rotate(p, 2);
    RotateQuarterTwice(p);
    assert Rotate(Rotate(p, 1), 1) == h;
    RotateHalf(p);
    RotateQuarterTwice(h);
    assert Rotate(Rotate(h, 1), 1) == Rotate(h, 2);
    RotateHalfTwice(p);
  }

  /*** Map ***/

  /** `map(f)`: the same size, with f applied to every cell. */
  lemma MapPictureShape(p: Picture, f: char -> char)
    requires Valid(p)
    ensures var r := MapPicture(p, f);
      && Valid(r)
      && r.depth == p.depth && r.width == p.width
      && forall i, j :: 0 <= i < p.depth && 0 <= j < p.width ==> Rows(r)[i][j] == f(Rows(p)[i][j])
  {
    var lines := Map(p.text, line => Map(line, f));
    MapElems(p.text, line => Map(line, f));
    forall i | 0 <= i < p.depth
      ensures |Grid(lines)[i]| == p.width
      ensures forall j :: 0 <= j < p.width ==> Grid(lines)[i][j] == f(Rows(p)[i][j])
    {
      MapElems(Elems(p.text)[i], f);
    }
    if p.depth == 0 {
      MakePictureShape(lines);
    } else {
      MakeRect(lines, p.width);
    }
  }
}
