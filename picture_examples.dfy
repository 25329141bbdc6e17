/** Two worked examples: a padded box and a one-row table. */
module PictureExamples {
  import opened Lists
  import opened Pictures
  import opened PictureLaws
  import opened CompositionLaws
  import opened TableLaws

  /** A row of ten dashes, or of any other character, centred in twenty
      columns: five spaces each side. */
  lemma FixWidthCentred(c: char)
    requires c != '\n'
    ensures ToString(FixWidth(Box(1, 10, c), 20, CTR, Space)) == "     " + Fill(10, c) + "     "
  {
    var b := Box(1, 10, c);
    BoxShape(1, 10, c);
    LeadingShareBound(10, CTR);
    FixWidthPad(b, 20, CTR, Space);
    var r := FixWidth(b, 20, CTR, Space);
    assert Fill(5, Space) == "     ";
    assert Rows(r)[0] == "     " + Fill(10, c) + "     ";
    OneRowToString(r);
  }

  /** The text of a one-row picture is that row. */
  lemma OneRowToString(p: Picture)
    requires |Rows(p)| == 1
    ensures ToString(p) == Rows(p)[0]
  {
    assert Rows(p) == [Rows(p)[0]];
  }

  /** Two pictures one row deep in a table row: a bar, the first row, a bar,
      the second row and a closing bar. */
  lemma TableRowOfTwo(p: Picture, q: Picture)
    requires Valid(p) && Valid(q) && p.depth == 1 && q.depth == 1 && p.width >= 1 && q.width >= 1
    ensures var r := TableRow(Cons(p, Cons(q, Nil)), TOP);
      && r.Ok?
      && ToString(r.value) == [Vert] + Rows(p)[0] + [Vert] + Rows(q)[0] + [Vert]
  {
    var pictures := Cons(p, Cons(q, Nil));
    assert Elems(Cons(q, Nil)) == [q];
    assert Elems(pictures) == [p, q];
    assert AllDepth(pictures, 1);
    NormaliseRowSame(pictures, 1, TOP, Space);
    RuledRowPicture(pictures, 1, TOP, Space);
    assert RuledRow(Cons(q, Nil), 0) == [Vert] + Rows(q)[0];
    assert RuledRow(pictures, 0) == [Vert] + Rows(p)[0] + [Vert] + Rows(q)[0];
    var r := TableRowFill(pictures, TOP, Space).value;
    assert Rows(r)[0] == [Vert] + Rows(p)[0] + [Vert] + Rows(q)[0] + [Vert];
    OneRowToString(r);
  }

  /** Two one-cell boxes in a table row: `|X|Y|` for the cells X and Y. */
  lemma TableRowOfCells(x: char, y: char)
    requires x != '\n' && y != '\n'
    ensures var r := TableRow(Cons(Box(1, 1, x), Cons(Box(1, 1, y), Nil)), TOP);
      && r.Ok?
      && ToString(r.value) == [Vert] + [x] + [Vert] + [y] + [Vert]
  {
    OneCell(x);
    OneCell(y);
    TableRowOfTwo(Box(1, 1, x), Box(1, 1, y));
  }

  /** A one-cell box: one row holding the character. */
  lemma OneCell(c: char)
    requires c != '\n'
    ensures var b := Box(1, 1, c);
      Valid(b) && b.depth == 1 && b.width == 1 && Rows(b)[0] == [c]
  {
    BoxShape(1, 1, c);
    assert Fill(1, c) == [c];
  }
}
