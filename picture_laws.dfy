/** What the picture operations do to the rows of a picture, and the laws
    relating them: shapes of boxes and padded pictures, composition above and
    beside, borders, reflections, rotations and tables. */
module PictureLaws {
  import opened Exceptions
  import opened Lists
  import opened JavaStrings
  import opened ListLaws
  import opened Pictures

  /** n copies of c. */
  function Fill(n: nat, c: char): string
  {
    seq(n, _ => c)
  }

  /** Every row of g is w wide. */
  ghost predicate Rect(g: seq<seq<char>>, w: nat)
  {
    forall i :: 0 <= i < |g| ==> |g[i]| == w
  }

  /*** The constructor ***/

  /** A valid picture is determined by its rows. */
  lemma RowsDetermine(p: Picture, q: Picture)
    requires Valid(p) && Valid(q)
    requires Rows(p) == Rows(q)
    ensures p == q
  {
    GridInjective(p.text, q.text);
    if p.depth > 0 {
      assert p.width == |Rows(p)[0]| == q.width;
    }
  }

  /** Rows of one length are kept as they are, and that length is the width. */
  lemma MakeRect(lines: List<List<char>>, w: nat)
    requires |Grid(lines)| >= 1
    requires Rect(Grid(lines), w)
    ensures Rows(MakePicture(lines)) == Grid(lines)
    ensures MakePicture(lines).width == w
    ensures MakePicture(lines).depth == |Grid(lines)|
  {
    MakePictureShape(lines);
    var p := MakePicture(lines);
    var g := Grid(lines);
    var i :| 0 <= i < |g| && |g[i]| == p.width;
    assert p.width == w;
    forall k | 0 <= k < |g|
      ensures Rows(p)[k] == g[k]
    {
      assert Rows(p)[k] == g[k] + seq(0, _ => Space);
    }
  }

  /** The constructor applied to the rows of a valid picture rebuilds it. */
  lemma MakeSelf(p: Picture)
    requires Valid(p)
    ensures MakePicture(p.text) == p
  {
    if p.depth == 0 {
      assert Rows(MakePicture(p.text)) == [] == Rows(p);
    } else {
      MakeRect(p.text, p.width);
    }
    RowsDetermine(MakePicture(p.text), p);
  }

  /** `emptyPicture()` has one row, and that row is empty. */
  lemma EmptyPictureShape()
    ensures Valid(EmptyPicture())
    ensures Rows(EmptyPicture()) == [""]
    ensures EmptyPicture().depth == 1 && EmptyPicture().width == 0
    ensures Pictures.IsEmpty(EmptyPicture())
  {
    assert Rows(EmptyPicture()) == [""];
  }

  /** The empty picture is what the string constructor makes of "". */
  lemma EmptyPictureIsFromString()
    ensures FromString("") == EmptyPicture()
  {
    assert Split("") == [""];
    var lines := Map(FromSeq([""]), StringToChars);
    assert Grid(lines) == [""];
    MakeRect(lines, 0);
    EmptyPictureShape();
    RowsDetermine(FromString(""), EmptyPicture());
  }

  /** The string constructor reads back the lines of a newline-joined text,
      each padded with spaces to the longest. */
  lemma FromStringRows(lines: seq<string>)
    requires |lines| >= 1
    requires forall i :: 0 <= i < |lines| ==> NoNewline(lines[i])
    requires |lines| == 1 || lines[|lines| - 1] != ""
    ensures var p := FromString(Join(lines, '\n'));
      && Valid(p)
      && p.depth == |lines|
      && (forall i :: 0 <= i < |lines| ==> |lines[i]| <= p.width)
      && (exists i :: 0 <= i < |lines| && |lines[i]| == p.width)
      && (forall i :: 0 <= i < |lines| ==> Rows(p)[i] == lines[i] + Fill(p.width - |lines[i]|, Space))
  {
    SplitJoin(lines);
    var chars := Map(FromSeq(lines), StringToChars);
    assert FromString(Join(lines, '\n')) == MakePicture(chars);
    CharLines(lines);
    MakePictureShape(chars);
  }

  /** The lines as the string constructor turns them into lists. */
  lemma CharLines(lines: seq<string>)
    ensures Grid(Map(FromSeq(lines), StringToChars)) == lines
  {
    var chars := Map(FromSeq(lines), StringToChars);
    MapElems(FromSeq(lines), StringToChars);
    forall i | 0 <= i < |lines|
      ensures Grid(chars)[i] == lines[i]
    {
      assert Elems(chars)[i] == StringToChars(Elems(FromSeq(lines))[i]);
    }
  }

  /** Lines of equal length come back unchanged. */
  lemma FromStringRect(lines: seq<string>, w: nat)
    requires |lines| >= 1
    requires forall i :: 0 <= i < |lines| ==> NoNewline(lines[i])
    requires |lines| == 1 || w >= 1
    requires Rect(lines, w)
    ensures var p := FromString(Join(lines, '\n'));
      Valid(p) && Rows(p) == lines && p.depth == |lines| && p.width == w
  {
    SplitJoin(lines);
    CharLines(lines);
    MakeRect(Map(FromSeq(lines), StringToChars), w);
  }

  /** `toString()` after the string constructor gives the text back, when
      its lines are all one length (the constructor pads shorter ones). */
  lemma FromStringToString(lines: seq<string>, w: nat)
    requires |lines| >= 1
    requires forall i :: 0 <= i < |lines| ==> NoNewline(lines[i])
    requires |lines| == 1 || w >= 1
    requires Rect(lines, w)
    ensures ToString(FromString(Join(lines, '\n'))) == Join(lines, '\n')
  {
    FromStringRect(lines, w);
  }

  /** The string constructor after `toString()` rebuilds a picture whose
      characters are not newlines. */
  lemma ToStringFromString(p: Picture)
    requires Valid(p)
    requires p.depth >= 1 && p.width >= 1
    requires forall i :: 0 <= i < p.depth ==> NoNewline(Rows(p)[i])
    ensures FromString(ToString(p)) == p
  {
    FromStringRect(Rows(p), p.width);
    RowsDetermine(FromString(ToString(p)), p);
  }

  /** `box(d, w, c)`: d rows of w copies of c; the empty picture when either
      size is not positive; no rows at all when c is a newline. */
  lemma BoxShape(d: int, w: int, c: char)
    ensures d <= 0 || w <= 0 ==> Box(d, w, c) == EmptyPicture()
    ensures d >= 1 && w >= 1 && c == '\n' ==>
      Valid(Box(d, w, c)) && Box(d, w, c).depth == 0 && Box(d, w, c).width == 0
    ensures d >= 1 && w >= 1 && c != '\n' ==>
      && Valid(Box(d, w, c))
      && Box(d, w, c).depth == d && Box(d, w, c).width == w
      && Rows(Box(d, w, c)) == seq(d, _ => Fill(w, c))
  {
    if d >= 1 && w >= 1 && c != '\n' {
      var lines := Repeat(d, Repeat(w, c));
      RepeatElems(d, Repeat(w, c));
      RepeatElems(w, c);
      assert Grid(lines) == seq(d, _ => Fill(w, c)) by {
        forall i | 0 <= i < d
          ensures Grid(lines)[i] == Fill(w, c)
        {
          assert Elems(lines)[i] == Repeat(w, c);
        }
      }
      MakeRect(lines, w);
    }
  }

  /** The direct definition of `box` agrees with the way the source builds it:
      d lines of w copies of c, joined with newlines, read back by the string
      constructor. For c a newline that text splits into no lines at all. */
  lemma BoxIsFromString(d: int, w: int, c: char)
    requires d >= 1 && w >= 1
    ensures Box(d, w, c) == FromString(Join(seq(d, _ => Fill(w, c)), '\n'))
  {
    var lines := seq(d, _ => Fill(w, c));
    var s := Join(lines, '\n');
    if c == '\n' {
      JoinOfNewlines(lines);
      assert |s| >= 1 by {
        assert |lines| == 1 || |lines| >= 2;
        assert s[..|lines[0]|] == lines[0] || |lines| == 1;
      }
      SplitNewlines(s);
      assert Map(FromSeq(Split(s)), StringToChars) == Nil;
    } else {
      forall i | 0 <= i < |lines|
        ensures NoNewline(lines[i])
      {
        assert forall j :: 0 <= j < w ==> lines[i][j] == c;
      }
      FromStringRect(lines, w);
      BoxShape(d, w, c);
      RowsDetermine(Box(d, w, c), FromString(s));
    }
  }

  /*** Aligned composition ***/

  /** The rows of an appended list of lists: those of the first then those of
      the second. */
  lemma GridAppend(xss: List<List<char>>, yss: List<List<char>>)
    ensures Grid(Append(xss, yss)) == Grid(xss) + Grid(yss)
  {
    var g := Grid(Append(xss, yss));
    forall i | 0 <= i < |g|
      ensures g[i] == (Grid(xss) + Grid(yss))[i]
    {
      assert Elems(Append(xss, yss))[i] == (Elems(xss) + Elems(yss))[i];
    }
  }

  /** `aboveAligned` of two pictures of one positive width: the rows of the
      first, then the rows of the second. */
  lemma AboveAlignedRows(p: Picture, q: Picture)
    requires Valid(p) && Valid(q)
    requires p.width == q.width >= 1
    ensures var r := AboveAligned(p, q);
      && Valid(r)
      && r.depth == p.depth + q.depth
      && r.width == p.width
      && Rows(r) == Rows(p) + Rows(q)
  {
    GridAppend(p.text, q.text);
    MakeRect(Append(p.text, q.text), p.width);
  }

  /** `besideAligned` of two pictures of one positive depth: each row of the
      first joined to the row of the second beside it. An empty operand has
      rows that are all empty, so the case the source short-cuts agrees. */
  lemma BesideAlignedRows(p: Picture, q: Picture)
    requires Valid(p) && Valid(q)
    requires p.depth == q.depth >= 1
    ensures var r := BesideAligned(p, q);
      && Valid(r)
      && r.depth == p.depth
      && r.width == p.width + q.width
      && forall i :: 0 <= i < p.depth ==> Rows(r)[i] == Rows(p)[i] + Rows(q)[i]
  {
    var r := BesideAligned(p, q);
    if Pictures.IsEmpty(p) {
      forall i | 0 <= i < p.depth
        ensures Rows(r)[i] == Rows(p)[i] + Rows(q)[i]
      {
        assert Rows(p)[i] == [];
      }
    } else if Pictures.IsEmpty(q) {
      forall i | 0 <= i < p.depth
        ensures Rows(r)[i] == Rows(p)[i] + Rows(q)[i]
      {
        assert Rows(q)[i] == [];
      }
    } else {
      var zipped := ZipWith(p.text, q.text, AppendOp);
      ZipWithElems(p.text, q.text, AppendOp);
      forall i | 0 <= i < p.depth
        ensures Grid(zipped)[i] == Rows(p)[i] + Rows(q)[i]
      {
        assert Elems(zipped)[i] == AppendOp(Elems(p.text)[i], Elems(q.text)[i]);
      }
      MakeRect(zipped, p.width + q.width);
      assert Rows(r) == Grid(zipped);
    }
  }

  /*** Fixing the width and the depth ***/

  /** A box of n columns of fill, as deep as p, joined on the left of p. */
  lemma PadLeft(n: int, p: Picture, fill: char)
    requires Valid(p) && p.depth >= 1 && n >= 0
    requires fill != '\n'
    ensures var r := BesideAligned(Box(p.depth, n, fill), p);
      && Valid(r)
      && r.depth == p.depth && r.width == n + p.width
      && forall i :: 0 <= i < p.depth ==> Rows(r)[i] == Fill(n, fill) + Rows(p)[i]
  {
    var b := Box(p.depth, n, fill);
    BoxShape(p.depth, n, fill);
    if n >= 1 {
      BesideAlignedRows(b, p);
    } else {
      EmptyPictureShape();
      assert BesideAligned(b, p) == p;
      assert forall i :: 0 <= i < p.depth ==> Fill(n, fill) + Rows(p)[i] == Rows(p)[i];
    }
  }

  /** p joined on the left of a box of n columns of fill, as deep as p. */
  lemma PadRight(p: Picture, n: int, fill: char)
    requires Valid(p) && p.depth >= 1 && n >= 0 && (n >= 1 || p.width >= 1)
    requires fill != '\n'
    ensures var r := BesideAligned(p, Box(p.depth, n, fill));
      && Valid(r)
      && r.depth == p.depth && r.width == p.width + n
      && forall i :: 0 <= i < p.depth ==> Rows(r)[i] == Rows(p)[i] + Fill(n, fill)
  {
    var b := Box(p.depth, n, fill);
    BoxShape(p.depth, n, fill);
    if n >= 1 {
      BesideAlignedRows(p, b);
    } else {
      EmptyPictureShape();
      assert BesideAligned(p, b) == p;
      assert forall i :: 0 <= i < p.depth ==> Rows(p)[i] + Fill(n, fill) == Rows(p)[i];
    }
  }

  /** Boxes of left and right columns of fill, as deep as p, joined on
      either side of p. */
  lemma PadBoth(left: int, p: Picture, right: int, fill: char)
    requires Valid(p) && p.depth >= 1 && left >= 0 && right >= 0 && left + p.width + right >= 1
    requires fill != '\n'
    ensures var r := BesideAligned(BesideAligned(Box(p.depth, left, fill), p), Box(p.depth, right, fill));
      && Valid(r)
      && r.depth == p.depth && r.width == left + p.width + right
      && forall i :: 0 <= i < p.depth ==> Rows(r)[i] == Fill(left, fill) + Rows(p)[i] + Fill(right, fill)
  {
    PadLeft(left, p, fill);
    PadRight(BesideAligned(Box(p.depth, left, fill), p), right, fill);
  }

  /** `fixWidth` to a larger width: the padding is split by the position, its
      leading share len * pos / 100 going to the left. */
  lemma FixWidthPad(p: Picture, width: int, position: int, fill: char)
    requires Valid(p) && p.depth >= 1
    requires width > p.width
    requires fill != '\n'
    ensures LeadingShare(Abs(width - p.width), position) <= Abs(width - p.width)
    ensures var len := Abs(width - p.width);
      var left := LeadingShare(len, position);
      var r := FixWidth(p, width, position, fill);
      && Valid(r)
      && r.depth == p.depth && r.width == width
      && forall i :: 0 <= i < p.depth ==> Rows(r)[i] == Fill(left, fill) + Rows(p)[i] + Fill(len - left, fill)
  {
    assert !(width < 1) && width > p.width;
    LeadingShareBound(Abs(width - p.width), position);
    PadBoth(LeadingShare(Abs(width - p.width), position), p,
      Abs(width - p.width) - LeadingShare(Abs(width - p.width), position), fill);
  }

  /** `fixWidth` to a smaller positive width: the columns cut are split by the
      position, and each row keeps the columns left .. left + width. */
  lemma FixWidthClip(p: Picture, width: int, position: int, fill: char)
    requires Valid(p)
    requires 1 <= width <= p.width
    ensures var left := LeadingShare(Abs(width - p.width), position);
      var r := FixWidth(p, width, position, fill);
      && width + left <= p.width
      && Valid(r)
      && r.depth == p.depth && r.width == width
      && forall i :: 0 <= i < p.depth ==> Rows(r)[i] == Rows(p)[i][left..width + left]
  {
    LeadingShareBound(Abs(width - p.width), position);
    FixWidthIsClip(p, width, position, fill);
    ClipPicture(p, LeadingShare(Abs(width - p.width), position), width);
  }

  /** The picture of the columns lo .. lo + w of every row. */
  lemma ClipPicture(p: Picture, lo: nat, w: nat)
    requires Valid(p)
    requires 1 <= w && w + lo <= p.width
    ensures var r := MakePicture(ClipColumns(p.text, lo, w + lo));
      && Valid(r)
      && r.depth == p.depth && r.width == w
      && forall i :: 0 <= i < p.depth ==> Rows(r)[i] == Rows(p)[i][lo..w + lo]
  {
    ClipColumnsRows(p, lo, w);
    MakeRect(ClipColumns(p.text, lo, w + lo), w);
  }

  /** The branch `fixWidth` takes for a smaller positive width. */
  lemma FixWidthIsClip(p: Picture, width: int, position: int, fill: char)
    requires 1 <= width <= p.width
    ensures var left := LeadingShare(Abs(width - p.width), position);
      FixWidth(p, width, position, fill) == MakePicture(ClipColumns(p.text, left, width + left))
  {
    assert !(width < 1) && !(width > p.width);
  }

  /** The columns lo .. lo + w of every row. */
  lemma ClipColumnsRows(p: Picture, lo: nat, w: nat)
    requires Valid(p)
    requires w + lo <= p.width
    ensures |Grid(ClipColumns(p.text, lo, w + lo))| == p.depth
    ensures Rect(Grid(ClipColumns(p.text, lo, w + lo)), w)
    ensures forall i :: 0 <= i < p.depth ==> Grid(ClipColumns(p.text, lo, w + lo))[i] == Rows(p)[i][lo..w + lo]
  {
    var taken := Map(p.text, line => Take(line, w + lo));
    var clipped := ClipColumns(p.text, lo, w + lo);
    MapElems(p.text, line => Take(line, w + lo));
    MapElems(taken, line => Drop(line, lo));
    forall i | 0 <= i < p.depth
      ensures Grid(clipped)[i] == Rows(p)[i][lo..w + lo]
    {
      var row := Elems(p.text)[i];
      assert Elems(taken)[i] == Take(row, w + lo);
      assert Elems(clipped)[i] == Drop(Take(row, w + lo), lo);
    }
  }

  /** `fixWidth` to the width a picture already has changes nothing. */
  lemma FixWidthSame(p: Picture, position: int, fill: char)
    requires Valid(p) && p.width >= 1
    ensures FixWidth(p, p.width, position, fill) == p
  {
    FixWidthClip(p, p.width, position, fill);
    var r := FixWidth(p, p.width, position, fill);
    assert Rows(r) == Rows(p) by {
      forall i | 0 <= i < p.depth
        ensures Rows(r)[i] == Rows(p)[i]
      {
        assert Rows(p)[i][0..p.width] == Rows(p)[i];
      }
    }
    RowsDetermine(r, p);
  }

  /** A box of n rows of fill, as wide as p, put above p. */
  lemma PadTop(n: int, p: Picture, fill: char)
    requires Valid(p) && p.width >= 1 && n >= 0
    requires fill != '\n'
    ensures var r := AboveAligned(Box(n, p.width, fill), p);
      && Valid(r)
      && r.depth == n + p.depth && r.width == p.width
      && Rows(r) == seq(n, _ => Fill(p.width, fill)) + Rows(p)
  {
    var b := Box(n, p.width, fill);
    BoxShape(n, p.width, fill);
    if n >= 1 {
      AboveAlignedRows(b, p);
    } else {
      EmptyPictureShape();
      assert AboveAligned(b, p) == p;
    }
  }

  /** p put above a box of n rows of fill, as wide as p. */
  lemma PadBottom(p: Picture, n: int, fill: char)
    requires Valid(p) && p.width >= 1 && n >= 0
    requires fill != '\n'
    ensures var r := AboveAligned(p, Box(n, p.width, fill));
      && Valid(r)
      && r.depth == p.depth + n && r.width == p.width
      && Rows(r) == Rows(p) + seq(n, _ => Fill(p.width, fill))
  {
    var b := Box(n, p.width, fill);
    BoxShape(n, p.width, fill);
    if n >= 1 {
      AboveAlignedRows(p, b);
    } else {
      EmptyPictureShape();
      assert AboveAligned(p, b) == p;
    }
  }

  /** `fixDepth` to a larger depth: rows of fill above and below, the leading
      share len * pos / 100 of them on top. */
  lemma FixDepthPad(p: Picture, depth: int, position: int, fill: char)
    requires Valid(p) && p.width >= 1
    requires depth > p.depth
    requires fill != '\n'
    ensures LeadingShare(Abs(depth - p.depth), position) <= Abs(depth - p.depth)
    ensures var len := Abs(depth - p.depth);
      var top := LeadingShare(len, position);
      var r := FixDepth(p, depth, position, fill);
      && Valid(r)
      && r.depth == depth && r.width == p.width
      && Rows(r) == seq(top, _ => Fill(p.width, fill)) + Rows(p) + seq(len - top, _ => Fill(p.width, fill))
  {
    assert !(depth < 1) && depth > p.depth;
    LeadingShareBound(Abs(depth - p.depth), position);
    PadTop(LeadingShare(Abs(depth - p.depth), position), p, fill);
    PadBottom(AboveAligned(Box(LeadingShare(Abs(depth - p.depth), position), p.width, fill), p),
      Abs(depth - p.depth) - LeadingShare(Abs(depth - p.depth), position), fill);
  }

  /** `fixDepth` to a smaller positive depth: the rows cut are split by the
      position, and the rows top .. top + depth are kept. */
  lemma FixDepthClip(p: Picture, depth: int, position: int, fill: char)
    requires Valid(p)
    requires 1 <= depth <= p.depth
    ensures var top := LeadingShare(Abs(depth - p.depth), position);
      var r := FixDepth(p, depth, position, fill);
      && top + depth <= p.depth
      && Valid(r)
      && r.depth == depth && r.width == p.width
      && Rows(r) == Rows(p)[top..top + depth]
  {
    LeadingShareBound(Abs(depth - p.depth), position);
    FixDepthIsClip(p, depth, position, fill);
    ClipRows(p, LeadingShare(Abs(depth - p.depth), position), depth);
  }

  /** The branch `fixDepth` takes for a smaller positive depth. */
  lemma FixDepthIsClip(p: Picture, depth: int, position: int, fill: char)
    requires 1 <= depth <= p.depth
    ensures var top := LeadingShare(Abs(depth - p.depth), position);
      FixDepth(p, depth, position, fill) == MakePicture(Drop(Take(p.text, depth + top), top))
  {
    assert !(depth < 1) && !(depth > p.depth);
  }

  /** The rows top .. top + d of a picture make a picture of their own. */
  lemma ClipRows(p: Picture, top: nat, d: nat)
    requires Valid(p)
    requires 1 <= d && top + d <= p.depth
    ensures var r := MakePicture(Drop(Take(p.text, d + top), top));
      Valid(r) && r.depth == d && r.width == p.width && Rows(r) == Rows(p)[top..top + d]
  {
    var kept := Drop(Take(p.text, d + top), top);
    assert Elems(Take(p.text, d + top)) == Elems(p.text)[..top + d];
    assert Elems(kept) == Elems(p.text)[top..top + d];
    assert Grid(kept) == Rows(p)[top..top + d];
    MakeRect(kept, p.width);
    MakePictureShape(kept);
  }

  /** `fixDepth` to the depth a picture already has changes nothing. */
  lemma FixDepthSame(p: Picture, position: int, fill: char)
    requires Valid(p) && p.depth >= 1
    ensures FixDepth(p, p.depth, position, fill) == p
  {
    FixDepthClip(p, p.depth, position, fill);
    var r := FixDepth(p, p.depth, position, fill);
    assert Rows(r) == Rows(p);
    RowsDetermine(r, p);
  }

  /** `fixWidth` to at least its own width keeps a non-empty picture valid,
      as deep as before and exactly as wide as asked. */
  lemma FixWidthWidens(p: Picture, width: int, position: int, fill: char)
    requires Valid(p) && !Pictures.IsEmpty(p) && width >= p.width
    requires fill != '\n'
    ensures var r := FixWidth(p, width, position, fill);
      Valid(r) && r.depth == p.depth && r.width == width
  {
    if width > p.width {
      FixWidthPad(p, width, position, fill);
    } else {
      FixWidthSame(p, position, fill);
    }
  }

  /** `fixDepth` to at least its own depth keeps a non-empty picture valid,
      as wide as before and exactly as deep as asked. */
  lemma FixDepthDeepens(p: Picture, depth: int, position: int, fill: char)
    requires Valid(p) && !Pictures.IsEmpty(p) && depth >= p.depth
    requires fill != '\n'
    ensures var r := FixDepth(p, depth, position, fill);
      Valid(r) && r.width == p.width && r.depth == depth
  {
    if depth > p.depth {
      FixDepthPad(p, depth, position, fill);
    } else {
      FixDepthSame(p, position, fill);
    }
  }

  /** A target width below one gives the empty picture, whatever the picture. */
  lemma FixWidthBelowOne(p: Picture, width: int, position: int, fill: char)
    requires width < 1
    ensures FixWidth(p, width, position, fill) == EmptyPicture()
    ensures Valid(FixWidth(p, width, position, fill))
  {
    EmptyPictureShape();
  }

  /** A target depth below one gives the empty picture, whatever the picture. */
  lemma FixDepthBelowOne(p: Picture, depth: int, position: int, fill: char)
    requires depth < 1
    ensures FixDepth(p, depth, position, fill) == EmptyPicture()
    ensures Valid(FixDepth(p, depth, position, fill))
  {
    EmptyPictureShape();
  }

  /** `fixDepth` cannot deepen a picture without columns: both fill boxes are
      empty and the empty picture comes back. */
  lemma FixDepthBlank(p: Picture, depth: int, position: int, fill: char)
    requires Valid(p) && p.width == 0
    requires depth > p.depth
    ensures FixDepth(p, depth, position, fill) == EmptyPicture()
  {
    EmptyPictureShape();
  }

  /** `fixWidth` of a picture without rows is the empty picture, one row deep. */
  lemma FixWidthNoRows(p: Picture, width: int, position: int, fill: char)
    requires Valid(p) && p.depth == 0
    ensures FixWidth(p, width, position, fill) == EmptyPicture()
  {
    EmptyPictureShape();
  }
}
