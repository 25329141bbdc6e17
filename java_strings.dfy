/** The two pieces of java.lang.String and java.util.stream behaviour that
    pictures rely on: `s.split("\n")` and `Collectors.joining(sep)`. */
module JavaStrings {

  /** `joining(sep)`: the strings with sep between each two of them. */
  function Join(lines: seq<string>, sep: char): string
  {
    if lines == [] then ""
    else if |lines| == 1 then lines[0]
    else lines[0] + [sep] + Join(lines[1..], sep)
  }

  /** The pieces between the newlines of s, empty ones included; one more
      piece than s has newlines. */
  function Pieces(s: string): (ps: seq<string>)
    ensures |ps| >= 1
    decreases |s|
  {
    if s == [] then [""]
    else
      var rest := Pieces(s[1..]);
      if s[0] == '\n' then [""] + rest else [[s[0]] + rest[0]] + rest[1..]
  }

  /** The pieces without the empty ones at the end. */
  function DropTrailingEmpty(ps: seq<string>): (r: seq<string>)
    ensures r <= ps
    ensures r != [] ==> r[|r| - 1] != ""
    ensures forall i :: |r| <= i < |ps| ==> ps[i] == ""
  {
    if ps == [] then []
    else if ps[|ps| - 1] == "" then DropTrailingEmpty(ps[..|ps| - 1])
    else ps
  }

  /** `s.split("\n")`: a string without a newline is its own only piece (so ""
      splits into [""]); otherwise the pieces between newlines, trailing empty
      pieces removed (so "\n" splits into []). */
  function Split(s: string): seq<string>
  {
    if '\n' !in s then [s] else DropTrailingEmpty(Pieces(s))
  }

  predicate NoNewline(line: string)
  {
    '\n' !in line
  }

  /*** Lemmas ***/

  lemma {:induction false} PiecesOfLine(a: string, s: string)
    requires NoNewline(a)
    ensures Pieces(a + s) == [a + Pieces(s)[0]] + Pieces(s)[1..]
    decreases |a|
  {
    var ps := Pieces(s);
    if a != [] {
      assert a[0] in a;
      assert (a + s)[1..] == a[1..] + s;
      PiecesOfLine(a[1..], s);
      var rest := Pieces(a[1..] + s);
      assert rest[0] == a[1..] + ps[0] && rest[1..] == ps[1..];
      assert [a[0]] + (a[1..] + ps[0]) == a + ps[0];
    } else {
      assert a + s == s;
      assert a + ps[0] == ps[0];
      assert ps == [ps[0]] + ps[1..];
    }
  }

  /** Splitting the joined lines at every newline gives the lines back. */
  lemma {:induction false} PiecesOfJoin(lines: seq<string>)
    requires |lines| >= 1
    requires forall i :: 0 <= i < |lines| ==> NoNewline(lines[i])
    ensures Pieces(Join(lines, '\n')) == lines
    decreases |lines|
  {
    if |lines| == 1 {
      PiecesOfLine(lines[0], "");
      assert lines[0] + "" == lines[0];
    } else {
      var rest := Join(lines[1..], '\n');
      PiecesOfJoin(lines[1..]);
      var nl := ['\n'] + rest;
      assert Join(lines, '\n') == lines[0] + nl;
      PiecesOfLine(lines[0], nl);
      assert nl[1..] == rest;
      assert Pieces(nl) == [""] + lines[1..];
      assert lines[0] + "" == lines[0];
      assert lines == [lines[0]] + lines[1..];
    }
  }

  lemma {:induction false} NewlineInJoin(lines: seq<string>)
    requires forall i :: 0 <= i < |lines| ==> NoNewline(lines[i])
    ensures '\n' in Join(lines, '\n') <==> |lines| >= 2
  {
    if |lines| >= 2 {
      assert Join(lines, '\n')[|lines[0]|] == '\n';
    } else if |lines| == 1 {
    }
  }

  /** split("\n") undoes joining("\n") of lines without newlines, provided
      the last line is not empty (or is the only one). */
  lemma SplitJoin(lines: seq<string>)
    requires |lines| >= 1
    requires forall i :: 0 <= i < |lines| ==> NoNewline(lines[i])
    requires |lines| == 1 || lines[|lines| - 1] != ""
    ensures Split(Join(lines, '\n')) == lines
  {
    NewlineInJoin(lines);
    if |lines| >= 2 {
      PiecesOfJoin(lines);
    }
  }

  lemma {:induction false} PiecesOfNewlines(s: string)
    requires forall i :: 0 <= i < |s| ==> s[i] == '\n'
    ensures forall i :: 0 <= i < |Pieces(s)| ==> Pieces(s)[i] == ""
    decreases |s|
  {
    if s != [] {
      PiecesOfNewlines(s[1..]);
    }
  }

  lemma {:induction false} DropAllEmpty(ps: seq<string>)
    requires forall i :: 0 <= i < |ps| ==> ps[i] == ""
    ensures DropTrailingEmpty(ps) == []
    decreases |ps|
  {
    if ps != [] {
      DropAllEmpty(ps[..|ps| - 1]);
    }
  }

  lemma {:induction false} JoinOfNewlines(lines: seq<string>)
    requires forall i :: 0 <= i < |lines| ==> forall j :: 0 <= j < |lines[i]| ==> lines[i][j] == '\n'
    ensures forall j :: 0 <= j < |Join(lines, '\n')| ==> Join(lines, '\n')[j] == '\n'
    decreases |lines|
  {
    if |lines| >= 2 {
      JoinOfNewlines(lines[1..]);
    }
  }

  /** A non-empty string made of newlines only splits into no lines at all. */
  lemma SplitNewlines(s: string)
    requires |s| >= 1
    requires forall i :: 0 <= i < |s| ==> s[i] == '\n'
    ensures Split(s) == []
  {
    assert s[0] in s;
    PiecesOfNewlines(s);
    DropAllEmpty(Pieces(s));
  }
}
