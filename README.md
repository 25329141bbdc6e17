# Persistent lists and a picture algebra, modelled in Dafny

This project models the two library classes under a 3x3 sliding-puzzle
program:

- `List.java`, an immutable singly-linked list after Haskell's
  `Data.List`. In the model it is the datatype `Lists.List` (`Nil` for the
  empty base class, `Cons(x, xs)` for the node `xs.addFront(x)` makes). Every
  combinator has a function of the same name.
- `Picture.java`, a rectangular block of characters stored as a list of
  rows with a cached depth and width. In the model it is the datatype
  `Pictures.Picture`, together with the invariant `Pictures.Valid`:
  - there are `depth` rows;
  - every row has exactly `width` characters.

  `Rows(p)` is the grid of characters as a sequence of strings. Picture
  does not override `equals`, so the laws speak about `Rows`, `depth` and
  `width`. `PictureLaws.RowsDetermine` shows that for valid pictures these
  decide datatype equality.

Exceptions become values: a member that can throw returns
`Exceptions.Result`, holding either `Ok(v)` or `Throws(e)`. The exceptions
thrown by the source are `NoSuchElement`, `IndexOutOfBounds`,
`UnsupportedOperation` and `IllegalArgument`.

Java's `String.split("\n")` drops trailing empty pieces and leaves `""` as
one piece. Pictures read from strings depend on this, so it is modelled
(module `JavaStrings`). This is why `emptyPicture()` has one empty row, with
depth 1 and width 0. It is also why `box(d, w, '\n')` has no rows at all.

Modules, one per file:

| file | module | contents |
|---|---|---|
| exceptions.dfy | `Exceptions` | the result type |
| lists.dfy | `Lists` | the list and its combinators, each specified against `Elems`, the sequence of its elements; `arrayToList` as a loop over an array |
| list_laws.dfy | `ListLaws` | the algebraic laws: append, reverse, take/drop, folds, group, transpose |
| java_strings.dfy | `JavaStrings` | `String.split` on newlines, and joining lines |
| pictures.dfy | `Pictures` | the picture operations |
| picture_laws.dfy | `PictureLaws` | the constructors, aligned composition, `fixWidth`, `fixDepth` |
| composition_laws.dfy | `CompositionLaws` | `above`, `beside`, `stack`, `spread`, borders and frames |
| table_laws.dfy | `TableLaws` | `normaliseCol`/`Row` and `tableCol`/`Row` |
| transform_laws.dfy | `TransformLaws` | transpose, reflections, rotation, `map` |
| picture_examples.dfy | `PictureExamples` | the worked examples of centring and of a table row |

Behaviour of the code that a reader might not expect, all of it modelled
as written:

- **`rotate`.** It switches on Java's `%` (Picture.java:310), whose
  remainder keeps the sign of the dividend, so every negative argument
  leaves the picture unchanged (`TransformLaws.RotateIdentity`).
- **`emptyPicture()` as an identity.** It is an identity only as the left
  operand of `above` and `beside`. As the right operand it gives back `p`
  only when `p` is non-empty. The code tests the left operand for emptiness
  first (Picture.java:232-235), so `p.above(emptyPicture())` is
  `emptyPicture()` when `p` is itself empty (`CompositionLaws.FillEmptyOperand`).
- **Four quarter turns.** They give back every picture with at least one
  column, and the picture with no rows. They do not give back
  `emptyPicture()`. Its one empty row is lost by `transpose`
  (List.java:133-134), so it turns into the picture with no rows
  (`TransformLaws.RotateEmptyPicture`).
- **`foldr1`.** The doc comment at List.java:405-406 states the intent: a
  right fold seeded with the last element. The code seeds it with the head
  instead (see Findings).

## Model

| member | source | states |
|---|---|---|
| Lists.FromSeq | List.java:441-443 | building a list by `addFront` from a sequence gives a list whose elements are that sequence |
| Lists.Grid | List.java:441-443 | the grid view of a list of lists has one row per inner list, holding that list's elements |
| Lists.FromGrid | List.java:441-443 | a list of lists can be built for every grid, and its grid view is that grid |
| Lists.ElemsInjective | List.java:441-443 | two lists with the same elements are the same list |
| Lists.GridInjective | List.java:441-443 | two lists of lists with the same grid are the same |
| Lists.Length | List.java:256-258 | `length` is the number of elements (0 for the empty list, one more per `addFront`) |
| Lists.At | List.java:265-267 | the empty list throws NoSuchElement; a non-empty list throws IndexOutOfBounds for a negative index and NoSuchElement at or past the length; otherwise the result is the k-th element |
| Lists.Head | List.java:273-275 | `head` succeeds exactly on non-empty lists, giving the first element, and otherwise throws NoSuchElement |
| Lists.Tail | List.java:281-283 | `tail` succeeds exactly on non-empty lists, giving all but the first element, and otherwise throws NoSuchElement |
| Lists.Append | List.java:289-291 | the elements of `xs.append(ys)` are those of xs followed by those of ys |
| Lists.Rev | List.java:503-508 | the accumulator helper puts the remaining elements in reverse order in front of the accumulator |
| Lists.Reverse | List.java:511-513 | `reverse` keeps the length and puts element i at position len-1-i |
| Lists.Take | List.java:516-521 | `take(n)` is empty for n<=0, the whole list for n>=length, and otherwise the first n elements |
| Lists.Drop | List.java:524-529 | `drop(n)` is the list itself for n<=0, empty for n>=length, and otherwise all but the first n elements |
| Lists.TakeWhile | List.java:532-537 | `takeWhile(p)` is a prefix of the list; all its elements satisfy p; the element after it, if any, fails p |
| Lists.DropWhile | List.java:540-545 | `dropWhile(p)` is a suffix of the list; every element before it satisfies p; its head, if any, fails p |
| Lists.Filter | List.java:548-553 | `filter(p)` holds exactly the elements of the list that satisfy p, and is no longer than the list |
| Lists.All | List.java:556-561 | `all(p)` is true exactly when every element satisfies p |
| Lists.Any | List.java:564-569 | `any(p)` is true exactly when some element satisfies p |
| Lists.MapElems | List.java:572-574 | `map(f)` keeps the length and applies f to element i at position i |
| Lists.Foldl1 | List.java:582-584 | `foldl1` throws UnsupportedOperation on the empty list, and otherwise is the left fold of the tail seeded with the head |
| Lists.Foldr1 | List.java:592-594 | `foldr1` as written: UnsupportedOperation on the empty list, otherwise the right fold of the tail seeded with the head |
| Lists.Foldr1Documented | List.java:405-412 | `foldr1` as its comment describes it: UnsupportedOperation on the empty list, otherwise the right fold of all but the last element, seeded with the last |
| Lists.ZipWithElems | List.java:597-602 | `zipWith` has the length of the shorter list, and element i is op applied to the two i-th elements |
| Lists.Intersperse | List.java:605-610 | `intersperse(sep)` has 2n-1 elements for n>=1 (none for the empty list), with the list's elements at even positions and sep at odd ones |
| Lists.RepeatElems | List.java:67-72 | `repeat(n, x)` has max(n, 0) copies of x |
| Lists.Concat | List.java:57-59 | `concat` is the inner lists' elements one after another |
| Lists.IterateWhile | List.java:83-88 | `iterateWhile` is empty exactly when the start fails p; otherwise it starts at the start value, each element is f of the one before, all satisfy p, and f of the last fails p |
| Lists.Group | List.java:213-218 | `group(n)` throws IllegalArgument for n<1 and succeeds for n>=1 |
| Lists.ArrayToList | List.java:95-100 | the loop that adds the array's elements from the back builds the list of the array's elements in order |
| Lists.LeftFoldSnoc | List.java:577-579 | the left fold of s + [x] applies op to the fold of s and x |
| Lists.LeftFoldCons | List.java:577-579 | the left fold of [x] + s is the fold of s seeded with op(seed, x) |
| Lists.FoldlIsLeftFold | List.java:577-579 | `foldl(op, acc)` is ((acc op x1) op x2) ... op xn |
| Lists.RightFoldSnoc | List.java:587-589 | the right fold of s + [x] is the fold of s seeded with op(x, last) |
| Lists.RightFoldCons | List.java:587-589 | the right fold of [x] + s is op(x, fold of s) |
| Lists.FoldrIsRightFold | List.java:587-589 | `foldr(op, last)` is x1 op (x2 op ... (xn op last)) |
| Lists.ConcatIsFlatten | List.java:57-59 | the right fold of `append` seeded with the empty list flattens the inner lists |
| Lists.FilterSize | List.java:129-141 | removing the empty rows, as `transpose` does, shrinks neither the count of cells nor the count of rows |
| Lists.TailsSize | List.java:129-141 | taking the tail of every non-empty row removes one cell per row (the measure that `transpose` terminates by) |
| ListLaws.AppendNil | List.java:289-291 | the empty list is a left and a right identity of `append` |
| ListLaws.AppendAssociative | List.java:499-501 | `append` is associative |
| ListLaws.ReverseReverse | List.java:511-513 | `reverse` is an involution |
| ListLaws.TakeDrop | List.java:306-317 | `take(n)` followed by `drop(n)` is the list for every n; n<=0 gives empty and the list; n>=length gives the list and empty |
| ListLaws.TakeWhileDropWhile | List.java:532-545 | `takeWhile(p)` followed by `dropWhile(p)` is the list |
| ListLaws.FilterAppend | List.java:548-553 | `filter` distributes over `append`, so it keeps the order of the kept elements |
| ListLaws.FilterSingle | List.java:548-553 | `filter` keeps a single element exactly when it satisfies p |
| ListLaws.FilterAll | List.java:548-556 | `filter(p)` leaves the list unchanged exactly when `all(p)` holds |
| ListLaws.AllNotAny | List.java:556-569 | `all(p)` holds exactly when no element fails p |
| ListLaws.FoldlAppend | List.java:577-579 | the left fold over `xs.append(ys)` is the fold over ys seeded with the fold over xs |
| ListLaws.FoldrAppend | List.java:587-589 | the right fold over `xs.append(ys)` is the fold over xs seeded with the fold over ys |
| ListLaws.Foldr1Discrepancy | List.java:592-594 | with subtraction, `foldr1` on [1, 2] is 1 as written and -1 as documented |
| ListLaws.ZipWithTruncates | List.java:597-602 | zipping a three-element list with a five-element one gives three elements |
| ListLaws.GroupUnfold | List.java:213-218 | for n>=1, `group(n)` of the empty list is empty, and of a non-empty list is `take(n)` followed by the groups of `drop(n)` |
| ListLaws.ChunkedCons | List.java:213-218 | a chunk of 1..n elements put in front of well-formed chunks (a short one only last) keeps them well formed |
| ListLaws.GroupChunkSizes | List.java:213-218 | for n>=1 every chunk of `group(n)` is non-empty and of length n, except that the last may be shorter |
| ListLaws.GroupConcat | List.java:213-218 | `concat(group(n))` is the list for n>=1 |
| ListLaws.GroupExample | List.java:213-218 | `group(2)` of [1,2,3,4,5] is [[1,2],[3,4],[5]] |
| ListLaws.LiveHeads | List.java:138-139 | the heads of the non-empty remaining rows are column 0 of those rows |
| ListLaws.LiveTails | List.java:138-139 | column i of the tails of the non-empty rows is column i+1 of the rows |
| ListLaws.LiveTailsLength | List.java:138-139 | taking those tails shortens the longest row by one |
| ListLaws.TransposeColumns | List.java:129-141 | `transpose` of any, possibly ragged, list of lists has one row per column of the longest row, and row i holds the i-th elements of the rows that have one, in order; empty rows are skipped |
| ListLaws.ColumnsStep | List.java:136-139 | the recursive step of `transpose` adds x to the first column and keeps the other columns |
| ListLaws.ColumnOfRectangle | List.java:129-141 | in a grid whose rows all have length w, column i holds the i-th element of every row |
| ListLaws.MaxLengthOfEmptyRows | List.java:133-134 | a grid of empty rows has no columns |
| ListLaws.TransposeRectangle | List.java:123-141 | for d>=1 rows of length w, `transpose` has w rows of length d, with out[i][j] == in[j][i] |
| ListLaws.TransposeRagged | List.java:129-141 | `transpose` of [[1,2,3],[4,5]] is [[1,4],[2,5],[3]] |
| Lists.Map | List.java:572-574 | stated by Lists.MapElems |
| Lists.Foldl | List.java:577-579 | stated by Lists.FoldlIsLeftFold and ListLaws.FoldlAppend |
| Lists.Foldr | List.java:587-589 | stated by Lists.FoldrIsRightFold and ListLaws.FoldrAppend |
| Lists.ZipWith | List.java:597-602 | stated by Lists.ZipWithElems and ListLaws.ZipWithTruncates |
| Lists.Repeat | List.java:67-72 | stated by Lists.RepeatElems |
| Lists.Transpose | List.java:129-141 | stated by ListLaws.TransposeColumns, TransposeRectangle and TransposeRagged |
| Pictures.LeftJustify | Picture.java:22-26 | stated by Pictures.LeftJustifyElems |
| Pictures.MakePicture | Picture.java:86-90 | stated by Pictures.MakePictureShape and JustifiedRows, and PictureLaws.MakeRect and MakeSelf |
| Pictures.FromString | Picture.java:97-99 | stated by PictureLaws.FromStringRows, FromStringRect, FromStringToString and ToStringFromString |
| Pictures.EmptyPicture | Picture.java:54-56 | stated by PictureLaws.EmptyPictureShape and EmptyPictureIsFromString |
| Pictures.Box | Picture.java:65-70 | stated by PictureLaws.BoxShape and BoxIsFromString |
| Pictures.IsEmpty | Picture.java:105-107 | a picture is empty when its depth or its width is 0; used by CompositionLaws.AlignedEmptyOperand and FillEmptyOperand |
| Pictures.AboveAligned | Picture.java:147-156 | stated by PictureLaws.AboveAlignedRows and CompositionLaws.AlignedEmptyOperand |
| Pictures.BesideAligned | Picture.java:163-172 | stated by PictureLaws.BesideAlignedRows and CompositionLaws.AlignedEmptyOperand |
| Pictures.FixWidth | Picture.java:183-198 | stated by PictureLaws.FixWidthPad, FixWidthClip, FixWidthBelowOne, FixWidthSame and FixWidthNoRows |
| Pictures.FixDepth | Picture.java:209-222 | stated by PictureLaws.FixDepthPad, FixDepthClip, FixDepthBelowOne, FixDepthSame and FixDepthBlank |
| Pictures.AboveFill | Picture.java:231-240 | stated by CompositionLaws.AboveFillShape and FillEmptyOperand |
| Pictures.BesideFill | Picture.java:249-258 | stated by CompositionLaws.BesideFillShape and FillEmptyOperand |
| Pictures.Above | Picture.java:266-268 | `above` with space fill; stated by CompositionLaws.AboveFillShape with fill ' ' |
| Pictures.Beside | Picture.java:276-278 | `beside` with space fill; stated by CompositionLaws.BesideFillShape with fill ' ' |
| Pictures.Transpose | Picture.java:284-286 | stated by TransformLaws.TransposeShape, TransposeNoColumns and TransposeTwice |
| Pictures.ReflectHorizontal | Picture.java:292-294 | stated by TransformLaws.ReflectHorizontalShape and ReflectHorizontalTwice |
| Pictures.ReflectVertical | Picture.java:300-302 | stated by TransformLaws.ReflectVerticalShape and ReflectVerticalTwice |
| Pictures.Rotate | Picture.java:309-316 | stated by TransformLaws.RotateIdentity, RotatePeriodic, RotateQuarter, RotateHalf, RotateThreeQuarters, RotateHalfTwice and RotateQuarterFourTimes |
| Pictures.MapPicture | Picture.java:131-133 | stated by TransformLaws.MapPictureShape |
| Pictures.StackFill | Picture.java:325-327 | stated by CompositionLaws.StackCons, FoldsOfFew and StackSameWidth |
| Pictures.SpreadFill | Picture.java:346-348 | stated by CompositionLaws.SpreadCons, FoldsOfFew and SpreadSameDepth |
| Pictures.Stack | Picture.java:335-337 | `stack` with space fill; stated by the StackFill laws with fill ' ' |
| Pictures.Spread | Picture.java:356-358 | `spread` with space fill; stated by the SpreadFill laws with fill ' ' |
| Pictures.LeftBorder | Picture.java:365-367 | stated by CompositionLaws.LeftBorderShape |
| Pictures.RightBorder | Picture.java:374-376 | stated by CompositionLaws.RightBorderShape |
| Pictures.TopBorder | Picture.java:383-385 | stated by CompositionLaws.TopBorderShape |
| Pictures.BottomBorder | Picture.java:392-394 | stated by CompositionLaws.BottomBorderShape |
| Pictures.Border | Picture.java:401-403 | stated by CompositionLaws.BorderShape |
| Pictures.LeftFrame | Picture.java:409-411 | stated by TableLaws.LeftFramedCells and CompositionLaws.FrameShape |
| Pictures.RightFrame | Picture.java:417-419 | stated by TableLaws.RuledRowPicture and CompositionLaws.FrameShape |
| Pictures.TopFrame | Picture.java:425-427 | stated by TableLaws.TopFramedCells and CompositionLaws.FrameShape |
| Pictures.BottomFrame | Picture.java:441-443 | stated by TableLaws.RuledColumn and CompositionLaws.FrameShape |
| Pictures.Frame | Picture.java:433-435 | stated by CompositionLaws.FrameShape |
| Pictures.NormaliseColFill | Picture.java:470-473 | stated by TableLaws.NormaliseColShape and NormaliseColWidths |
| Pictures.NormaliseRowFill | Picture.java:492-495 | stated by TableLaws.NormaliseRowShape, NormaliseRowDepths and NormaliseRowSame |
| Pictures.NormaliseCol | Picture.java:481-483 | `normaliseCol` with space fill; stated by the NormaliseColFill laws with fill ' ' |
| Pictures.NormaliseRow | Picture.java:503-505 | `normaliseRow` with space fill; stated by the NormaliseRowFill laws with fill ' ' |
| Pictures.TableColFill | Picture.java:515-518 | stated by TableLaws.TableColShape and TableColEmpty |
| Pictures.TableRowFill | Picture.java:538-541 | stated by TableLaws.TableRowShape, TableRowEmpty and PictureExamples.TableRowOfTwo |
| Pictures.TableCol | Picture.java:527-529 | `tableCol` with space fill; stated by TableLaws.TableColShape with fill ' ' and TableColEmpty |
| Pictures.TableRow | Picture.java:550-552 | `tableRow` with space fill; stated by TableLaws.TableRowShape with fill ' ', TableRowEmpty and PictureExamples.TableRowOfCells |
| JavaStrings.Pieces | Picture.java:97-99 | cutting a string at every newline gives at least one piece |
| JavaStrings.DropTrailingEmpty | Picture.java:97-99 | the trailing empty pieces that `split` removes are a suffix of empty strings; what is left ends with a non-empty piece |
| JavaStrings.PiecesOfLine | Picture.java:97-99 | a line without a newline glues onto the first piece of what follows |
| JavaStrings.PiecesOfJoin | Picture.java:97-99 | cutting lines joined by newlines gives back the lines |
| JavaStrings.NewlineInJoin | Picture.java:97-99 | newline-free lines joined by newlines contain a newline exactly when there are two or more lines |
| JavaStrings.SplitJoin | Picture.java:97-99 | `split` inverts joining when the lines are newline-free and the last one is non-empty (or is the only one) |
| JavaStrings.PiecesOfNewlines | Picture.java:65-70 | a string of newlines cuts into empty pieces |
| JavaStrings.DropAllEmpty | Picture.java:65-70 | when every piece is empty, `split` keeps none |
| JavaStrings.JoinOfNewlines | Picture.java:65-70 | joining strings of newlines with newlines gives only newlines |
| JavaStrings.SplitNewlines | Picture.java:65-70 | `split` of one or more newlines is empty, so `box(d, w, '\n')` has no rows |
| Pictures.LeftJustifyElems | Picture.java:22-26 | `leftJustify` is the line followed by spaces up to the width |
| Pictures.LongestRow | Picture.java:86-90 | the width computed by the list constructor is never negative |
| Pictures.FoldMaxAtLeastSeed | Picture.java:86-90 | the fold of `max` is at least its seed |
| Pictures.LongestRowIsMax | Picture.java:86-90 | the constructor's width is at least every row's length and equals some row's length (0 without rows) |
| Pictures.MakePictureShape | Picture.java:86-90 | the list constructor gives a valid picture; its depth is the row count and its width the longest row's length; every stored row is the original row followed by spaces |
| Pictures.JustifiedRows | Picture.java:86-90 | each stored row is the original row padded with spaces to the width |
| Pictures.JustifiedLines | Picture.java:22-26 | justifying every line to a width at least its length pads it with spaces |
| Pictures.StringToChars | Picture.java:42-47 | `stringToListOfCharacters` gives the characters of the string in order |
| Pictures.RowToString | Picture.java:33-35 | turning a row back into text gives its characters |
| Pictures.RowToStringIsElems | Picture.java:33-35 | the fold of string concatenation over the characters is those characters |
| Pictures.ToString | Picture.java:113-115 | `toString` is the rows joined by newlines |
| Pictures.TimesIsProduct | Picture.java:186 | the repeated addition used for len*pos is multiplication |
| Pictures.TimesMonotonic | Picture.java:186 | len*pos grows with pos |
| Pictures.LeadingShareBound | Picture.java:184-187 | the leading share is len*clamp(pos)/100, with pos clamped into 0..100, and is at most len |
| Pictures.Largest | Picture.java:450-461 | the running maximum is at least its start, is the start or some picture's size, and bounds every picture's size |
| Pictures.MaxWidth | Picture.java:450-452 | `maxWidth` throws NoSuchElement exactly on the empty list, and otherwise is the largest width, reached by some picture |
| Pictures.MaxDepth | Picture.java:459-461 | `maxDepth` throws NoSuchElement exactly on the empty list, and otherwise is the largest depth, reached by some picture |
| PictureLaws.RowsDetermine | Picture.java:11-12 | two valid pictures with the same rows are equal |
| PictureLaws.MakeRect | Picture.java:86-90 | the constructor keeps rectangular rows as they are |
| PictureLaws.MakeSelf | Picture.java:86-90 | rebuilding a valid picture from its own rows gives it back |
| PictureLaws.EmptyPictureShape | Picture.java:54-56 | `emptyPicture()` is valid, has one empty row, depth 1 and width 0, and is empty |
| PictureLaws.EmptyPictureIsFromString | Picture.java:54-56 | `emptyPicture()` is `new Picture("")` |
| PictureLaws.FromStringRows | Picture.java:97-99 | the string constructor of newline-joined lines gives one row per line, each padded with spaces to the longest line |
| PictureLaws.CharLines | Picture.java:97-99 | turning each line into a character list keeps the lines |
| PictureLaws.FromStringRect | Picture.java:97-99 | lines of one width joined by newlines read back as exactly those rows |
| PictureLaws.FromStringToString | Picture.java:113-115 | `toString` of such a picture is the text it was read from |
| PictureLaws.ToStringFromString | Picture.java:97-99 | reading back `toString` of a valid non-empty picture gives the same picture |
| PictureLaws.BoxShape | Picture.java:65-70 | `box(d, w, c)` is `emptyPicture()` when d<=0 or w<=0; otherwise, for c other than newline, it has depth d and width w and every cell is c; for newline it has no rows |
| PictureLaws.BoxIsFromString | Picture.java:65-70 | the direct box equals the source's construction from d newline-joined lines of w copies of c |
| PictureLaws.GridAppend | Picture.java:147-156 | appending lists of rows appends their grids |
| PictureLaws.AboveAlignedRows | Picture.java:147-156 | `aboveAligned` of two pictures of one positive width is p's rows then q's, with the depths added |
| PictureLaws.BesideAlignedRows | Picture.java:163-172 | `besideAligned` of two pictures of one positive depth joins row i of p to row i of q, with the widths added |
| PictureLaws.PadLeft | Picture.java:191-193 | a fill box of width n beside p puts n fill characters before every row |
| PictureLaws.PadRight | Picture.java:191-193 | a fill box of width n after p puts n fill characters after every row |
| PictureLaws.PadBoth | Picture.java:191-193 | fill boxes on both sides pad every row on the left and on the right |
| PictureLaws.FixWidthPad | Picture.java:183-198 | widening puts leftWidth = len*pos/100 fill characters before each row and the rest after, giving the target width at the same depth |
| PictureLaws.FixWidthClip | Picture.java:183-198 | narrowing keeps columns leftWidth .. leftWidth+width-1 of each row, at the same depth |
| PictureLaws.FixWidthIsClip | Picture.java:194-197 | the narrowing branch is the take-then-drop of every row |
| PictureLaws.ClipPicture | Picture.java:194-197 | the picture rebuilt from the chosen columns of every row keeps the depth and has the chosen width |
| PictureLaws.ClipColumnsRows | Picture.java:194-197 | take-then-drop of every row keeps the chosen columns, one row per row |
| PictureLaws.FixWidthSame | Picture.java:183-198 | `fixWidth` to a picture's own positive width gives it back |
| PictureLaws.PadTop | Picture.java:215-217 | a fill box of depth n above p adds n rows of fill |
| PictureLaws.PadBottom | Picture.java:215-217 | a fill box of depth n below p adds n rows of fill |
| PictureLaws.FixDepthPad | Picture.java:209-222 | deepening puts topDepth = len*pos/100 fill rows above and the rest below, giving the target depth at the same width |
| PictureLaws.FixDepthClip | Picture.java:209-222 | making it shallower keeps rows topDepth .. topDepth+depth-1, at the same width |
| PictureLaws.FixDepthIsClip | Picture.java:218-219 | the shallowing branch is the take-then-drop of the rows |
| PictureLaws.ClipRows | Picture.java:218-219 | take-then-drop of the rows keeps the chosen rows |
| PictureLaws.FixDepthSame | Picture.java:209-222 | `fixDepth` to a picture's own positive depth gives it back |
| PictureLaws.FixWidthWidens | Picture.java:183-198 | for a non-empty picture and a target at least its width, the result has the target width and the same depth |
| PictureLaws.FixDepthDeepens | Picture.java:209-222 | for a non-empty picture and a target at least its depth, the result has the target depth and the same width |
| PictureLaws.FixWidthBelowOne | Picture.java:188-189 | a target width below 1 gives `emptyPicture()` |
| PictureLaws.FixDepthBelowOne | Picture.java:212-213 | a target depth below 1 gives `emptyPicture()` |
| PictureLaws.FixDepthBlank | Picture.java:209-222 | a picture without columns cannot be deepened: the result is `emptyPicture()` |
| PictureLaws.FixWidthNoRows | Picture.java:183-198 | a picture without rows cannot be widened: the result is `emptyPicture()` |
| CompositionLaws.AboveFillShape | Picture.java:231-240 | for non-empty p and q, `above` has width max(p.width, q.width) and depth p.depth+q.depth, with p's rows first, each operand fixed to the wider width |
| CompositionLaws.BesideFillShape | Picture.java:249-258 | for non-empty p and q, `beside` has depth max(p.depth, q.depth) and width p.width+q.width, with p's columns first, each operand fixed to the greater depth |
| CompositionLaws.AlignedEmptyOperand | Picture.java:147-172 | `aboveAligned` and `besideAligned` return the other operand when one is empty |
| CompositionLaws.FillEmptyOperand | Picture.java:231-258 | `above` and `beside`, at any position and fill, return the other operand when one is empty |
| CompositionLaws.FoldsOfFew | Picture.java:325-358 | `stack` and `spread` of no pictures are `emptyPicture()`; of one non-empty picture, that picture; of one empty picture, `emptyPicture()` |
| CompositionLaws.StackCons | Picture.java:325-327 | `stack` puts the first picture above the stack of the rest |
| CompositionLaws.SpreadCons | Picture.java:346-348 | `spread` puts the first picture beside the spread of the rest |
| CompositionLaws.StackSameWidth | Picture.java:325-337 | `stack` of pictures of one positive width is their rows in order, with the depths added |
| CompositionLaws.SpreadSameDepth | Picture.java:346-358 | `spread` of pictures of one positive depth joins their rows side by side, with the widths added |
| CompositionLaws.StackedCells | Picture.java:325-327 | n one-character cells stacked have n rows holding that character |
| CompositionLaws.SpreadCells | Picture.java:346-348 | n one-character cells spread give one row of n copies |
| CompositionLaws.ColumnOfCells | Picture.java:325-327 | `stack` of n 1x1 boxes of c is an n-by-1 picture of c |
| CompositionLaws.RowOfCells | Picture.java:346-348 | `spread` of n 1x1 boxes of c is a 1-by-n picture of c |
| CompositionLaws.LeftBorderShape | Picture.java:365-367 | `leftBorder` adds one column of fill at the left |
| CompositionLaws.RightBorderShape | Picture.java:374-376 | `rightBorder` adds one column of fill at the right |
| CompositionLaws.TopBorderShape | Picture.java:383-385 | `topBorder` adds one row of fill at the top |
| CompositionLaws.BottomBorderShape | Picture.java:392-394 | `bottomBorder` adds one row of fill at the bottom |
| CompositionLaws.SidesShape | Picture.java:365-376 | left then right border brackets every row with fill |
| CompositionLaws.CapsShape | Picture.java:383-394 | top then bottom border adds a row of fill at each end |
| CompositionLaws.BorderShape | Picture.java:401-403 | `border` adds 2 to the depth and the width, with fill rows at the top and bottom and fill at both ends of every row |
| CompositionLaws.FillBracketed | Picture.java:401-403 | a fill row bracketed by two fill characters is a fill row two longer |
| CompositionLaws.FrameShape | Picture.java:409-443 | `frame` draws '-' rows at the top and bottom and '\|' at both ends of every row, adding 2 to each dimension |
| TableLaws.NormaliseColShape | Picture.java:470-473 | `normaliseCol` throws NoSuchElement on the empty list; otherwise it fixes every picture to the largest width, in order |
| TableLaws.NormaliseRowShape | Picture.java:492-495 | `normaliseRow` throws NoSuchElement on the empty list; otherwise it fixes every picture to the largest depth, in order |
| TableLaws.NormaliseColWidths | Picture.java:470-473 | for non-empty pictures, every normalised picture has the largest width and keeps its depth |
| TableLaws.NormaliseRowDepths | Picture.java:492-495 | for non-empty pictures, every normalised picture has the largest depth and keeps its width |
| TableLaws.SameDepths | Picture.java:470-473 | lists of pictures with pointwise equal depths have the same total depth |
| TableLaws.SameWidths | Picture.java:492-495 | lists of pictures with pointwise equal widths have the same total width |
| TableLaws.NormaliseRowSame | Picture.java:492-495 | pictures already of one depth are returned as they are, and that depth is the largest |
| TableLaws.TopFramedCells | Picture.java:425-427 | top-framing every cell of one width puts a '-' rule above each cell, adding one row per cell |
| TableLaws.TableColEmpty | Picture.java:515-529 | `tableCol` of no pictures throws NoSuchElement |
| TableLaws.RuledColumn | Picture.java:515-518 | stacking top-framed cells of one width and bottom-framing them rules a line between and around the cells |
| TableLaws.TableColShape | Picture.java:515-518 | `tableCol` of non-empty pictures succeeds; its width is the largest width and its depth is the total depth plus one rule per picture plus one; the rows are the normalised cells separated and closed by '-' rules |
| TableLaws.LeftFramedCells | Picture.java:409-411 | left-framing every cell of one depth puts a '\|' before each cell's row, adding one column per cell |
| TableLaws.TableRowEmpty | Picture.java:538-552 | `tableRow` of no pictures throws NoSuchElement |
| TableLaws.RuledRowPicture | Picture.java:538-541 | spreading left-framed cells of one depth and right-framing them rules a '\|' between and around the cells |
| TableLaws.TableRowShape | Picture.java:538-541 | `tableRow` of non-empty pictures succeeds; its depth is the largest depth and its width is the total width plus one rule per picture plus one; each row is the normalised cells' rows separated and closed by '\|' |
| TransformLaws.TransposeShape | Picture.java:284-286 | `transpose` of a picture with a column swaps the dimensions, and cell [j][i] of the result is cell [i][j] |
| TransformLaws.TransposeNoColumns | Picture.java:284-286 | `transpose` of a picture without columns has no rows and no columns |
| TransformLaws.TransposeEmptyPicture | Picture.java:284-286 | the transpose of `emptyPicture()` has depth 0 |
| TransformLaws.TransposeTwice | Picture.java:284-286 | `transpose` twice gives back every picture with at least one column |
| TransformLaws.ReflectHorizontalShape | Picture.java:292-294 | `reflectHorizontal` puts row i at row depth-1-i |
| TransformLaws.ReflectHorizontalTwice | Picture.java:292-294 | `reflectHorizontal` is an involution |
| TransformLaws.ReflectVerticalShape | Picture.java:300-302 | `reflectVertical` puts column j at column width-1-j |
| TransformLaws.ReflectVerticalTwice | Picture.java:300-302 | `reflectVertical` is an involution |
| TransformLaws.RotateIdentity | Picture.java:309-316 | `rotate(q)` gives p back when q is negative or a multiple of 4 |
| TransformLaws.RotatePeriodic | Picture.java:309-316 | for q>=0, `rotate(q+4)` is `rotate(q)` |
| TransformLaws.RotateQuarter | Picture.java:309-316 | `rotate(1)` turns a quarter clockwise: cell [j][k] is p's cell [depth-1-k][j] |
| TransformLaws.RotateHalf | Picture.java:309-316 | `rotate(2)` turns a half: cell [i][j] is p's cell [depth-1-i][width-1-j] |
| TransformLaws.RotateThreeQuarters | Picture.java:309-316 | `rotate(3)` turns three quarters: cell [j][k] is p's cell [k][width-1-j] |
| TransformLaws.RotateQuarterTwice | Picture.java:309-316 | two quarter turns are a half turn |
| TransformLaws.RotateHalfTwice | Picture.java:309-316 | two half turns give back every picture |
| TransformLaws.RotateEmptyPicture | Picture.java:309-316 | a quarter turn of `emptyPicture()` has no rows; so does every further turn, so four turns do not give it back |
| TransformLaws.RotateQuarterFourTimes | Picture.java:309-316 | four quarter turns give back every picture with at least one column |
| TransformLaws.MapPictureShape | Picture.java:131-133 | `map(f)` keeps the dimensions and applies f to every cell |
| PictureExamples.FixWidthCentred | Picture.java:183-198 | `box(1, 10, c).fixWidth(20, CTR, ' ')` renders as 5 spaces, 10 copies of c and 5 spaces |
| PictureExamples.OneRowToString | Picture.java:113-115 | a one-row picture renders as that row |
| PictureExamples.TableRowOfTwo | Picture.java:538-541 | `tableRow` of two one-row pictures at TOP renders as \|p\|q\| |
| PictureExamples.TableRowOfCells | Picture.java:538-541 | `tableRow([box(1,1,x), box(1,1,y)], TOP)` renders as \|x\|y\| |
| PictureExamples.OneCell | Picture.java:65-70 | `box(1, 1, c)` is the single cell c |

## Left out

- `State.java` and `Cwk2.java` are not part of this model. They hold the shuffle (randomness), the solvability test (string parsing), the console rendering and the turn loop over standard input.
- Library conversions are not modelled because they are thin wrappers over Java's collection and stream libraries: `arrayListToList`, `streamToList`, `listToStream`, `toArrayList`, `range`, `rangeClosed`, `rangeStep`, `implode`, `explode` and the `StringBuffer`-based `List.toString`.
- `List.equals` and `addFront`'s `equals` compare via `getClass()`. The model uses datatype equality instead. Reference sharing and object identity are not modelled.
- The stack depth of the recursive Java methods is not modelled.
- `String.split` and the stream pipelines used by the picture constructors and by `maxWidth`/`maxDepth` are modelled by their results. The library code itself is not modelled.
- `Lists.IterateWhile`: it takes an extra `measure` argument, with a precondition that f lowers the measure at every value satisfying p. The source has no termination argument of its own. The model covers only calls for which one `nat` measure falls at every value satisfying p, which leaves out some calls that terminate in Java. `group` supplies the list's length as the measure.
- Java's 32-bit `int` arithmetic is not modelled; integers are unbounded. The one product in the core, `len * position` inside `fixWidth` and `fixDepth` (at most `len * 100`), could only overflow for widths above about 21 million.
- Laws about padding, borders and tables require the fill character not to be a newline. `box(d, w, '\n')` has no rows in the source (`PictureLaws.BoxShape` states this case), so such boxes do not pad.
- `Pictures.EmptyPicture` and `Pictures.Box` are defined directly. `PictureLaws.EmptyPictureIsFromString` and `PictureLaws.BoxIsFromString` prove them equal to the source's construction through the string constructor.
- The trivial members `single`, `cons`, `emptyList`, `isEmpty` and `emptyPictureList`, and the getters for depth, width and the rows, are modelled as plain definitions with no laws of their own.
- `Lists.Filter`: its own contract states membership and length only. Order and multiplicity follow from `ListLaws.FilterAppend` and `ListLaws.FilterSingle`, which pin down the result element by element.
- `TransformLaws.TransposeTwice` and `TransformLaws.RotateQuarterFourTimes` require at least one column, because the source's transpose drops an empty row. `TransformLaws.TransposeNoColumns` and `TransformLaws.RotateEmptyPicture` state what happens without columns.
- Characters are Dafny `char`s, which are Unicode scalar values. A Java `char` is a UTF-16 code unit, and `stringToListOfCharacters` (Picture.java:42-47) splits a character outside the Basic Multilingual Plane into two surrogates. So such a character is one column wide in the model and two in the source, and a lone surrogate cannot be represented. Widths agree only for text inside the Basic Multilingual Plane.
- `PictureExamples.FixWidthCentred` and `PictureExamples.TableRowOfCells` are stated for any non-newline character in place of the literal '-', 'X' and 'Y'. The literal cases are instances of them.

## Findings

| source | as written | input that shows it | evidently intended | confidence | as-written member | corrected member |
|---|---|---|---|---|---|---|
| List.java:592-594 | `foldr1` seeds the right fold of the tail with the head, `tail.foldr(op, head)` | `[1, 2].foldr1((a, b) -> a - b)` gives 1 | the comment at List.java:405-406 describes a fold seeded with the last element, giving 1 - 2 = -1 | not executed | Lists.Foldr1 (shown by ListLaws.Foldr1Discrepancy) | Lists.Foldr1Documented |
