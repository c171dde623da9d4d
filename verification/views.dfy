/**
 The chart data the dashboard derives from the cleaned table (net.py, lines
 118-247): the years-added axis, the four exploded top-10 rankings, the
 top-10 ratings and the two per-type duration slices. Plotting itself is
 not modelled; each view ends at the values handed to the plotting call.
 */
module Views {
  import opened Optional
  import opened Text
  import opened Counting
  import opened Catalog

  /** Every ranking chart shows at most this many bars (`.head(10)`). */
  const ChartSize: nat := 10

  // ---------------------------------------------------------------------
  // Sequence facts, stated once for any element type
  // ---------------------------------------------------------------------

  /** The head and tail of a concatenation. */
  lemma ConcatTail<T>(a: seq<T>, b: seq<T>)
    ensures |a| == 0 ==> a + b == b
    ensures |a| > 0 ==> (a + b)[0] == a[0] && (a + b)[1..] == a[1..] + b
  {
  }

  /** Concatenation is associative. */
  lemma ConcatAssoc<T>(a: seq<T>, b: seq<T>, c: seq<T>)
    ensures a + (b + c) == (a + b) + c
  {
  }

  /** A sequence is its prefix followed by the rest. */
  lemma TakeDrop<T>(s: seq<T>, j: nat)
    requires j <= |s|
    ensures s[..j] + s[j..] == s
  {
  }

  /** Membership in a concatenation. */
  lemma InConcat<T>(x: T, a: seq<T>, b: seq<T>)
    ensures x in a + b <==> x in a || x in b
  {
  }

  // ---------------------------------------------------------------------
  // Dropping missing cells
  // ---------------------------------------------------------------------

  /** `dropna()`: the present values, in order (`PresentConcat`). Each value
      occurs exactly as often as the column holds it, and only the missing
      cells are lost. */
  function Present<T(==,!new)>(cells: seq<Option<T>>): (vs: seq<T>)
    ensures |vs| == |cells| - multiset(cells)[None]
    ensures forall x :: multiset(vs)[x] == multiset(cells)[Some(x)]
  {
    if |cells| == 0 then []
    else
      assert cells == [cells[0]] + cells[1..];
      (match cells[0] case Some(v) => [v] case None => []) + Present(cells[1..])
  }

  /** `dropna()` works cell by cell and keeps the order of the column: the
      values of a concatenation are those of the first part, then those of
      the second. */
  lemma {:induction false} PresentConcat<T(!new)>(a: seq<Option<T>>, b: seq<Option<T>>)
    ensures Present(a + b) == Present(a) + Present(b)
  {
    ConcatTail(a, b);
    if |a| > 0 {
      var head := match a[0] case Some(v) => [v] case None => [];
      assert Present(a + b) == head + Present(a[1..] + b);
      assert Present(a) == head + Present(a[1..]);
      PresentConcat(a[1..], b);
      ConcatAssoc(head, Present(a[1..]), Present(b));
    }
  }

  /** A present cell gives its value and a missing one gives nothing. */
  lemma PresentSingle<T(!new)>(v: T)
    ensures Present([Some(v)]) == [v]
    ensures Present<T>([None]) == []
  {
  }

  /** Every present cell's value survives `dropna()`. */
  lemma {:induction false} PresentHas<T(!new)>(cells: seq<Option<T>>, i: nat)
    requires i < |cells| && cells[i].Some?
    ensures cells[i].value in Present(cells)
  {
    if i > 0 {
      PresentHas(cells[1..], i - 1);
    }
  }

  // ---------------------------------------------------------------------
  // Exploding a comma-separated list column
  // ---------------------------------------------------------------------

  /** The four comma-separated list columns the dashboard ranks. */
  datatype ListColumn = Genres | Countries | Actors | Directors

  /** The cell of `col` in one row; only `listed_in` can still be missing
      after cleaning. */
  function Cell(t: Title, col: ListColumn): Option<string> {
    match col
    case Genres => t.listedIn
    case Countries => Some(t.country)
    case Actors => Some(t.cast)
    case Directors => Some(t.director)
  }

  /** The cells of one list column, row by row. */
  function ColumnCells(rows: seq<Title>, col: ListColumn): (cells: seq<Option<string>>)
    ensures |cells| == |rows|
    ensures forall i :: 0 <= i < |rows| ==> cells[i] == Cell(rows[i], col)
  {
    seq(|rows|, i requires 0 <= i < |rows| => Cell(rows[i], col))
  }

  /** `.str.split(',')` then `.str.strip()` on one cell: one label per comma
      piece, empty pieces included, each without surrounding whitespace. */
  function Pieces(cell: string): (labels: seq<string>)
    ensures |labels| == Occurrences(cell, ',') + 1
    ensures forall i :: 0 <= i < |labels| ==> IsTrimmed(labels[i])
  {
    var parts := Split(cell, ',');
    seq(|parts|, i requires 0 <= i < |parts| => Trim(parts[i]))
  }

  /** The number of pieces a column of present cells explodes into. */
  function PieceCount(values: seq<string>): nat {
    if |values| == 0 then 0 else Occurrences(values[0], ',') + 1 + PieceCount(values[1..])
  }

  /** `.explode()` over the split cells: the pieces of each value, value by
      value. */
  function Explode(values: seq<string>): (labels: seq<string>)
    ensures |labels| == PieceCount(values)
    ensures forall i :: 0 <= i < |labels| ==> IsTrimmed(labels[i])
  {
    if |values| == 0 then [] else Pieces(values[0]) + Explode(values[1..])
  }

  /** A cell written as comma-joined labels, each padded with whitespace,
      explodes into exactly those labels. */
  lemma PiecesOfJoin(parts: seq<string>, labels: seq<string>, lefts: seq<string>, rights: seq<string>)
    requires |parts| == |labels| == |lefts| == |rights| >= 1
    requires forall i :: 0 <= i < |parts| ==>
      parts[i] == lefts[i] + labels[i] + rights[i] && AllSpace(lefts[i]) && AllSpace(rights[i])
    requires forall i :: 0 <= i < |labels| ==> IsTrimmed(labels[i]) && ',' !in labels[i]
    ensures Pieces(Join(parts, ',')) == labels
  {
    forall i | 0 <= i < |parts|
      ensures ',' !in parts[i] && Trim(parts[i]) == labels[i]
    {
      PaddedPart(lefts[i], labels[i], rights[i], ',');
    }
    SplitJoin(parts, ',');
    PiecesOfParts(Join(parts, ','), labels);
  }

  /** A cell explodes into the stripped pieces of its split. */
  lemma PiecesOfParts(cell: string, labels: seq<string>)
    requires |Split(cell, ',')| == |labels|
    requires forall i :: 0 <= i < |labels| ==> Trim(Split(cell, ',')[i]) == labels[i]
    ensures Pieces(cell) == labels
  {
  }

  /** Exploding works value by value, so it commutes with splitting the
      column. */
  lemma {:induction false} ExplodeConcat(a: seq<string>, b: seq<string>)
    ensures Explode(a + b) == Explode(a) + Explode(b)
  {
    ConcatTail(a, b);
    if |a| > 0 {
      ExplodeConcat(a[1..], b);
    }
  }

  /** The labels of a list column, in row order. */
  function ColumnLabels(rows: seq<Title>, col: ListColumn): seq<string> {
    Explode(Present(ColumnCells(rows, col)))
  }

  /** The full `value_counts()` of an exploded column, before `.head(10)`:
      every label with its exact number of pieces, and the counts add up to
      the number of pieces. */
  function ColumnCounts(rows: seq<Title>, col: ListColumn): (r: Table<string>)
    ensures DistinctLabels(r) && NonIncreasing(r)
    ensures TrueCounts(r, ColumnLabels(rows, col)) && Covers(r, ColumnLabels(rows, col))
    ensures Total(r) == PieceCount(Present(ColumnCells(rows, col)))
  {
    ValueCounts(ColumnLabels(rows, col))
  }

  /** The data of the "Top 10 Genres/Countries/Actors/Directors" charts. */
  function TopOfColumn(rows: seq<Title>, col: ListColumn): (r: Table<string>)
    ensures |r| <= ChartSize
    ensures DistinctLabels(r) && NonIncreasing(r)
    ensures TrueCounts(r, ColumnLabels(rows, col))
    ensures forall i :: 0 <= i < |ColumnLabels(rows, col)| && !HasLabel(r, ColumnLabels(rows, col)[i]) ==>
      |r| == ChartSize && multiset(ColumnLabels(rows, col))[ColumnLabels(rows, col)[i]] <= r[ChartSize - 1].1
  {
    TopCounts(ColumnLabels(rows, col), ChartSize)
  }

  /** Two labels separated by a comma and some whitespace. */
  lemma PiecesOfTwo(a: string, b: string, pad: string)
    requires IsTrimmed(a) && IsTrimmed(b) && ',' !in a && ',' !in b && AllSpace(pad)
    ensures Pieces(a + "," + pad + b) == [a, b]
  {
    var parts := [a, pad + b];
    assert Join(parts, ',') == a + "," + pad + b by {
      assert parts[1..] == [pad + b];
    }
    assert pad + b == pad + b + "";
    PiecesOfJoin(parts, [a, b], ["", pad], ["", ""]);
  }

  /** "USA, India" gives two trimmed labels. */
  lemma PiecesExampleTwo()
    ensures Pieces("USA, India") == ["USA", "India"]
  {
    assert IsTrimmed("USA") && IsTrimmed("India") && AllSpace(" ");
    PiecesOfTwo("USA", "India", " ");
    assert "USA" + "," + " " + "India" == "USA, India";
  }

  /** The filled-in sentinel is one label like any other. */
  lemma PiecesExampleUnknown()
    ensures Pieces(Unknown) == [Unknown]
  {
    assert IsTrimmed(Unknown);
    assert Join([Unknown], ',') == Unknown;
    PiecesOfJoin([Unknown], [Unknown], [""], [""]);
  }

  /** Empty pieces are kept: ",," gives three empty labels. */
  lemma PiecesExampleEmpty()
    ensures Pieces(",,") == ["", "", ""]
  {
    assert Join(["", "", ""], ',') == ",,";
    PiecesOfJoin(["", "", ""], ["", "", ""], ["", "", ""], ["", "", ""]);
  }

  /** A two-value column explodes into the pieces of the first value
      followed by those of the second. */
  lemma ExplodeTwo(a: string, b: string)
    ensures Explode([a, b]) == Pieces(a) + Pieces(b)
  {
    assert [a, b][1..] == [b];
    assert [b][1..] == [];
  }

  /** A two-row column explodes into the labels of both rows, in order. */
  lemma ExplodeExample()
    ensures Explode(["USA, India", Unknown]) == ["USA", "India", Unknown]
  {
    ExplodeTwo("USA, India", Unknown);
    PiecesExampleTwo();
    PiecesExampleUnknown();
  }

  /** Every piece of every value is among the exploded labels. */
  lemma ExplodeHas(values: seq<string>, j: nat, piece: string)
    requires j < |values| && piece in Pieces(values[j])
    ensures piece in Explode(values)
  {
    var before, from := values[..j], values[j..];
    TakeDrop(values, j);
    ExplodeConcat(before, from);
    assert from[0] == values[j];
    assert Explode(from) == Pieces(from[0]) + Explode(from[1..]);
    InConcat(piece, Pieces(from[0]), Explode(from[1..]));
    InConcat(piece, Explode(before), Explode(from));
  }

  /** A director, cast or country that was missing before cleaning is
      ranked under "Unknown", like any other label. */
  lemma MissingCellCountsAsUnknown(raws: seq<RawTitle>, parseDate: string -> Option<Date>, parseNumber: string -> Option<int>,
                                   i: nat, col: ListColumn)
    requires i < |raws|
    requires match col
      case Genres => false
      case Countries => raws[i].country.None?
      case Actors => raws[i].cast.None?
      case Directors => raws[i].director.None?
    ensures HasLabel(ColumnCounts(Clean(raws, parseDate, parseNumber), col), Unknown)
  {
    var rows := Clean(raws, parseDate, parseNumber);
    var cells := ColumnCells(rows, col);
    assert cells[i] == Some(Unknown);
    PresentHas(cells, i);
    var values := Present(cells);
    var j :| 0 <= j < |values| && values[j] == Unknown;
    PiecesExampleUnknown();
    ExplodeHas(values, j, Unknown);
    var labels := ColumnLabels(rows, col);
    var k :| 0 <= k < |labels| && labels[k] == Unknown;
  }

  // ---------------------------------------------------------------------
  // Ratings
  // ---------------------------------------------------------------------

  /** The `rating` column. */
  function RatingCells(rows: seq<Title>): (cells: seq<Option<string>>)
    ensures |cells| == |rows|
    ensures forall i :: 0 <= i < |rows| ==> cells[i] == rows[i].rating
  {
    seq(|rows|, i requires 0 <= i < |rows| => rows[i].rating)
  }

  /** The data of the "Ratings Distribution" chart: `value_counts()` drops
      the missing ratings, and each kept rating is counted once per row that
      carries exactly that rating. */
  function TopRatings(rows: seq<Title>): (r: Table<string>)
    ensures |r| <= ChartSize
    ensures DistinctLabels(r) && NonIncreasing(r)
    ensures forall i :: 0 <= i < |r| ==> r[i].1 == multiset(RatingCells(rows))[Some(r[i].0)] && r[i].1 >= 1
  {
    var s := Present(RatingCells(rows));
    var r := TopCounts(s, ChartSize);
    r
  }

  /** A rating some row carries that is not among the top ratings occurs in
      no more rows than the smallest count kept, and only when all ten bars
      are filled. */
  lemma TopRatingsExcluded(rows: seq<Title>, i: nat)
    requires i < |rows|
    ensures rows[i].rating.Some? && !HasLabel(TopRatings(rows), rows[i].rating.value) ==>
      |TopRatings(rows)| == ChartSize &&
      multiset(RatingCells(rows))[rows[i].rating] <= TopRatings(rows)[ChartSize - 1].1
  {
    if rows[i].rating.Some? {
      var cells := RatingCells(rows);
      PresentHas(cells, i);
      TopCountsExcludes(Present(cells), ChartSize, rows[i].rating.value);
    }
  }

  // ---------------------------------------------------------------------
  // Per-type duration slices
  // ---------------------------------------------------------------------

  /** A row that contributes to the `kind` slice: its type is exactly `kind`
      (a missing type never matches) and it has a duration number. */
  predicate Selected(t: Title, kind: string) {
    t.kind == Some(kind) && t.durationNum.Some?
  }

  /** The positions of the rows in the `kind` slice, in ascending order. */
  function SliceIndices(rows: seq<Title>, kind: string): (idx: seq<nat>)
    ensures |idx| <= |rows|
    ensures forall j :: 0 <= j < |idx| ==> idx[j] < |rows| && Selected(rows[idx[j]], kind)
    ensures forall j, k :: 0 <= j < k < |idx| ==> idx[j] < idx[k]
    ensures forall i :: 0 <= i < |rows| && Selected(rows[i], kind) ==> i in idx
  {
    if |rows| == 0 then []
    else
      var n := |rows| - 1;
      var idx := SliceIndices(rows[..n], kind);
      assert forall i :: 0 <= i < n ==> rows[..n][i] == rows[i];
      if Selected(rows[n], kind) then idx + [n] else idx
  }

  /** `df[df['type'] == kind]['duration_num'].dropna()`: the duration numbers
      of the matching rows, in row order. */
  function TypeSlice(rows: seq<Title>, kind: string): (xs: seq<nat>)
    ensures |xs| == |SliceIndices(rows, kind)|
    ensures forall j :: 0 <= j < |xs| ==> xs[j] == rows[SliceIndices(rows, kind)[j]].durationNum.value
  {
    if |rows| == 0 then []
    else
      var n := |rows| - 1;
      var xs, idx := TypeSlice(rows[..n], kind), SliceIndices(rows[..n], kind);
      PrefixValues(rows, n, idx, xs);
      if Selected(rows[n], kind) then
        assert SliceIndices(rows, kind) == idx + [n];
        xs + [rows[n].durationNum.value]
      else
        assert SliceIndices(rows, kind) == idx;
        xs
  }

  /** Values read through positions below `n` are the same in `rows[..n]`
      and in `rows`. */
  lemma PrefixValues(rows: seq<Title>, n: nat, idx: seq<nat>, xs: seq<nat>)
    requires n <= |rows| && |xs| == |idx|
    requires forall j :: 0 <= j < |idx| ==> idx[j] < n && rows[..n][idx[j]].durationNum.Some?
    requires forall j :: 0 <= j < |xs| ==> xs[j] == rows[..n][idx[j]].durationNum.value
    ensures forall j :: 0 <= j < |xs| ==> xs[j] == rows[idx[j]].durationNum.value
  {
    forall j | 0 <= j < |xs|
      ensures xs[j] == rows[idx[j]].durationNum.value
    {
      assert rows[..n][idx[j]] == rows[idx[j]];
    }
  }

  /** The data of the "Movie Duration Distribution" chart: one value per row whose type
      is Movie and whose duration has a number, in row order, and nothing
      else. */
  function MovieDurations(rows: seq<Title>): (xs: seq<nat>)
    ensures |xs| == |SliceIndices(rows, Movie)| <= |rows|
    ensures forall j :: 0 <= j < |xs| ==>
      rows[SliceIndices(rows, Movie)[j]].kind == Some(Movie) && rows[SliceIndices(rows, Movie)[j]].durationNum == Some(xs[j])
    ensures forall i :: 0 <= i < |rows| && rows[i].kind == Some(Movie) && rows[i].durationNum.Some? ==> rows[i].durationNum.value in xs
  {
    var xs := TypeSlice(rows, Movie);
    forall i | 0 <= i < |rows| && rows[i].kind == Some(Movie) && rows[i].durationNum.Some?
      ensures rows[i].durationNum.value in xs
    {
      var j :| 0 <= j < |SliceIndices(rows, Movie)| && SliceIndices(rows, Movie)[j] == i;
      assert xs[j] == rows[i].durationNum.value;
    }
    xs
  }

  /** The data of the "TV Show Season Counts" chart: one value per row whose type
      is TvShow and whose duration has a number, in row order, and nothing
      else. */
  function TvSeasons(rows: seq<Title>): (xs: seq<nat>)
    ensures |xs| == |SliceIndices(rows, TvShow)| <= |rows|
    ensures forall j :: 0 <= j < |xs| ==>
      rows[SliceIndices(rows, TvShow)[j]].kind == Some(TvShow) && rows[SliceIndices(rows, TvShow)[j]].durationNum == Some(xs[j])
    ensures forall i :: 0 <= i < |rows| && rows[i].kind == Some(TvShow) && rows[i].durationNum.Some? ==> rows[i].durationNum.value in xs
  {
    var xs := TypeSlice(rows, TvShow);
    forall i | 0 <= i < |rows| && rows[i].kind == Some(TvShow) && rows[i].durationNum.Some?
      ensures rows[i].durationNum.value in xs
    {
      var j :| 0 <= j < |SliceIndices(rows, TvShow)| && SliceIndices(rows, TvShow)[j] == i;
      assert xs[j] == rows[i].durationNum.value;
    }
    xs
  }

  /** No row is in two slices: together the movie and TV show charts hold at
      most one value per row. */
  lemma {:induction false} SlicesDisjoint(rows: seq<Title>)
    ensures |MovieDurations(rows)| + |TvSeasons(rows)| <= |rows|
  {
    if |rows| > 0 {
      SlicesDisjoint(rows[..|rows| - 1]);
    }
  }

  // ---------------------------------------------------------------------
  // Years-added axis
  // ---------------------------------------------------------------------

  /** Strictly increasing: sorted, and no value twice. */
  predicate Ascending(xs: seq<int>) {
    forall j, k :: 0 <= j < k < |xs| ==> xs[j] < xs[k]
  }

  /** Adds one year to a strictly increasing axis, unless already there. */
  function InsertYear(y: int, axis: seq<int>): (r: seq<int>)
    requires Ascending(axis)
    ensures Ascending(r)
    ensures forall z :: z in r <==> z == y || z in axis
  {
    if |axis| == 0 then [y]
    else if y < axis[0] then [y] + axis
    else if y == axis[0] then axis
    else
      var rest := InsertYear(y, axis[1..]);
      assert forall z :: z in axis <==> z == axis[0] || z in axis[1..];
      var r := [axis[0]] + rest;
      assert Ascending(r) by {
        forall k | 0 <= k < |rest|
          ensures axis[0] < rest[k]
        {
          assert rest[k] in rest;
        }
        forall j, k | 0 <= j < k < |r|
          ensures r[j] < r[k]
        {
          assert r[k] == rest[k - 1];
          if j > 0 {
            assert r[j] == rest[j - 1];
          }
        }
      }
      r
  }

  /** `sorted(df['year_added'].dropna().unique())`: the order of the bars in
      the "Titles Added Per Year" chart. Each year some row was added in
      appears once, in ascending order, and no other year appears. */
  function YearsAxis(rows: seq<Title>): (axis: seq<int>)
    ensures Ascending(axis)
    ensures forall y :: y in axis <==> exists i :: 0 <= i < |rows| && rows[i].yearAdded == Some(y)
  {
    if |rows| == 0 then []
    else
      var n := |rows| - 1;
      var axis := YearsAxis(rows[..n]);
      assert forall i :: 0 <= i < n ==> rows[..n][i] == rows[i];
      match rows[n].yearAdded
      case None => axis
      case Some(y) => InsertYear(y, axis)
  }
}
