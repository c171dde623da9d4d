/**
 The catalog table and its one-time cleaning pass (net.py, lines 48-54).

 A raw row holds the cells of netflix_titles_nov_2019.csv that the
 dashboard reads, each present or missing (NaN). Cleaning fills the three
 people/place columns with "Unknown", parses the date and the release year,
 and derives `year_added` and `duration_num`. The date and number parsers of
 pandas are opaque here: they are parameters of the cleaning step.
 */
module Catalog {
  import opened Optional
  import Text

  /** The sentinel that replaces a missing director, cast or country. */
  const Unknown: string := "Unknown"

  /** The two values of the `type` column. */
  const Movie: string := "Movie"
  const TvShow: string := "TV Show"

  /** A calendar date as `pd.to_datetime` produces it. */
  datatype Date = Date(year: int, month: int, day: int)

  /** One row as loaded: every cell is present or missing. `kind` is the
      CSV's `type` column. */
  datatype RawTitle = RawTitle(
    kind: Option<string>,
    title: Option<string>,
    director: Option<string>,
    cast: Option<string>,
    country: Option<string>,
    dateAdded: Option<string>,
    releaseYear: Option<string>,
    rating: Option<string>,
    duration: Option<string>,
    listedIn: Option<string>)

  /** One row after cleaning. `director`, `cast` and `country` can no longer
      be missing; `yearAdded` and `durationNum` are the derived columns. */
  datatype Title = Title(
    kind: Option<string>,
    title: Option<string>,
    director: string,
    cast: string,
    country: string,
    dateAdded: Option<Date>,
    yearAdded: Option<int>,
    releaseYear: Option<int>,
    rating: Option<string>,
    duration: Option<string>,
    durationNum: Option<nat>,
    listedIn: Option<string>)

  /** `fillna('Unknown')` on one cell. */
  function FillUnknown(cell: Option<string>): string {
    cell.GetOr(Unknown)
  }

  /** Parsing with `errors='coerce'`: a missing cell stays missing, and a
      present one becomes whatever the parser makes of it (None for NaT/NaN). */
  function Coerce<T>(cell: Option<string>, parse: string -> Option<T>): Option<T> {
    match cell
    case None => None
    case Some(s) => parse(s)
  }

  /** `.dt.year`: the year of a parsed date, missing for NaT. */
  function YearOf(date: Option<Date>): (year: Option<int>)
    ensures year.None? <==> date.None?
    ensures date.Some? ==> year == Some(date.value.year)
  {
    match date
    case None => None
    case Some(d) => Some(d.year)
  }

  /** `.str.extract(r'(\d+)')` on the `duration` cell: the first run of
      digits read as a number; missing when the cell is missing or holds no
      digit. */
  function DurationNumber(duration: Option<string>): (n: Option<nat>)
    ensures n.None? <==> duration.None? || Text.NoDigits(duration.value)
  {
    match duration
    case None => None
    case Some(s) => Text.FirstNumber(s)
  }

  /** A duration made of a digit-free prefix, a run of digits and a tail that
      does not continue the run gives exactly the value of that run. */
  lemma DurationNumberOf(p: string, ds: string, q: string)
    requires Text.NoDigits(p)
    requires |ds| >= 1 && Text.AllDigits(ds)
    requires |q| == 0 || !Text.IsDigit(q[0])
    ensures DurationNumber(Some(p + ds + q)) == Some(Text.DecimalValue(ds))
  {
    Text.FirstNumberOf(p, ds, q);
  }

  /** Every present duration holding a digit splits into that shape, so the
      number is always the value of its first digit run. */
  lemma DurationNumberShape(duration: string) returns (p: string, ds: string, q: string)
    requires !Text.NoDigits(duration)
    ensures duration == p + ds + q
    ensures Text.NoDigits(p) && |ds| >= 1 && Text.AllDigits(ds) && (|q| == 0 || !Text.IsDigit(q[0]))
    ensures DurationNumber(Some(duration)) == Some(Text.DecimalValue(ds))
  {
    p, ds, q := Text.FirstNumberShape(duration);
  }

  /** The cleaning of one row. */
  function CleanTitle(raw: RawTitle, parseDate: string -> Option<Date>, parseNumber: string -> Option<int>): (t: Title)
    ensures raw.director.Some? ==> t.director == raw.director.value
    ensures raw.director.None? ==> t.director == Unknown
    ensures raw.cast.Some? ==> t.cast == raw.cast.value
    ensures raw.cast.None? ==> t.cast == Unknown
    ensures raw.country.Some? ==> t.country == raw.country.value
    ensures raw.country.None? ==> t.country == Unknown
    ensures raw.dateAdded.None? ==> t.dateAdded.None?
    ensures raw.dateAdded.Some? ==> t.dateAdded == parseDate(raw.dateAdded.value)
    ensures t.yearAdded.None? <==> t.dateAdded.None?
    ensures t.dateAdded.Some? ==> t.yearAdded == Some(t.dateAdded.value.year)
    ensures raw.releaseYear.None? ==> t.releaseYear.None?
    ensures raw.releaseYear.Some? ==> t.releaseYear == parseNumber(raw.releaseYear.value)
    ensures t.durationNum.None? <==> raw.duration.None? || Text.NoDigits(raw.duration.value)
    ensures t.durationNum == DurationNumber(raw.duration)
    ensures t.kind == raw.kind && t.title == raw.title && t.rating == raw.rating
    ensures t.duration == raw.duration && t.listedIn == raw.listedIn
  {
    var date := Coerce(raw.dateAdded, parseDate);
    Title(
      kind := raw.kind,
      title := raw.title,
      director := FillUnknown(raw.director),
      cast := FillUnknown(raw.cast),
      country := FillUnknown(raw.country),
      dateAdded := date,
      yearAdded := YearOf(date),
      releaseYear := Coerce(raw.releaseYear, parseNumber),
      rating := raw.rating,
      duration := raw.duration,
      durationNum := DurationNumber(raw.duration),
      listedIn := raw.listedIn)
  }

  /** The cleaning pass over the whole table: no row is dropped, added or
      moved. */
  function Clean(rows: seq<RawTitle>, parseDate: string -> Option<Date>, parseNumber: string -> Option<int>): (table: seq<Title>)
    ensures |table| == |rows|
    ensures forall i :: 0 <= i < |rows| ==> table[i] == CleanTitle(rows[i], parseDate, parseNumber)
  {
    seq(|rows|, i requires 0 <= i < |rows| => CleanTitle(rows[i], parseDate, parseNumber))
  }

  /** Cleaning works row by row, so it commutes with splitting the table. */
  lemma {:induction false} CleanConcat(a: seq<RawTitle>, b: seq<RawTitle>, parseDate: string -> Option<Date>, parseNumber: string -> Option<int>)
    ensures Clean(a + b, parseDate, parseNumber) == Clean(a, parseDate, parseNumber) + Clean(b, parseDate, parseNumber)
  {
    var l, r := Clean(a + b, parseDate, parseNumber), Clean(a, parseDate, parseNumber) + Clean(b, parseDate, parseNumber);
    assert |l| == |r|;
    forall i | 0 <= i < |l|
      ensures l[i] == r[i]
    {
      if i < |a| {
        assert (a + b)[i] == a[i];
      } else {
        assert (a + b)[i] == b[i - |a|];
      }
    }
  }

  /** "90 min" gives 90. */
  lemma DurationExampleMinutes()
    ensures DurationNumber(Some("90 min")) == Some(90)
  {
    assert Text.DecimalValue("90") == 90 by {
      assert "90"[..1] == "9";
      assert Text.DecimalValue("9") == 9;
    }
    Text.FirstNumberOf("", "90", " min");
    assert "" + "90" + " min" == "90 min";
  }

  /** "3 Seasons" gives 3. */
  lemma DurationExampleSeasons()
    ensures DurationNumber(Some("3 Seasons")) == Some(3)
  {
    assert Text.DecimalValue("3") == 3;
    Text.FirstNumberOf("", "3", " Seasons");
    assert "" + "3" + " Seasons" == "3 Seasons";
  }

  /** A duration with no digit, or a missing one, gives no number. */
  lemma DurationExampleNone()
    ensures DurationNumber(Some("N/A")) == None
    ensures DurationNumber(None) == None
  {
    assert Text.NoDigits("N/A");
  }
}
