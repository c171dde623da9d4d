/**
 The data of the "Global Distribution (Map)" view (net.py, lines 281-284):
 every row is reduced to the first country of its `country` cell, rows are
 grouped by (country, type) and counted, and the "Unknown" country is
 dropped. Groups come out sorted by key, as `groupby` sorts them.
 */
module Geography {
  import opened Optional
  import opened Text
  import opened Catalog

  /** `.str.split(',').str[0].str.strip()`: the first comma piece, without
      surrounding whitespace. A cell with no comma is stripped whole. */
  function FirstCountry(country: string): (c: string)
    ensures IsTrimmed(c)
    ensures ',' !in country ==> c == Trim(country)
  {
    var pieces := Split(country, ',');
    assert ',' !in country ==> pieces == [country] by {
      if ',' !in country {
        SplitJoin([country], ',');
      }
    }
    Trim(pieces[0])
  }

  /** A `groupby(['country', 'type'])` key. */
  datatype Key = Key(country: string, kind: string)

  /** One row of `country_count`. */
  datatype Group = Group(key: Key, count: nat)

  /** The order `groupby` sorts keys in: by country, then by type, each by
      Python's string order. */
  predicate KeyLess(a: Key, b: Key) {
    StrLess(a.country, b.country) || (a.country == b.country && StrLess(a.kind, b.kind))
  }

  lemma KeyLessIrreflexive(a: Key)
    ensures !KeyLess(a, a)
  {
    StrLessIrreflexive(a.country);
    StrLessIrreflexive(a.kind);
  }

  lemma KeyLessTransitive(a: Key, b: Key, c: Key)
    requires KeyLess(a, b) && KeyLess(b, c)
    ensures KeyLess(a, c)
  {
    if StrLess(a.country, b.country) && StrLess(b.country, c.country) {
      StrLessTransitive(a.country, b.country, c.country);
    } else if a.country == b.country && b.country == c.country {
      StrLessTransitive(a.kind, b.kind, c.kind);
    }
  }

  lemma KeyLessTotal(a: Key, b: Key)
    ensures a == b || KeyLess(a, b) || KeyLess(b, a)
  {
    StrLessTotal(a.country, b.country);
    StrLessTotal(a.kind, b.kind);
  }

  /** Strictly ascending keys: sorted, and no key twice. */
  predicate Ascending(g: seq<Group>) {
    forall j, k :: 0 <= j < k < |g| ==> KeyLess(g[j].key, g[k].key)
  }

  /** A table of group sizes: strictly ascending keys, no empty group. */
  predicate WellFormed(g: seq<Group>) {
    Ascending(g) && forall j :: 0 <= j < |g| ==> g[j].count >= 1
  }

  /** The size recorded for `k`, or 0 when `k` has no group. */
  function CountOf(g: seq<Group>, k: Key): nat {
    if |g| == 0 then 0 else if g[0].key == k then g[0].count else CountOf(g[1..], k)
  }

  /** The number of rows the groups hold together. */
  function Sum(g: seq<Group>): nat {
    if |g| == 0 then 0 else g[0].count + Sum(g[1..])
  }

  /** In a table with distinct keys, `CountOf` finds each group's own size. */
  lemma {:induction false} CountOfAt(g: seq<Group>, j: nat)
    requires Ascending(g) && j < |g|
    ensures CountOf(g, g[j].key) == g[j].count
  {
    if j > 0 {
      assert KeyLess(g[0].key, g[j].key);
      KeyLessIrreflexive(g[0].key);
      assert Ascending(g[1..]) by {
        assert forall i :: 0 <= i < |g| - 1 ==> g[1..][i] == g[i + 1];
      }
      CountOfAt(g[1..], j - 1);
    }
  }

  /** Dropping the first group keeps a table well formed. */
  lemma TailWellFormed(g: seq<Group>)
    requires WellFormed(g) && |g| > 0
    ensures WellFormed(g[1..])
  {
    assert forall i :: 0 <= i < |g| - 1 ==> g[1..][i] == g[i + 1];
  }

  /** A group below the first key of an ascending table can go in front. */
  lemma PrependAscending(x: Group, g: seq<Group>)
    requires WellFormed(g) && x.count >= 1
    requires |g| > 0 ==> KeyLess(x.key, g[0].key)
    ensures WellFormed([x] + g)
  {
    var r := [x] + g;
    forall j | 1 < j < |r|
      ensures KeyLess(x.key, r[j].key)
    {
      assert KeyLess(g[0].key, g[j - 1].key);
      KeyLessTransitive(x.key, g[0].key, g[j - 1].key);
    }
  }

  /** A key below the first key of an ascending table has no group. */
  lemma CountOfBelow(g: seq<Group>, k: Key)
    requires Ascending(g) && |g| > 0 && KeyLess(k, g[0].key)
    ensures CountOf(g, k) == 0
  {
    forall j | 0 <= j < |g|
      ensures KeyLess(k, g[j].key)
    {
      if j > 0 {
        KeyLessTransitive(k, g[0].key, g[j].key);
      }
    }
    CountOfBelowAll(g, k);
  }

  /** A key below every key of the table has no group. */
  lemma {:induction false} CountOfBelowAll(g: seq<Group>, k: Key)
    requires forall j :: 0 <= j < |g| ==> KeyLess(k, g[j].key)
    ensures CountOf(g, k) == 0
  {
    if |g| > 0 {
      KeyLessIrreflexive(k);
      CountOfBelowAll(g[1..], k);
    }
  }

  /** Counting one more row with key `k`: its group grows by one, or a new
      group of size one is inserted at its place in the order. */
  function AddKey(g: seq<Group>, k: Key): (r: seq<Group>)
    requires WellFormed(g)
    ensures WellFormed(r)
    ensures |r| > 0 && (r[0].key == k || (|g| > 0 && r[0].key == g[0].key))
    ensures forall k' :: CountOf(r, k') == CountOf(g, k') + (if k' == k then 1 else 0)
    ensures Sum(r) == Sum(g) + 1
  {
    if |g| == 0 then [Group(k, 1)]
    else if g[0].key == k then
      TailWellFormed(g);
      var x := Group(k, g[0].count + 1);
      assert |g| > 1 ==> KeyLess(g[0].key, g[1..][0].key);
      PrependAscending(x, g[1..]);
      [x] + g[1..]
    else if KeyLess(k, g[0].key) then
      var x := Group(k, 1);
      PrependAscending(x, g);
      CountOfBelow(g, k);
      var r := [x] + g;
      assert r[1..] == g;
      r
    else
      TailWellFormed(g);
      KeyLessTotal(k, g[0].key);
      KeyLessIrreflexive(g[0].key);
      var rest := AddKey(g[1..], k);
      assert |g| > 1 ==> KeyLess(g[0].key, g[1..][0].key);
      PrependAscending(g[0], rest);
      var r := [g[0]] + rest;
      assert r[1..] == rest;
      r
  }

  /** `groupby(...).size()` over a sequence of keys. */
  function GroupSizes(keys: seq<Key>): (g: seq<Group>)
    ensures WellFormed(g)
    ensures forall k :: CountOf(g, k) == multiset(keys)[k]
    ensures Sum(g) == |keys|
  {
    if |keys| == 0 then []
    else
      assert keys == [keys[0]] + keys[1..];
      AddKey(GroupSizes(keys[1..]), keys[0])
  }

  /** The row filter `country_count['country'] != 'Unknown'`. */
  function DropUnknown(g: seq<Group>): (r: seq<Group>)
    requires WellFormed(g)
    ensures WellFormed(r)
    ensures forall j :: 0 <= j < |r| ==> r[j].key.country != Unknown
    ensures forall k :: CountOf(r, k) == if k.country == Unknown then 0 else CountOf(g, k)
    ensures Sum(r) <= Sum(g)
    ensures |r| > 0 ==> r[0].key == g[0].key || KeyLess(g[0].key, r[0].key)
  {
    if |g| == 0 then []
    else
      TailWellFormed(g);
      var rest := DropUnknown(g[1..]);
      assert |rest| > 0 ==> KeyLess(g[0].key, rest[0].key) by {
        if |rest| > 0 {
          assert KeyLess(g[0].key, g[1].key);
          if rest[0].key != g[1].key {
            KeyLessTransitive(g[0].key, g[1].key, rest[0].key);
          }
        }
      }
      if g[0].key.country == Unknown then
        rest
      else
        PrependAscending(g[0], rest);
        var r := [g[0]] + rest;
        assert r[1..] == rest;
        r
  }

  /** The key a row is grouped under; a row whose type is missing has none,
      as `groupby` drops missing keys. */
  function RowKey(t: Title): Option<Key> {
    match t.kind
    case None => None
    case Some(kind) => Some(Key(FirstCountry(t.country), kind))
  }

  /** Reference count: how many rows fall under `k`. */
  function RowsWithKey(rows: seq<Title>, k: Key): nat {
    if |rows| == 0 then 0
    else (if RowKey(rows[0]) == Some(k) then 1 else 0) + RowsWithKey(rows[1..], k)
  }

  /** The keys of the rows that have one, in row order. */
  function GroupKeys(rows: seq<Title>): (keys: seq<Key>)
    ensures |keys| <= |rows|
    ensures forall k :: multiset(keys)[k] == RowsWithKey(rows, k)
  {
    if |rows| == 0 then []
    else
      (match RowKey(rows[0]) case Some(k) => [k] case None => []) + GroupKeys(rows[1..])
  }

  /** `country_count`: one group per (first country, type) pair that some
      row has, except the "Unknown" country, with the exact number of rows
      under it; keys strictly ascending; no row counted twice. */
  function CountryCounts(rows: seq<Title>): (r: seq<Group>)
    ensures WellFormed(r)
    ensures forall j :: 0 <= j < |r| ==> r[j].key.country != Unknown
    ensures forall j :: 0 <= j < |r| ==> r[j].count == RowsWithKey(rows, r[j].key)
    ensures forall k :: CountOf(r, k) == if k.country == Unknown then 0 else RowsWithKey(rows, k)
    ensures Sum(r) <= |rows|
  {
    var r := DropUnknown(GroupSizes(GroupKeys(rows)));
    assert forall j :: 0 <= j < |r| ==> r[j].count == RowsWithKey(rows, r[j].key) by {
      forall j | 0 <= j < |r|
        ensures r[j].count == RowsWithKey(rows, r[j].key)
      {
        CountOfAt(r, j);
      }
    }
    r
  }

  /** The first piece is taken whatever follows the first comma. */
  lemma FirstCountryOf(p: string, m: string, q: string, rest: string)
    requires AllSpace(p) && AllSpace(q) && IsTrimmed(m) && ',' !in m
    ensures FirstCountry(p + m + q + "," + rest) == m
  {
    PaddedPart(p, m, q, ',');
    var x, t := p + m + q, "," + rest;
    assert Split(t, ',')[0] == "" by {
      assert t[1..] == rest;
    }
    SplitPrefix(x, t, ',');
    assert Split(x + t, ',')[0] == x + "" == x;
    assert p + m + q + "," + rest == x + t;
  }

  /** A cell without a comma, such as a single country or "Unknown", is its
      own key once the whitespace around it is stripped. */
  lemma FirstCountrySingle(p: string, m: string, q: string)
    requires AllSpace(p) && AllSpace(q) && IsTrimmed(m) && ',' !in m
    ensures FirstCountry(p + m + q) == m
  {
    PaddedPart(p, m, q, ',');
    SplitJoin([p + m + q], ',');
  }

  /** Only the first listed country counts: "France, Belgium" is grouped
      under France alone. */
  lemma FirstCountryExample()
    ensures FirstCountry("France, Belgium") == "France"
  {
    assert IsTrimmed("France") && ',' !in "France";
    FirstCountryOf("", "France", "", " Belgium");
    assert "" + "France" + "" + "," + " Belgium" == "France, Belgium";
  }

  /** The reference count on a two-row table. */
  lemma RowsWithKeyTwo(a: Title, b: Title, k: Key)
    ensures RowsWithKey([a, b], k) == (if RowKey(a) == Some(k) then 1 else 0) + (if RowKey(b) == Some(k) then 1 else 0)
  {
    assert [a, b][1..] == [b];
    assert [b][1..] == [];
    assert RowsWithKey([b], k) == (if RowKey(b) == Some(k) then 1 else 0) + RowsWithKey([], k);
  }

  /** The co-production counts once under its first country. */
  lemma ExampleRowsFrance(a: Title, b: Title)
    requires a.country == "France, Belgium" && a.kind == Some(Movie)
    requires b.kind == Some(TvShow)
    ensures RowsWithKey([a, b], Key("France", Movie)) == 1
  {
    FirstCountryExample();
    assert RowKey(a) == Some(Key("France", Movie));
    assert RowKey(b) != Some(Key("France", Movie)) by {
      assert Movie != TvShow;
    }
    RowsWithKeyTwo(a, b, Key("France", Movie));
  }

  /** The co-production does not count under its second country. */
  lemma ExampleRowsBelgium(a: Title, b: Title)
    requires a.country == "France, Belgium" && a.kind == Some(Movie)
    requires b.kind == Some(TvShow)
    ensures RowsWithKey([a, b], Key("Belgium", Movie)) == 0
  {
    FirstCountryExample();
    assert RowKey(a) != Some(Key("Belgium", Movie)) by {
      assert RowKey(a) == Some(Key("France", Movie));
      assert "France" != "Belgium";
    }
    assert RowKey(b) != Some(Key("Belgium", Movie)) by {
      assert Movie != TvShow;
    }
    RowsWithKeyTwo(a, b, Key("Belgium", Movie));
  }

  /** The count contract of `CountryCounts`, for one given key. */
  lemma CountryCountsAt(rows: seq<Title>, k: Key)
    ensures CountOf(CountryCounts(rows), k) == if k.country == Unknown then 0 else RowsWithKey(rows, k)
  {
  }

  /** A co-production adds to its first country only, and the "Unknown"
      country gets no group. */
  lemma CountryCountsExample(a: Title, b: Title)
    requires a.country == "France, Belgium" && a.kind == Some(Movie)
    requires b.country == Unknown && b.kind == Some(TvShow)
    ensures CountOf(CountryCounts([a, b]), Key("France", Movie)) == 1
    ensures CountOf(CountryCounts([a, b]), Key("Belgium", Movie)) == 0
    ensures RowKey(b) == Some(Key(Unknown, TvShow))
    ensures CountOf(CountryCounts([a, b]), Key(Unknown, TvShow)) == 0
  {
    FirstCountrySingle("", Unknown, "");
    assert "" + Unknown + "" == Unknown;
    var france, belgium := Key("France", Movie), Key("Belgium", Movie);
    ExampleRowsFrance(a, b);
    ExampleRowsBelgium(a, b);
    assert "France" != Unknown && "Belgium" != Unknown;
    CountryCountsAt([a, b], france);
    CountryCountsAt([a, b], belgium);
    CountryCountsAt([a, b], Key(Unknown, TvShow));
  }
}
