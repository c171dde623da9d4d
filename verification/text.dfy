/**
 The string operations the cleaning and aggregation code applies through
 pandas' `.str` accessor: `strip()`, `split(',')`, `extract(r'(\d+)')`, and
 Python's ordering of `str` values (used by `groupby`'s sorted keys).
 Only ASCII digits and ASCII whitespace are modelled.
 */
module Text {
  import opened Optional

  // ---------------------------------------------------------------------------
  // Whitespace and str.strip()
  // ---------------------------------------------------------------------------

  /** The ASCII characters for which Python's `str.isspace()` holds: tab, line
      feed, vertical tab, form feed, carriage return (9-13), the four
      information separators (28-31) and space (32). */
  predicate IsSpace(c: char) {
    9 <= c as int <= 13 || 28 <= c as int <= 32
  }

  predicate AllSpace(s: string) {
    forall i :: 0 <= i < |s| ==> IsSpace(s[i])
  }

  /** Neither end of `s` is whitespace. */
  predicate IsTrimmed(s: string) {
    |s| == 0 || (!IsSpace(s[0]) && !IsSpace(s[|s| - 1]))
  }

  /** How many whitespace characters `s` starts with. */
  function LeadingSpaces(s: string): (n: nat)
    ensures n <= |s| && AllSpace(s[..n])
    ensures n < |s| ==> !IsSpace(s[n])
  {
    if |s| > 0 && IsSpace(s[0]) then
      var n := 1 + LeadingSpaces(s[1..]);
      assert forall i :: 1 <= i < n ==> s[..n][i] == s[1..][..n - 1][i - 1];
      n
    else 0
  }

  /** How many whitespace characters `s` ends with. */
  function TrailingSpaces(s: string): (n: nat)
    ensures n <= |s| && AllSpace(s[|s| - n..])
    ensures n < |s| ==> !IsSpace(s[|s| - n - 1])
  {
    if |s| > 0 && IsSpace(s[|s| - 1]) then
      var n := 1 + TrailingSpaces(s[..|s| - 1]);
      assert forall i :: |s| - n <= i < |s| - 1 ==> s[i] == s[..|s| - 1][i];
      n
    else 0
  }

  /** Python's `str.strip()` with no argument. */
  function Trim(s: string): (r: string)
    ensures IsTrimmed(r)
    ensures |r| <= |s|
  {
    var t := s[LeadingSpaces(s)..];
    t[..|t| - TrailingSpaces(t)]
  }

  lemma {:induction false} LeadingOf(p: string, x: string)
    requires AllSpace(p) && (|x| == 0 || !IsSpace(x[0]))
    ensures LeadingSpaces(p + x) == |p|
    decreases |p|
  {
    if |p| > 0 {
      assert (p + x)[1..] == p[1..] + x;
      LeadingOf(p[1..], x);
    }
  }

  lemma {:induction false} TrailingOf(x: string, q: string)
    requires AllSpace(q) && (|x| == 0 || !IsSpace(x[|x| - 1]))
    ensures TrailingSpaces(x + q) == |q|
    decreases |q|
  {
    if |q| > 0 {
      assert (x + q)[..|x + q| - 1] == x + q[..|q| - 1];
      TrailingOf(x, q[..|q| - 1]);
    }
  }

  /** Stripping removes exactly the surrounding whitespace: whatever
      whitespace surrounds a trimmed string, `strip()` gives that string back. */
  lemma TrimExact(p: string, m: string, q: string)
    requires AllSpace(p) && IsTrimmed(m) && AllSpace(q)
    ensures Trim(p + m + q) == m
  {
    var s := p + m + q;
    if |m| == 0 {
      assert s == (p + q) + "";
      assert AllSpace(p + q);
      LeadingOf(p + q, "");
    } else {
      assert s == p + (m + q);
      LeadingOf(p, m + q);
      assert s[|p|..] == m + q;
      TrailingOf(m, q);
    }
  }

  lemma Recombine(s: string, i: nat, k: nat)
    requires i <= |s| && k <= |s| - i
    ensures s == s[..i] + s[i..][..k] + s[i..][k..]
  {
    assert s == s[..i] + s[i..];
    assert s[i..] == s[i..][..k] + s[i..][k..];
  }

  /** The stripped string is an infix of the input, surrounded only by
      whitespace. Together with `TrimExact` this pins `Trim` down uniquely. */
  lemma TrimIsInfix(s: string) returns (p: string, q: string)
    ensures s == p + Trim(s) + q
    ensures AllSpace(p) && AllSpace(q)
  {
    var i := LeadingSpaces(s);
    var t := s[i..];
    var j := TrailingSpaces(t);
    p, q := s[..i], t[|t| - j..];
    Recombine(s, i, |t| - j);
  }

  lemma TrimIdempotent(s: string)
    ensures Trim(Trim(s)) == Trim(s)
  {
    TrimExact("", Trim(s), "");
    assert "" + Trim(s) + "" == Trim(s);
  }

  /** A label free of `sep`, padded with whitespace, is a part free of
      `sep` that strips back to the label (for a non-space separator). */
  lemma PaddedPart(p: string, m: string, q: string, sep: char)
    requires AllSpace(p) && AllSpace(q) && IsTrimmed(m) && sep !in m && !IsSpace(sep)
    ensures sep !in p + m + q && Trim(p + m + q) == m
  {
    assert sep !in p by {
      assert forall k :: 0 <= k < |p| ==> p[k] != sep;
    }
    assert sep !in q by {
      assert forall k :: 0 <= k < |q| ==> q[k] != sep;
    }
    TrimExact(p, m, q);
  }

  // ---------------------------------------------------------------------------
  // str.split(sep)
  // ---------------------------------------------------------------------------

  /** Number of occurrences of `c` in `s`. */
  function Occurrences(s: string, c: char): nat {
    if |s| == 0 then 0 else (if s[0] == c then 1 else 0) + Occurrences(s[1..], c)
  }

  /** Python's `str.join`: the pieces with one `sep` between neighbours. */
  function Join(pieces: seq<string>, sep: char): string
    requires |pieces| >= 1
  {
    if |pieces| == 1 then pieces[0] else pieces[0] + [sep] + Join(pieces[1..], sep)
  }

  lemma JoinCons(c: char, pieces: seq<string>, sep: char)
    requires |pieces| >= 1
    ensures Join([[c] + pieces[0]] + pieces[1..], sep) == [c] + Join(pieces, sep)
  {
    var r := [[c] + pieces[0]] + pieces[1..];
    if |pieces| > 1 {
      assert r[1..] == pieces[1..];
    }
  }

  /** Python's `s.split(sep)` with an explicit separator: the text between
      consecutive separators, empty pieces included; a string without `sep`
      (the empty string too) is a single piece. */
  function Split(s: string, sep: char): (pieces: seq<string>)
    ensures |pieces| == Occurrences(s, sep) + 1
    ensures forall i :: 0 <= i < |pieces| ==> sep !in pieces[i]
    ensures Join(pieces, sep) == s
  {
    if |s| == 0 then [""]
    else
      var rest := Split(s[1..], sep);
      assert s == [s[0]] + s[1..];
      if s[0] == sep then
        var r := [""] + rest;
        assert r[1..] == rest;
        r
      else
        var r := [[s[0]] + rest[0]] + rest[1..];
        assert r[1..] == rest[1..];
        JoinCons(s[0], rest, sep);
        r
  }

  /** Splitting a string whose first `|x|` characters hold no separator glues
      `x` onto the first piece of the rest. */
  lemma {:induction false} SplitPrefix(x: string, t: string, sep: char)
    requires sep !in x
    ensures Split(x + t, sep) == [x + Split(t, sep)[0]] + Split(t, sep)[1..]
    decreases |x|
  {
    if |x| > 0 {
      var st := Split(t, sep);
      assert (x + t)[0] == x[0];
      assert (x + t)[1..] == x[1..] + t;
      SplitPrefix(x[1..], t, sep);
      var rest := Split(x[1..] + t, sep);
      assert rest == [x[1..] + st[0]] + st[1..];
      assert Split(x + t, sep) == [[x[0]] + rest[0]] + rest[1..];
      assert rest[0] == x[1..] + st[0];
      assert rest[1..] == st[1..];
      assert [x[0]] + (x[1..] + st[0]) == x + st[0];
    } else {
      var st := Split(t, sep);
      assert x + t == t;
      assert x + st[0] == st[0];
      assert st == [st[0]] + st[1..];
    }
  }

  /** Splitting undoes joining when no piece contains the separator. */
  lemma {:induction false} SplitJoin(pieces: seq<string>, sep: char)
    requires |pieces| >= 1
    requires forall i :: 0 <= i < |pieces| ==> sep !in pieces[i]
    ensures Split(Join(pieces, sep), sep) == pieces
    decreases |pieces|
  {
    if |pieces| == 1 {
      SplitPrefix(pieces[0], "", sep);
      assert pieces[0] + "" == pieces[0];
    } else {
      var tail := Join(pieces[1..], sep);
      SplitJoin(pieces[1..], sep);
      assert Join(pieces, sep) == pieces[0] + ([sep] + tail);
      SplitPrefix(pieces[0], [sep] + tail, sep);
      var st := Split([sep] + tail, sep);
      assert ([sep] + tail)[1..] == tail;
      assert st == [""] + pieces[1..];
      assert pieces[0] + "" == pieces[0];
      assert pieces == [pieces[0]] + pieces[1..];
    }
  }

  // ---------------------------------------------------------------------------
  // Digits and str.extract(r'(\d+)')
  // ---------------------------------------------------------------------------

  predicate IsDigit(c: char) {
    '0' <= c <= '9'
  }

  predicate AllDigits(s: string) {
    forall i :: 0 <= i < |s| ==> IsDigit(s[i])
  }

  predicate NoDigits(s: string) {
    forall i :: 0 <= i < |s| ==> !IsDigit(s[i])
  }

  function DigitValue(c: char): nat
    requires IsDigit(c)
  {
    c as int - '0' as int
  }

  function DigitChar(d: nat): (c: char)
    requires d < 10
    ensures IsDigit(c) && DigitValue(c) == d
  {
    ('0' as int + d) as char
  }

  /** The number a run of decimal digits spells (leading zeros allowed). */
  function DecimalValue(ds: string): nat
    requires AllDigits(ds)
  {
    if |ds| == 0 then 0 else 10 * DecimalValue(ds[..|ds| - 1]) + DigitValue(ds[|ds| - 1])
  }

  /** The canonical decimal spelling of `n`: its value is `n` and it has no
      leading zero. */
  function ToDecimal(n: nat): (ds: string)
    ensures |ds| >= 1 && AllDigits(ds)
    ensures DecimalValue(ds) == n
    ensures |ds| > 1 ==> ds[0] != '0'
  {
    if n < 10 then [DigitChar(n)]
    else
      var ds := ToDecimal(n / 10) + [DigitChar(n % 10)];
      assert ds[..|ds| - 1] == ToDecimal(n / 10);
      ds
  }

  /** Index of the first digit of `s` at or after `i`, or `|s|` if none. */
  function FirstDigitFrom(s: string, i: nat): (k: nat)
    requires i <= |s|
    ensures i <= k <= |s|
    ensures NoDigits(s[i..k])
    ensures k < |s| ==> IsDigit(s[k])
    decreases |s| - i
  {
    if i == |s| || IsDigit(s[i]) then i else FirstDigitFrom(s, i + 1)
  }

  /** End of the maximal run of digits that starts at `i`. */
  function DigitRunEnd(s: string, i: nat): (j: nat)
    requires i <= |s|
    ensures i <= j <= |s|
    ensures AllDigits(s[i..j])
    ensures j == |s| || !IsDigit(s[j])
    decreases |s| - i
  {
    if i < |s| && IsDigit(s[i]) then DigitRunEnd(s, i + 1) else i
  }

  /** What `Series.str.extract(r'(\d+)')` captures in one string, read as a
      number: the value of the leftmost maximal run of digits, or None when
      `s` holds no digit. */
  function FirstNumber(s: string): (r: Option<nat>)
    ensures r.None? <==> NoDigits(s)
  {
    var i := FirstDigitFrom(s, 0);
    if i == |s| then
      assert s[0..i] == s;
      None
    else
      Some(DecimalValue(s[i..DigitRunEnd(s, i)]))
  }

  lemma {:induction false} FirstDigitAt(s: string, i: nat, k: nat)
    requires i <= k < |s|
    requires NoDigits(s[i..k]) && IsDigit(s[k])
    ensures FirstDigitFrom(s, i) == k
    decreases k - i
  {
    if i < k {
      assert s[i..k][0] == s[i];
      assert s[i + 1..k] == s[i..k][1..];
      FirstDigitAt(s, i + 1, k);
    }
  }

  lemma {:induction false} DigitRunEndAt(s: string, i: nat, j: nat)
    requires i <= j <= |s|
    requires AllDigits(s[i..j]) && (j == |s| || !IsDigit(s[j]))
    ensures DigitRunEnd(s, i) == j
    decreases j - i
  {
    if i < j {
      assert s[i..j][0] == s[i];
      assert s[i + 1..j] == s[i..j][1..];
      DigitRunEndAt(s, i + 1, j);
    }
  }

  /** The number found is the run of digits that follows a digit-free
      prefix, taken up to the first non-digit. */
  lemma FirstNumberOf(p: string, ds: string, q: string)
    requires NoDigits(p)
    requires |ds| >= 1 && AllDigits(ds)
    requires |q| == 0 || !IsDigit(q[0])
    ensures FirstNumber(p + ds + q) == Some(DecimalValue(ds))
  {
    var s := p + ds + q;
    var i, j := |p|, |p| + |ds|;
    assert s[0..i] == p;
    assert s[i] == ds[0];
    FirstDigitAt(s, 0, i);
    assert s[i..j] == ds;
    assert j < |s| ==> s[j] == q[0];
    DigitRunEndAt(s, i, j);
  }

  /** Every string with a digit has that shape, so `FirstNumberOf` covers
      every present result. */
  lemma FirstNumberShape(s: string) returns (p: string, ds: string, q: string)
    requires !NoDigits(s)
    ensures s == p + ds + q
    ensures NoDigits(p) && |ds| >= 1 && AllDigits(ds) && (|q| == 0 || !IsDigit(q[0]))
    ensures FirstNumber(s) == Some(DecimalValue(ds))
  {
    var m :| 0 <= m < |s| && IsDigit(s[m]);
    var i := FirstDigitFrom(s, 0);
    assert forall t :: 0 <= t < i ==> s[0..i][t] == s[t];
    assert i <= m;
    var j := DigitRunEnd(s, i);
    p, ds, q := s[..i], s[i..j], s[j..];
    assert s == p + ds + q;
    assert s[0..i] == p;
  }

  /** The canonical spelling of a number, framed by text as in "90 min" or
      "3 Seasons", is read back as that number. */
  lemma FirstNumberRoundTrip(p: string, n: nat, q: string)
    requires NoDigits(p)
    requires |q| == 0 || !IsDigit(q[0])
    ensures FirstNumber(p + ToDecimal(n) + q) == Some(n)
  {
    FirstNumberOf(p, ToDecimal(n), q);
  }

  // ---------------------------------------------------------------------------
  // Python's ordering of str
  // ---------------------------------------------------------------------------

  /** Python's `<` on `str`: lexicographic by code point, a proper prefix
      before its extensions. */
  predicate StrLess(a: string, b: string) {
    if |a| == 0 then |b| > 0
    else if |b| == 0 then false
    else if a[0] != b[0] then a[0] < b[0]
    else StrLess(a[1..], b[1..])
  }

  lemma {:induction false} StrLessIrreflexive(a: string)
    ensures !StrLess(a, a)
    decreases |a|
  {
    if |a| > 0 {
      StrLessIrreflexive(a[1..]);
    }
  }

  lemma {:induction false} StrLessTransitive(a: string, b: string, c: string)
    requires StrLess(a, b) && StrLess(b, c)
    ensures StrLess(a, c)
    decreases |a|
  {
    if |a| > 0 && |b| > 0 && |c| > 0 && a[0] == b[0] && b[0] == c[0] {
      StrLessTransitive(a[1..], b[1..], c[1..]);
    }
  }

  lemma {:induction false} StrLessTotal(a: string, b: string)
    ensures a == b || StrLess(a, b) || StrLess(b, a)
    decreases |a|
  {
    if |a| > 0 && |b| > 0 && a[0] == b[0] {
      StrLessTotal(a[1..], b[1..]);
      if a[1..] == b[1..] {
        assert a == [a[0]] + a[1..];
        assert b == [b[0]] + b[1..];
      }
    }
  }
}
