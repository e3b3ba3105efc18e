/** Helpers of the sector page: the bisection that brackets a value in one
    column of a track, the h:mm:ss rendering of the time axis, the
    column-to-row transposition of a track, and the choice of the two
    sector journals shown by default. JavaScript numbers are modelled as
    reals (track columns) and integers (seconds, database ids). */
module Sector {
  import opened Wrappers
  import opened Text

  // ---------------------------------------------------------------- bracket

  /** The result of `bracket`: the two indices, the norm and the two weights
      that `interpolate` combines as (column[lo] * loWeight + column[hi] *
      hiWeight) / norm. */
  datatype Bracket = Bracket(lo: nat, hi: nat, norm: real, loWeight: real, hiWeight: real)

  /** `Math.floor(0.5 + 0.5 * (a + c))`, for integer a and c the upper middle. */
  function Probe(a: int, c: int): (b: int)
    ensures c - a > 1 ==> a < b < c
    ensures 2 * b == a + c || 2 * b == a + c + 1
  {
    (a + c + 1) / 2
  }

  /** What the loop leaves behind: two neighbouring indices (one index for a
      one-element column), the lower one at or below `value` unless it is the
      first index, the upper one above `value` unless it is the last. No
      ordering of the column is needed for this. */
  predicate IsBracket(column: seq<real>, value: real, a: int, c: int) {
    0 <= a <= c < |column| &&
    (if |column| == 1 then a == c else c == a + 1) &&
    (a > 0 ==> column[a] <= value) &&
    (c < |column| - 1 ==> value < column[c])
  }

  /** The returned tuple for indices a and c. */
  function Weights(column: seq<real>, value: real, a: nat, c: nat): (r: Bracket)
    requires a <= c < |column|
    ensures r.lo == a && r.hi == c
    ensures r.loWeight + r.hiWeight == r.norm
    ensures r.norm == column[c] - column[a]
  {
    Bracket(a, c, column[c] - column[a], column[c] - value, value - column[a])
  }

  /** `bracket(data, value, key)` on the column `data[.][key]`; an empty
      track fails on `data[-1]`. */
  method BracketOf(column: seq<real>, value: real) returns (r: Option<Bracket>)
    ensures r.None? <==> |column| == 0
    ensures r.Some? ==> IsBracket(column, value, r.value.lo, r.value.hi) &&
                        r.value == Weights(column, value, r.value.lo, r.value.hi)
  {
    if |column| == 0 {
      return None;
    }
    var a := 0;
    var c := |column| - 1;
    while c - a > 1
      invariant 0 <= a <= c < |column|
      invariant |column| > 1 ==> a < c
      invariant a > 0 ==> column[a] <= value
      invariant c < |column| - 1 ==> value < column[c]
      decreases c - a
    {
      var b := Probe(a, c);
      if column[b] > value {
        c := b;
      } else {
        a := b;
      }
    }
    return Some(Weights(column, value, a, c));
  }

  /** When the value lies within the first and last entries, the bracket
      encloses it, so both weights are non-negative. */
  lemma BracketEncloses(column: seq<real>, value: real, a: int, c: int)
    requires IsBracket(column, value, a, c)
    requires column[0] <= value <= column[|column| - 1]
    ensures column[a] <= value <= column[c]
    ensures var r := Weights(column, value, a, c); r.loWeight >= 0.0 && r.hiWeight >= 0.0
  {
  }

  predicate Ascending(column: seq<real>) {
    forall i, j :: 0 <= i <= j < |column| ==> column[i] <= column[j]
  }

  /** The number of entries at or below `value`. */
  function CountAtMost(xs: seq<real>, value: real): (n: nat)
    ensures n <= |xs|
  {
    if xs == [] then 0
    else CountAtMost(xs[..|xs| - 1], value) + (if xs[|xs| - 1] <= value then 1 else 0)
  }

  /** Entries at or below `value` before p and above it from p on: p of them. */
  lemma {:induction false} CountSplit(xs: seq<real>, value: real, p: int)
    requires 0 <= p <= |xs|
    requires forall i :: 0 <= i < p ==> xs[i] <= value
    requires forall i :: p <= i < |xs| ==> value < xs[i]
    ensures CountAtMost(xs, value) == p
    decreases |xs|
  {
    if xs != [] {
      var front := xs[..|xs| - 1];
      if p == |xs| {
        CountSplit(front, value, p - 1);
      } else {
        CountSplit(front, value, p);
      }
    }
  }

  /** On an ascending column of two or more entries the lower index is the
      number of inner entries (neither the first nor the last) at or below
      `value`: the bracket is determined by the value alone, whatever order
      the bisection probes in. */
  lemma BracketCount(column: seq<real>, value: real, a: int, c: int)
    requires Ascending(column) && |column| >= 2
    requires IsBracket(column, value, a, c)
    ensures a == CountAtMost(column[1..|column| - 1], value)
  {
    var inner := column[1..|column| - 1];
    forall i | 0 <= i < a ensures inner[i] <= value {
      assert inner[i] == column[i + 1] <= column[a];
    }
    forall i | a <= i < |inner| ensures value < inner[i] {
      assert inner[i] == column[i + 1] >= column[c];
    }
    CountSplit(inner, value, a);
  }

  // -------------------------------------------------------------------- hms

  /** The colon-separated fields of `hms(seconds)`: hours, minutes and seconds
      where the hours are positive, else minutes and seconds where the minutes
      are positive, else the seconds alone; every field after the first has
      two digits. For whole seconds, `(seconds - s) / 60 % 60` and the hour
      expression are exact, so `Math.round` changes nothing. */
  function HmsFields(seconds: nat): (f: seq<string>)
    ensures |f| == (if seconds < 60 then 1 else if seconds < 3600 then 2 else 3)
    ensures forall i :: 0 <= i < |f| ==> |f[i]| > 0 && AllDigits(f[i])
    ensures forall i :: 1 <= i < |f| ==> |f[i]| == 2 && ParseDigits(f[i]) < 60
  {
    var s := seconds % 60;
    var m := seconds / 60 % 60;
    var h := seconds / 3600;
    SplitSeconds(seconds);
    ParsePad2(s);
    ParsePad2(m);
    if h > 0 then [NatToString(h), Pad2(m), Pad2(s)]
    else if m > 0 then [NatToString(m), Pad2(s)]
    else [NatToString(s)]
  }

  /** `hms(seconds)`, the tick label of the time axis: splitting it on ':'
      gives back its fields, and below a minute it is the plain number. */
  function Hms(seconds: nat): (r: string)
    ensures Split(r, ':') == HmsFields(seconds)
    ensures seconds < 60 ==> r == NatToString(seconds)
  {
    DigitsHaveNoColon(HmsFields(seconds));
    SplitJoin(HmsFields(seconds), ':');
    SplitSeconds(seconds);
    Join(HmsFields(seconds), ':')
  }

  /** The value of colon-separated base-60 fields, most significant first. */
  function Sexagesimal(fields: seq<string>): nat
    requires forall i :: 0 <= i < |fields| ==> AllDigits(fields[i])
  {
    if fields == [] then 0
    else Sexagesimal(fields[..|fields| - 1]) * 60 + ParseDigits(fields[|fields| - 1])
  }

  /** Reads back a label: one to three non-empty digit fields. */
  function ParseHms(text: string): Option<nat> {
    var fields := Split(text, ':');
    if |fields| <= 3 && forall i :: 0 <= i < |fields| ==> |fields[i]| > 0 && AllDigits(fields[i])
    then Some(Sexagesimal(fields))
    else None
  }

  /** Every field of a digit string is free of colons. */
  lemma DigitsHaveNoColon(fields: seq<string>)
    requires forall i :: 0 <= i < |fields| ==> AllDigits(fields[i])
    ensures NoSep(fields, ':')
  {
    assert !IsDigit(':');
  }

  lemma SexagesimalOf(a: string, b: string, c: string)
    requires AllDigits(a) && AllDigits(b) && AllDigits(c)
    ensures Sexagesimal([a]) == ParseDigits(a)
    ensures Sexagesimal([a, b]) == ParseDigits(a) * 60 + ParseDigits(b)
    ensures Sexagesimal([a, b, c]) == (ParseDigits(a) * 60 + ParseDigits(b)) * 60 + ParseDigits(c)
  {
    assert [a, b, c][..2] == [a, b];
    assert [a, b][..1] == [a];
    assert [a][..0] == [];
  }

  /** Whole seconds split into whole hours, minutes below 60 and seconds below 60. */
  lemma SplitSeconds(seconds: nat)
    ensures seconds == (seconds / 3600 * 60 + seconds / 60 % 60) * 60 + seconds % 60
    ensures seconds / 3600 == 0 ==> seconds == seconds / 60 % 60 * 60 + seconds % 60
    ensures seconds < 60 ==> seconds / 3600 == 0 && seconds / 60 % 60 == 0 && seconds % 60 == seconds
    ensures 60 <= seconds < 3600 ==> seconds / 3600 == 0 && seconds / 60 % 60 > 0
    ensures 3600 <= seconds ==> seconds / 3600 > 0
  {
    var q := seconds / 60;
    assert seconds == q * 60 + seconds % 60;
    assert q == q / 60 * 60 + q % 60;
    assert seconds / 3600 == q / 60;
  }

  /** Read as base-60 digits, the fields give the seconds back. */
  lemma HmsFieldSum(seconds: nat)
    ensures forall i :: 0 <= i < |HmsFields(seconds)| ==> AllDigits(HmsFields(seconds)[i])
    ensures Sexagesimal(HmsFields(seconds)) == seconds
  {
    var s, m, h := seconds % 60, seconds / 60 % 60, seconds / 3600;
    SplitSeconds(seconds);
    ParseNatToString(h);
    ParseNatToString(m);
    ParseNatToString(s);
    ParsePad2(s);
    ParsePad2(m);
    var hs, ms, ss, mp, sp := NatToString(h), NatToString(m), NatToString(s), Pad2(m), Pad2(s);
    if h > 0 {
      SexagesimalOf(hs, mp, sp);
    } else if m > 0 {
      SexagesimalOf(ms, sp, sp);
    } else {
      SexagesimalOf(ss, sp, sp);
    }
  }

  /** Reading a label back gives the number of seconds it was made from. */
  lemma HmsRoundTrip(seconds: nat)
    ensures ParseHms(Hms(seconds)) == Some(seconds)
  {
    HmsFieldSum(seconds);
  }

  // -------------------------------------------------------------------- zip

  /** A track as the server sends it: named columns, in key order, the keys
      distinct. */
  type Columns = seq<(string, seq<real>)>

  predicate DistinctNames(input: Columns) {
    forall j, j' :: 0 <= j < j' < |input| ==> input[j].0 != input[j'].0
  }

  /** Some column among the first `n` is called k and reaches row i. */
  predicate Covers(input: Columns, n: int, i: int, k: string)
    requires 0 <= n <= |input|
  {
    exists j :: 0 <= j < n && input[j].0 == k && i < |input[j].1|
  }

  /** Each row holds exactly the keys of the first `n` columns that reach it,
      each mapped to that column's entry for the row. */
  ghost predicate RowsFrom(input: Columns, n: int, rows: seq<map<string, real>>)
    requires 0 <= n <= |input|
  {
    forall i :: 0 <= i < |rows| ==>
      (forall k :: k in rows[i] <==> Covers(input, n, i, k)) &&
      (forall j :: 0 <= j < n && i < |input[j].1| ==> input[j].0 in rows[i] && rows[i][input[j].0] == input[j].1[i])
  }

  /** The rows of `zip(input)`: one per entry of the first column. */
  ghost predicate IsZip(input: Columns, rows: seq<map<string, real>>) {
    |input| > 0 && |rows| == |input[0].1| && RowsFrom(input, |input|, rows)
  }

  /** `zip(input)`: a row per entry of the first column, then every later
      column written into the rows it reaches. A track without columns, or a
      column longer than the first (writing into a missing row), fails. */
  method Zip(input: Columns) returns (r: Option<seq<map<string, real>>>)
    requires DistinctNames(input)
    ensures r.None? <==> |input| == 0 || exists j :: 0 <= j < |input| && |input[j].1| > |input[0].1|
    ensures r.Some? ==> IsZip(input, r.value)
  {
    if |input| == 0 {
      return None;
    }
    var first := input[0].0;
    var firstColumn := input[0].1;
    var output: seq<map<string, real>> := [];
    for i := 0 to |firstColumn|
      invariant |output| == i
      invariant forall i' :: 0 <= i' < i ==> output[i'] == map[first := firstColumn[i']]
    {
      output := output + [map[first := firstColumn[i]]];
    }
    FirstRows(input, output);
    for j := 1 to |input|
      invariant |output| == |firstColumn|
      invariant forall j' :: 0 <= j' < j ==> |input[j'].1| <= |firstColumn|
      invariant RowsFrom(input, j, output)
    {
      var key := input[j].0;
      var column := input[j].1;
      if |column| > |output| {
        return None;
      }
      ghost var before := output;
      output := WriteColumn(output, key, column);
      RowsStep(input, j, before, output);
    }
    return Some(output);
  }

  /** The rows made from the first column hold that column alone. */
  lemma FirstRows(input: Columns, rows: seq<map<string, real>>)
    requires |input| > 0 && |rows| == |input[0].1|
    requires forall i :: 0 <= i < |rows| ==> rows[i] == map[input[0].0 := input[0].1[i]]
    ensures RowsFrom(input, 1, rows)
  {
    forall i | 0 <= i < |rows| ensures forall k :: k in rows[i] <==> Covers(input, 1, i, k) {
      forall k ensures k in rows[i] <==> Covers(input, 1, i, k) {
        if k in rows[i] { assert input[0].0 == k && i < |input[0].1|; }
      }
    }
  }

  /** `input[key].forEach((x, i) => output[i][key] = x)` for a column no
      longer than the rows: entry i of the column goes into row i. */
  method WriteColumn(rows: seq<map<string, real>>, key: string, column: seq<real>)
    returns (rows': seq<map<string, real>>)
    requires |column| <= |rows|
    ensures |rows'| == |rows|
    ensures forall i :: 0 <= i < |rows| ==>
      rows'[i] == if i < |column| then rows[i][key := column[i]] else rows[i]
  {
    rows' := rows;
    for i := 0 to |column|
      invariant |rows'| == |rows|
      invariant forall i' :: 0 <= i' < |rows| ==> rows'[i'] == if i' < i then rows[i'][key := column[i']] else rows[i']
    {
      rows' := rows'[i := rows'[i][key := column[i]]];
    }
  }

  /** Writing column j into the rows it reaches extends the rows of the
      first j columns to those of the first j + 1. */
  lemma RowsStep(input: Columns, j: int, before: seq<map<string, real>>, after: seq<map<string, real>>)
    requires DistinctNames(input)
    requires 0 <= j < |input| && |input[j].1| <= |before| == |after|
    requires RowsFrom(input, j, before)
    requires forall i :: 0 <= i < |after| ==>
      after[i] == if i < |input[j].1| then before[i][input[j].0 := input[j].1[i]] else before[i]
    ensures RowsFrom(input, j + 1, after)
  {
    var key := input[j].0;
    forall i | 0 <= i < |after|
      ensures (forall k :: k in after[i] <==> Covers(input, j + 1, i, k)) &&
              (forall j' :: 0 <= j' < j + 1 && i < |input[j'].1| ==> input[j'].0 in after[i] && after[i][input[j'].0] == input[j'].1[i])
    {
      forall k ensures k in after[i] <==> Covers(input, j + 1, i, k) {
        if k in after[i] {
          if k == key && i < |input[j].1| {
            assert input[j].0 == k;
          } else {
            assert Covers(input, j, i, k);
            var w :| 0 <= w < j && input[w].0 == k && i < |input[w].1|;
            assert input[w].0 == k;
          }
        }
        if Covers(input, j + 1, i, k) {
          var w :| 0 <= w < j + 1 && input[w].0 == k && i < |input[w].1|;
          if w < j { assert Covers(input, j, i, k); }
        }
      }
      forall j' | 0 <= j' < j + 1 && i < |input[j'].1|
        ensures input[j'].0 in after[i] && after[i][input[j'].0] == input[j'].1[i]
      {
        if j' < j {
          assert input[j'].0 != key;
        }
      }
    }
  }

  /** The column called k, read back out of the rows. */
  function Column(rows: seq<map<string, real>>, k: string): (col: seq<real>)
    requires forall i :: 0 <= i < |rows| ==> k in rows[i]
    ensures |col| == |rows| && forall i :: 0 <= i < |rows| ==> col[i] == rows[i][k]
  {
    if rows == [] then [] else [rows[0][k]] + Column(rows[1..], k)
  }

  /** When every column is as long as the first, reading a column back out
      of the zipped rows gives that column. */
  lemma ZipUnzip(input: Columns, rows: seq<map<string, real>>, j: int)
    requires IsZip(input, rows) && 0 <= j < |input|
    requires forall j' :: 0 <= j' < |input| ==> |input[j'].1| == |input[0].1|
    ensures forall i :: 0 <= i < |rows| ==> input[j].0 in rows[i]
    ensures Column(rows, input[j].0) == input[j].1
  {
  }

  /** The rows of a zip are determined by the columns. */
  lemma ZipUnique(input: Columns, rows: seq<map<string, real>>, rows': seq<map<string, real>>)
    requires IsZip(input, rows) && IsZip(input, rows')
    ensures rows == rows'
  {
    forall i | 0 <= i < |rows| ensures rows[i] == rows'[i] {
      forall k | k in rows[i] ensures k in rows'[i] && rows[i][k] == rows'[i][k] {
        var w :| 0 <= w < |input| && input[w].0 == k && i < |input[w].1|;
      }
      assert rows[i].Keys == rows'[i].Keys;
    }
  }

  // ------------------------------------------------------ default selection

  /** Index i holds the smallest final time, and no earlier index holds it. */
  predicate IsFirstMinimum(finals: seq<real>, i: int) {
    0 <= i < |finals| &&
    (forall k :: 0 <= k < |finals| ==> finals[i] <= finals[k]) &&
    (forall k :: 0 <= k < i ==> finals[i] < finals[k])
  }

  /** The default `i`: starting from journal 0, a journal replaces the
      current choice only when its final time is strictly smaller. With no
      journals, `sectors[0]` fails. */
  method Fastest(finals: seq<real>) returns (r: Option<nat>)
    ensures r.None? <==> |finals| == 0
    ensures r.Some? ==> IsFirstMinimum(finals, r.value)
  {
    if |finals| == 0 {
      return None;
    }
    var fastest := 0;
    var fastestTime := finals[0];
    for i := 0 to |finals|
      invariant 0 <= fastest < |finals| && fastestTime == finals[fastest]
      invariant fastest <= i || (i == 0 && fastest == 0)
      invariant forall k :: 0 <= k < i ==> fastestTime <= finals[k]
      invariant forall k :: 0 <= k < fastest ==> fastestTime < finals[k]
    {
      var time := finals[i];
      if time < fastestTime {
        fastest := i;
        fastestTime := time;
      }
    }
    return Some(fastest);
  }

  /** The default `j`: the journal whose database id is the `from` query
      parameter. `from` is None when the parameter is missing or empty or
      does not parse as an integer. Every match sets `j`, so the last one
      wins; with no match `j` is 0 and a warning is logged (`found` false). */
  method FromIndex(dbs: seq<int>, from: Option<int>) returns (j: nat, found: bool)
    ensures found <==> from.Some? && exists k :: 0 <= k < |dbs| && dbs[k] == from.value
    ensures found ==> j < |dbs| && dbs[j] == from.value &&
                      forall k :: j < k < |dbs| ==> dbs[k] != from.value
    ensures !found ==> j == 0
  {
    j := 0;
    found := false;
    if from.Some? {
      for i := 0 to |dbs|
        invariant found <==> exists k :: 0 <= k < i && dbs[k] == from.value
        invariant found ==> j < i && dbs[j] == from.value && forall k :: j < k < i ==> dbs[k] != from.value
        invariant !found ==> j == 0
      {
        if dbs[i] == from.value {
          j := i;
          found := true;
        }
      }
    }
  }
}
