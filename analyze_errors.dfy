/**
 * `analyze_errors.py`: the per-label error table computed from a confusion matrix (true
 * labels down the index, predicted labels across the columns), its order by error rate, the
 * three worst labels with what they were mistaken for, and the labels never predicted.
 * Reading the CSV file, the percentages and all printing are not part of this model.
 */
module AnalyzeErrors {
  import opened Wrappers
  import opened Frame

  // ================================================================ the matrix

  /** `cm_df`: one row of counts per true label, one column per predicted label. */
  datatype Matrix = Matrix(index: seq<string>, columns: seq<string>, counts: seq<seq<nat>>)

  predicate Unique(names: seq<string>) {
    forall i, j :: 0 <= i < j < |names| ==> names[i] != names[j]
  }

  /** A count per cell, and no label twice on either axis, so that `cm_df.loc[label]` is one
      row and `cm_df.loc[name, name]` one cell. */
  predicate WellFormed(m: Matrix) {
    && |m.counts| == |m.index|
    && (forall i :: 0 <= i < |m.counts| ==> |m.counts[i]| == |m.columns|)
    && Unique(m.index)
    && Unique(m.columns)
  }

  /** `series.sum()`. */
  function Sum(xs: seq<nat>): nat {
    if xs == [] then 0 else Sum(xs[..|xs| - 1]) + xs[|xs| - 1]
  }

  /** No single count exceeds the row total. */
  lemma {:induction false} CountAtMostSum(xs: seq<nat>, j: nat)
    requires j < |xs|
    ensures xs[j] <= Sum(xs)
  {
    var n := |xs| - 1;
    if j < n {
      CountAtMostSum(xs[..n], j);
    }
  }

  // ================================================================ the error table

  /** One record of `error_rates`; `wrong` is `Total_Samples - Correct`. */
  datatype Entry = Entry(name: string, total: nat, correct: nat, wrong: int)

  /** What the loop does with row `i`: a row summing to 0 is skipped; otherwise the diagonal
      cell `cm_df.loc[name, name]` is read, which raises `KeyError` (here `Err(name)`)
      when the name is not a column. */
  function RowEntry(m: Matrix, i: nat): Result<Option<Entry>, string>
    requires WellFormed(m) && i < |m.index|
  {
    var name := m.index[i];
    var total := Sum(m.counts[i]);
    if total == 0 then Ok(None)
    else if name !in m.columns then Err(name)
    else
      var correct := m.counts[i][IndexOf(m.columns, name)];
      Ok(Some(Entry(name, total, correct, total - correct)))
  }

  /** `error_rates` after the first `n` rows, or the `KeyError` that ended the script. */
  function ErrorRatesOf(m: Matrix, n: nat): Result<seq<Entry>, string>
    requires WellFormed(m) && n <= |m.index|
  {
    if n == 0 then Ok([])
    else
      match ErrorRatesOf(m, n - 1)
      case Err(name) => Err(name)
      case Ok(entries) =>
        match RowEntry(m, n - 1)
        case Err(name) => Err(name)
        case Ok(None) => Ok(entries)
        case Ok(Some(e)) => Ok(entries + [e])
  }

  /** Once a `KeyError` is raised, no later row is read. */
  lemma {:induction false} ErrorSticks(m: Matrix, i: nat, n: nat)
    requires WellFormed(m) && i <= n <= |m.index| && ErrorRatesOf(m, i).Err?
    ensures ErrorRatesOf(m, n) == ErrorRatesOf(m, i)
    decreases n
  {
    if i < n {
      ErrorSticks(m, i, n - 1);
    }
  }

  /** The module-level loop that fills `error_rates`. */
  method ErrorRates(m: Matrix) returns (r: Result<seq<Entry>, string>)
    requires WellFormed(m)
    ensures r == ErrorRatesOf(m, |m.index|)
  {
    var rates: seq<Entry> := [];
    var i := 0;
    while i < |m.index|
      invariant 0 <= i <= |m.index|
      invariant ErrorRatesOf(m, i) == Ok(rates)
    {
      var name := m.index[i];
      var total := Sum(m.counts[i]);
      if total != 0 {
        if name !in m.columns {
          ErrorSticks(m, i + 1, |m.index|);
          return Err(name);
        }
        var correct := m.counts[i][IndexOf(m.columns, name)];
        var incorrect: int := (total as int) - correct;
        rates := rates + [Entry(name, total, correct, incorrect)];
      }
      i := i + 1;
    }
    r := Ok(rates);
  }

  /** The script stops with `KeyError` exactly when some row with samples has no column of
      its own, and then names the first such name. */
  lemma {:induction false} ErrorRatesFail(m: Matrix, n: nat)
    requires WellFormed(m) && n <= |m.index|
    ensures ErrorRatesOf(m, n).Err? <==>
              exists i :: 0 <= i < n && Sum(m.counts[i]) > 0 && m.index[i] !in m.columns
    ensures ErrorRatesOf(m, n).Err? ==> ErrorRatesOf(m, n).error in m.index
  {
    if n > 0 {
      ErrorRatesFail(m, n - 1);
    }
  }

  /** Entry `e` reports row `i`: its label, its total (positive), its diagonal cell as
      `correct`, no more correct answers than samples, and `correct + wrong == total`. */
  predicate EntryOfRow(m: Matrix, i: nat, e: Entry)
    requires WellFormed(m) && i < |m.index|
  {
    && e.name == m.index[i] && e.name in m.columns
    && e.total == Sum(m.counts[i]) > 0
    && e.correct == m.counts[i][IndexOf(m.columns, e.name)]
    && 0 <= e.correct <= e.total
    && e.correct + e.wrong == e.total
  }

  lemma RowEntrySpec(m: Matrix, i: nat)
    requires WellFormed(m) && i < |m.index| && RowEntry(m, i).Ok? && RowEntry(m, i).value.Some?
    ensures EntryOfRow(m, i, RowEntry(m, i).value.value)
  {
    CountAtMostSum(m.counts[i], IndexOf(m.columns, m.index[i]));
  }

  /** Every entry of the table reports one of the rows read, and there are no more entries
      than rows. */
  lemma {:induction false} ErrorRatesEntries(m: Matrix, n: nat)
    requires WellFormed(m) && n <= |m.index| && ErrorRatesOf(m, n).Ok?
    ensures |ErrorRatesOf(m, n).value| <= n
    ensures forall e :: e in ErrorRatesOf(m, n).value ==> exists i :: 0 <= i < n && EntryOfRow(m, i, e)
  {
    if n > 0 {
      ErrorRatesEntries(m, n - 1);
      var step := RowEntry(m, n - 1);
      if step.value.Some? {
        RowEntrySpec(m, n - 1);
        assert ErrorRatesOf(m, n).value == ErrorRatesOf(m, n - 1).value + [step.value.value];
      }
    }
  }

  /** Every row with samples is reported by an entry. */
  lemma {:induction false} ErrorRatesCover(m: Matrix, n: nat)
    requires WellFormed(m) && n <= |m.index| && ErrorRatesOf(m, n).Ok?
    ensures forall i :: 0 <= i < n && Sum(m.counts[i]) > 0 ==>
              exists e :: e in ErrorRatesOf(m, n).value && EntryOfRow(m, i, e)
  {
    if n > 0 {
      ErrorRatesCover(m, n - 1);
      var prev := ErrorRatesOf(m, n - 1).value;
      var now := ErrorRatesOf(m, n).value;
      var step := RowEntry(m, n - 1);
      if step.value.Some? {
        RowEntrySpec(m, n - 1);
        assert now == prev + [step.value.value];
        assert step.value.value in now;
      }
      forall i | 0 <= i < n - 1 && Sum(m.counts[i]) > 0
        ensures exists e :: e in now && EntryOfRow(m, i, e)
      {
        var e :| e in prev && EntryOfRow(m, i, e);
        assert e in now;
      }
    }
  }

  /** A row summing to 0 is skipped: no entry carries its label. */
  lemma ErrorRatesSkip(m: Matrix, i: nat)
    requires WellFormed(m) && ErrorRatesOf(m, |m.index|).Ok?
    requires i < |m.index| && Sum(m.counts[i]) == 0
    ensures forall e :: e in ErrorRatesOf(m, |m.index|).value ==> e.name != m.index[i]
  {
    ErrorRatesEntries(m, |m.index|);
    forall e | e in ErrorRatesOf(m, |m.index|).value ensures e.name != m.index[i] {
      var k :| 0 <= k < |m.index| && EntryOfRow(m, k, e);
      assert k != i;
    }
  }

  /** The entries all have samples and all name labels of the index. */
  lemma ErrorRatesSampled(m: Matrix)
    requires WellFormed(m) && ErrorRatesOf(m, |m.index|).Ok?
    ensures AllSampled(ErrorRatesOf(m, |m.index|).value)
    ensures forall e :: e in ErrorRatesOf(m, |m.index|).value ==> e.name in m.index
  {
    var entries := ErrorRatesOf(m, |m.index|).value;
    ErrorRatesEntries(m, |m.index|);
    forall k | 0 <= k < |entries| ensures entries[k].total > 0 {
      assert entries[k] in entries;
    }
  }

  // ================================================================ sorting by error rate

  /** `a`'s error rate `wrong / total` is at least `b`'s, compared as fractions. */
  predicate RateAtLeast(a: Entry, b: Entry) {
    a.wrong * b.total >= b.wrong * a.total
  }

  lemma MulMonotone(x: int, y: int, k: nat)
    requires x >= y
    ensures x * k >= y * k
  {
  }

  lemma {:induction false} MulStrict(x: int, y: int, k: nat)
    requires x < y && k > 0
    ensures x * k < y * k
    decreases k
  {
    if k > 1 {
      MulStrict(x, y, k - 1);
      assert x * k == x * (k - 1) + x;
      assert y * k == y * (k - 1) + y;
    }
  }

  /** Comparing rates by cross-multiplication is transitive across a middle entry with
      samples. */
  lemma RateAtLeastTransitive(a: Entry, b: Entry, c: Entry)
    requires b.total > 0 && RateAtLeast(a, b) && RateAtLeast(b, c)
    ensures RateAtLeast(a, c)
  {
    MulMonotone(a.wrong * b.total, b.wrong * a.total, c.total);
    MulMonotone(b.wrong * c.total, c.wrong * b.total, a.total);
    assert a.wrong * c.total * b.total >= c.wrong * a.total * b.total by {
      assert a.wrong * b.total * c.total == a.wrong * c.total * b.total;
      assert b.wrong * a.total * c.total == b.wrong * c.total * a.total;
      assert c.wrong * b.total * a.total == c.wrong * a.total * b.total;
    }
    if a.wrong * c.total < c.wrong * a.total {
      MulStrict(a.wrong * c.total, c.wrong * a.total, b.total);
    }
  }

  /** Highest error rate first. */
  predicate ByRateDescending(s: seq<Entry>) {
    forall i, j :: 0 <= i < j < |s| ==> RateAtLeast(s[i], s[j])
  }

  predicate AllSampled(s: seq<Entry>) {
    forall k :: 0 <= k < |s| ==> s[k].total > 0
  }

  /** Inserts `e` before the first entry whose rate is not above its own. */
  function InsertByRate(e: Entry, s: seq<Entry>): seq<Entry> {
    if s == [] || RateAtLeast(e, s[0]) then [e] + s
    else [s[0]] + InsertByRate(e, s[1..])
  }

  /** `sort_values('Error_Rate_%', ascending=False)` on the exact rates. */
  function SortByRate(entries: seq<Entry>): seq<Entry> {
    if entries == [] then [] else InsertByRate(entries[0], SortByRate(entries[1..]))
  }

  lemma {:induction false} InsertByRatePerm(e: Entry, s: seq<Entry>)
    ensures multiset(InsertByRate(e, s)) == multiset(s) + multiset{e}
  {
    if s != [] && !RateAtLeast(e, s[0]) {
      InsertByRatePerm(e, s[1..]);
      assert s == [s[0]] + s[1..];
    }
  }

  lemma {:induction false} InsertByRateSorted(e: Entry, s: seq<Entry>)
    requires e.total > 0 && AllSampled(s) && ByRateDescending(s)
    ensures AllSampled(InsertByRate(e, s))
    ensures ByRateDescending(InsertByRate(e, s))
  {
    if s != [] && !RateAtLeast(e, s[0]) {
      var rest := s[1..];
      InsertByRateSorted(e, rest);
      InsertByRatePerm(e, rest);
      var r := InsertByRate(e, rest);
      forall j | 0 <= j < |r| ensures RateAtLeast(s[0], r[j]) {
        assert r[j] in multiset(rest) + multiset{e};
        if r[j] != e {
          var k :| 0 <= k < |rest| && rest[k] == r[j];
          assert s[k + 1] == r[j];
        }
      }
    } else if s != [] {
      forall j | 0 < j < |s| ensures RateAtLeast(e, s[j]) {
        RateAtLeastTransitive(e, s[0], s[j]);
      }
    }
  }

  /** The sorted table holds the same entries, highest error rate first. */
  lemma {:induction false} SortByRateSpec(entries: seq<Entry>)
    requires AllSampled(entries)
    ensures multiset(SortByRate(entries)) == multiset(entries)
    ensures AllSampled(SortByRate(entries))
    ensures ByRateDescending(SortByRate(entries))
  {
    if entries != [] {
      SortByRateSpec(entries[1..]);
      InsertByRatePerm(entries[0], SortByRate(entries[1..]));
      InsertByRateSorted(entries[0], SortByRate(entries[1..]));
      assert entries == [entries[0]] + entries[1..];
    }
  }

  /** `error_df.head(3)`. */
  function TopThree(sorted: seq<Entry>): (top: seq<Entry>)
    ensures |top| <= 3
  {
    if |sorted| <= 3 then sorted else sorted[..3]
  }

  /** The three detailed labels are three of the table's labels (all of them when there are
      fewer) and no name left out has a higher error rate than any of them. */
  lemma TopThreeAreWorst(entries: seq<Entry>)
    requires AllSampled(entries)
    ensures var sorted := SortByRate(entries);
      var top := TopThree(sorted);
      && |top| == (if |entries| < 3 then |entries| else 3)
      && (forall t :: t in top ==> t in entries)
      && forall t, e :: t in top && e in entries && e !in top ==> RateAtLeast(t, e)
  {
    var sorted := SortByRate(entries);
    SortByRateSpec(entries);
    assert |sorted| == |multiset(sorted)| == |entries|;
    var top := TopThree(sorted);
    forall t | t in top ensures t in entries {
      assert t in multiset(sorted);
    }
    assert forall q :: 0 <= q < |top| ==> top[q] == sorted[q];
    forall t, e | t in top && e in entries && e !in top ensures RateAtLeast(t, e) {
      assert e in multiset(sorted);
      var i :| 0 <= i < |top| && top[i] == t;
      var j :| 0 <= j < |sorted| && sorted[j] == e;
      assert i < j;
    }
  }

  // ================================================================ misclassified as

  /** `cm_df.loc[label].drop(label)` restricted to `> 0`, in column order. */
  function OffDiagonal(name: string, columns: seq<string>, row: seq<nat>): seq<(string, nat)>
    requires |columns| == |row|
  {
    if row == [] then []
    else
      var n := |row| - 1;
      OffDiagonal(name, columns[..n], row[..n]) +
        (if columns[n] != name && row[n] > 0 then [(columns[n], row[n])] else [])
  }

  /** The listed predictions are exactly the other columns with a positive count. */
  lemma {:induction false} OffDiagonalMembers(name: string, columns: seq<string>, row: seq<nat>)
    requires |columns| == |row|
    ensures forall p :: p in OffDiagonal(name, columns, row) <==>
              exists j :: 0 <= j < |row| && columns[j] == p.0 && row[j] == p.1 && p.0 != name && p.1 > 0
  {
    if row != [] {
      var n := |row| - 1;
      OffDiagonalMembers(name, columns[..n], row[..n]);
      forall p: (string, nat) | exists j :: 0 <= j < |row| && columns[j] == p.0 && row[j] == p.1 && p.0 != name && p.1 > 0
        ensures p in OffDiagonal(name, columns, row)
      {
        var j :| 0 <= j < |row| && columns[j] == p.0 && row[j] == p.1 && p.0 != name && p.1 > 0;
        if j < n {
          assert columns[..n][j] == p.0 && row[..n][j] == p.1;
        }
      }
    }
  }

  /** The sum of the counts of a list of predictions. */
  function CountSum(ps: seq<(string, nat)>): nat {
    if ps == [] then 0 else CountSum(ps[..|ps| - 1]) + ps[|ps| - 1].1
  }

  /** The cells of the row in columns called `label`, added up. */
  function LabelCells(name: string, columns: seq<string>, row: seq<nat>): nat
    requires |columns| == |row|
  {
    if row == [] then 0
    else
      var n := |row| - 1;
      LabelCells(name, columns[..n], row[..n]) + (if columns[n] == name then row[n] else 0)
  }

  /** What is dropped and what is kept add up to the whole row. */
  lemma {:induction false} OffDiagonalSum(name: string, columns: seq<string>, row: seq<nat>)
    requires |columns| == |row|
    ensures CountSum(OffDiagonal(name, columns, row)) + LabelCells(name, columns, row) == Sum(row)
  {
    if row != [] {
      var n := |row| - 1;
      OffDiagonalSum(name, columns[..n], row[..n]);
      var last: seq<(string, nat)> := if columns[n] != name && row[n] > 0 then [(columns[n], row[n])] else [];
      var init := OffDiagonal(name, columns[..n], row[..n]);
      CountSumAppend(init, last);
    }
  }

  lemma {:induction false} CountSumAppend(a: seq<(string, nat)>, b: seq<(string, nat)>)
    ensures CountSum(a + b) == CountSum(a) + CountSum(b)
    decreases |b|
  {
    if b != [] {
      var n := |b| - 1;
      assert (a + b)[..|a + b| - 1] == a + b[..n];
      assert (a + b)[|a + b| - 1] == b[n];
      CountSumAppend(a, b[..n]);
    } else {
      assert a + b == a;
    }
  }

  /** With no column named twice, the only cell dropped is the diagonal one. */
  lemma {:induction false} LabelCellsOfUnique(name: string, columns: seq<string>, row: seq<nat>)
    requires |columns| == |row| && Unique(columns)
    ensures LabelCells(name, columns, row) == if name in columns then row[IndexOf(columns, name)] else 0
  {
    if row != [] {
      var n := |row| - 1;
      var init := columns[..n];
      assert Unique(init);
      LabelCellsOfUnique(name, init, row[..n]);
      if columns[n] == name {
        assert name !in init;
        assert IndexOf(columns, name) == n by {
          IndexOfLast(columns, name);
        }
      } else if name in init {
        var k := IndexOf(init, name);
        IndexOfPrefix(columns, n, name);
        assert row[..n][k] == row[k];
      }
    }
  }

  /** A name found in a prefix is found at the same place in the whole sequence. */
  lemma {:induction false} IndexOfPrefix(names: seq<string>, n: nat, name: string)
    requires n <= |names| && name in names[..n]
    ensures IndexOf(names, name) == IndexOf(names[..n], name)
  {
    if names[0] != name {
      assert names[..n][1..] == names[1..][..n - 1];
      IndexOfPrefix(names[1..], n - 1, name);
    }
  }

  /** A name that only occurs last is found last. */
  lemma {:induction false} IndexOfLast(names: seq<string>, name: string)
    requires names != [] && names[|names| - 1] == name && name !in names[..|names| - 1]
    ensures IndexOf(names, name) == |names| - 1
  {
    var n := |names| - 1;
    assert forall q :: 0 <= q < n ==> names[..n][q] == names[q];
  }

  /** Inserts `p` before the first prediction whose count is not above its own. */
  function InsertByCount(p: (string, nat), s: seq<(string, nat)>): seq<(string, nat)> {
    if s == [] || p.1 >= s[0].1 then [p] + s
    else [s[0]] + InsertByCount(p, s[1..])
  }

  /** `sort_values(ascending=False)` on the counts. */
  function SortByCount(ps: seq<(string, nat)>): seq<(string, nat)> {
    if ps == [] then [] else InsertByCount(ps[0], SortByCount(ps[1..]))
  }

  predicate ByCountDescending(s: seq<(string, nat)>) {
    forall i, j :: 0 <= i < j < |s| ==> s[i].1 >= s[j].1
  }

  lemma {:induction false} InsertByCountPerm(p: (string, nat), s: seq<(string, nat)>)
    ensures multiset(InsertByCount(p, s)) == multiset(s) + multiset{p}
  {
    if s != [] && p.1 < s[0].1 {
      InsertByCountPerm(p, s[1..]);
      assert s == [s[0]] + s[1..];
    }
  }

  lemma {:induction false} InsertByCountSorted(p: (string, nat), s: seq<(string, nat)>)
    requires ByCountDescending(s)
    ensures ByCountDescending(InsertByCount(p, s))
  {
    if s != [] && p.1 < s[0].1 {
      var rest := s[1..];
      InsertByCountSorted(p, rest);
      InsertByCountPerm(p, rest);
      var r := InsertByCount(p, rest);
      forall j | 0 <= j < |r| ensures s[0].1 >= r[j].1 {
        assert r[j] in multiset(rest) + multiset{p};
        if r[j] != p {
          var k :| 0 <= k < |rest| && rest[k] == r[j];
          assert s[k + 1] == r[j];
        }
      }
    }
  }

  lemma {:induction false} SortByCountSpec(ps: seq<(string, nat)>)
    ensures multiset(SortByCount(ps)) == multiset(ps)
    ensures ByCountDescending(SortByCount(ps))
  {
    if ps != [] {
      SortByCountSpec(ps[1..]);
      InsertByCountPerm(ps[0], SortByCount(ps[1..]));
      InsertByCountSorted(ps[0], SortByCount(ps[1..]));
      assert ps == [ps[0]] + ps[1..];
    }
  }

  lemma CountSumSingle(p: (string, nat))
    ensures CountSum([p]) == p.1
  {
    assert [p][..0] == [];
  }

  /** A permutation has the same count sum. */
  lemma {:induction false} CountSumOfSorted(ps: seq<(string, nat)>)
    ensures CountSum(SortByCount(ps)) == CountSum(ps)
  {
    if ps != [] {
      CountSumOfSorted(ps[1..]);
      CountSumInsert(ps[0], SortByCount(ps[1..]));
      CountSumAppend([ps[0]], ps[1..]);
      assert ps == [ps[0]] + ps[1..];
      CountSumSingle(ps[0]);
    }
  }

  lemma {:induction false} CountSumInsert(p: (string, nat), s: seq<(string, nat)>)
    ensures CountSum(InsertByCount(p, s)) == p.1 + CountSum(s)
  {
    CountSumSingle(p);
    if s == [] || p.1 >= s[0].1 {
      CountSumAppend([p], s);
    } else {
      CountSumInsert(p, s[1..]);
      CountSumAppend([s[0]], InsertByCount(p, s[1..]));
      CountSumAppend([s[0]], s[1..]);
      assert s == [s[0]] + s[1..];
      CountSumSingle(s[0]);
    }
  }

  /** "Misclassified as" for a label of the index: the other columns of its row with a
      positive count, highest count first. */
  function MisclassifiedAs(m: Matrix, name: string): seq<(string, nat)>
    requires WellFormed(m) && name in m.index
  {
    var i := IndexOf(m.index, name);
    SortByCount(OffDiagonal(name, m.columns, m.counts[i]))
  }

  /** For one row whose label is a column: the list never names the label, holds only
      positive counts, holds every other column with a positive count, is sorted by count,
      highest first, and adds up to the row total less the diagonal cell. */
  lemma MisclassifiedRow(name: string, columns: seq<string>, row: seq<nat>)
    requires |columns| == |row| && Unique(columns) && name in columns
    ensures var listed := SortByCount(OffDiagonal(name, columns, row));
      && ByCountDescending(listed)
      && (forall p :: p in listed <==>
            exists j :: 0 <= j < |row| && columns[j] == p.0 && row[j] == p.1 && p.0 != name && p.1 > 0)
      && CountSum(listed) + row[IndexOf(columns, name)] == Sum(row)
  {
    var off := OffDiagonal(name, columns, row);
    SortByCountSpec(off);
    OffDiagonalMembers(name, columns, row);
    OffDiagonalSum(name, columns, row);
    LabelCellsOfUnique(name, columns, row);
    CountSumOfSorted(off);
    forall p ensures p in SortByCount(off) <==> p in off {
      assert p in SortByCount(off) <==> p in multiset(off);
    }
  }

  /** For an entry of the error table, its misclassified list adds up to its `wrong`. */
  lemma MisclassifiedAsSpec(m: Matrix, e: Entry)
    requires WellFormed(m) && ErrorRatesOf(m, |m.index|).Ok? && e in ErrorRatesOf(m, |m.index|).value
    ensures e.name in m.index
    ensures var i := IndexOf(m.index, e.name);
      var listed := MisclassifiedAs(m, e.name);
      && ByCountDescending(listed)
      && (forall p :: p in listed <==>
            exists j :: 0 <= j < |m.columns| && m.columns[j] == p.0 && m.counts[i][j] == p.1
                        && p.0 != e.name && p.1 > 0)
      && CountSum(listed) == e.wrong
  {
    ErrorRatesEntries(m, |m.index|);
    var k :| 0 <= k < |m.index| && EntryOfRow(m, k, e);
    var i := IndexOf(m.index, e.name);
    assert i == k by {
      assert forall q :: 0 <= q < |m.index| && q != k ==> m.index[q] != m.index[k];
    }
    MisclassifiedRow(e.name, m.columns, m.counts[i]);
  }

  // ================================================================ never predicted

  /** `set(cm_df.index) - set(cm_df.columns)`, as written. */
  function NeverPredictedAsWritten(m: Matrix): set<string> {
    set l | l in m.index && l !in m.columns
  }

  /** When the script gets this far (no `KeyError` in the loop), every label of the set has
      no samples, so the listing under it never prints a label; and when every true label is
      also a column, as in the matrix `evaluate.py` writes with the same categories on both
      axes, the set is empty. */
  lemma NeverPredictedAsWrittenSpec(m: Matrix)
    requires WellFormed(m) && ErrorRatesOf(m, |m.index|).Ok?
    ensures forall l :: l in NeverPredictedAsWritten(m) ==> Sum(m.counts[IndexOf(m.index, l)]) == 0
    ensures (forall l :: l in m.index ==> l in m.columns) ==> NeverPredictedAsWritten(m) == {}
  {
    ErrorRatesFail(m, |m.index|);
    forall l | l in NeverPredictedAsWritten(m) ensures Sum(m.counts[IndexOf(m.index, l)]) == 0 {
      var i := IndexOf(m.index, l);
      assert m.index[i] == l && l !in m.columns;
    }
  }

  /** The counts of column `j`, added up over the rows. */
  function ColumnSum(counts: seq<seq<nat>>, j: nat): nat
    requires forall i :: 0 <= i < |counts| ==> j < |counts[i]|
  {
    if counts == [] then 0
    else ColumnSum(counts[..|counts| - 1], j) + counts[|counts| - 1][j]
  }

  lemma {:induction false} ColumnSumZero(counts: seq<seq<nat>>, j: nat)
    requires forall i :: 0 <= i < |counts| ==> j < |counts[i]|
    ensures ColumnSum(counts, j) == 0 <==> forall i :: 0 <= i < |counts| ==> counts[i][j] == 0
  {
    if counts != [] {
      var n := |counts| - 1;
      ColumnSumZero(counts[..n], j);
      assert forall i :: 0 <= i < n ==> counts[..n][i] == counts[i];
    }
  }

  /** Some row was predicted as label `l`. */
  predicate Predicted(m: Matrix, l: string)
    requires WellFormed(m)
  {
    l in m.columns && ColumnSum(m.counts, IndexOf(m.columns, l)) > 0
  }

  /** The labels with samples that no row was ever predicted as. */
  function NeverPredicted(m: Matrix): set<string>
    requires WellFormed(m)
  {
    set i | 0 <= i < |m.index| && Sum(m.counts[i]) > 0 && !Predicted(m, m.index[i]) :: m.index[i]
  }

  /** A label is never predicted exactly when it has samples and every count in its column
      (if it has one) is 0. */
  lemma NeverPredictedSpec(m: Matrix, l: string)
    requires WellFormed(m)
    ensures l in NeverPredicted(m) <==>
              && l in m.index && Sum(m.counts[IndexOf(m.index, l)]) > 0
              && (l in m.columns ==> forall i :: 0 <= i < |m.counts| ==> m.counts[i][IndexOf(m.columns, l)] == 0)
  {
    if l in m.columns {
      ColumnSumZero(m.counts, IndexOf(m.columns, l));
    }
    if l in NeverPredicted(m) {
      var i :| 0 <= i < |m.index| && Sum(m.counts[i]) > 0 && !Predicted(m, m.index[i]) && m.index[i] == l;
      var k := IndexOf(m.index, l);
      if k != i {
        assert m.index[k] == m.index[i];
      }
    }
  }

  /** Two labels, both predicted as "A": "B" has a sample but is never predicted, yet the set
      as written is empty and the script reports that every name was predicted. */
  lemma NeverPredictedMissesUnpredictedLabel()
    ensures var m := Matrix(["A", "B"], ["A", "B"], [[1, 0], [1, 0]]);
      && WellFormed(m)
      && NeverPredictedAsWritten(m) == {}
      && "B" in NeverPredicted(m)
      && ReportOf(m).Ok? && ReportOf(m).value.neverPredicted == {}
  {
    var m := Matrix(["A", "B"], ["A", "B"], [[1, 0], [1, 0]]);
    assert IndexOf(m.columns, "B") == 1;
    assert ColumnSum(m.counts, 1) == 0 by {
      assert m.counts[..1][..0] == [];
    }
    assert Sum(m.counts[1]) == 1 by {
      assert m.counts[1][..1][..0] == [];
    }
    assert m.index[1] == "B";
    ReportFails(m);
  }

  // ================================================================ the script

  /** What the script reports: the sorted table, the three worst labels with what they were
      mistaken for, and the labels never predicted. */
  datatype Detail = Detail(entry: Entry, misclassified: seq<(string, nat)>)
  datatype Report = Report(table: seq<Entry>, worst: seq<Detail>, neverPredicted: set<string>)

  /** Every entry names a label of the index. */
  predicate Named(m: Matrix, entries: seq<Entry>) {
    forall q :: 0 <= q < |entries| ==> entries[q].name in m.index
  }

  /** The three worst entries name labels of the index. */
  lemma TopNamed(m: Matrix)
    requires WellFormed(m) && ErrorRatesOf(m, |m.index|).Ok?
    ensures Named(m, TopThree(SortByRate(ErrorRatesOf(m, |m.index|).value)))
  {
    var entries := ErrorRatesOf(m, |m.index|).value;
    ErrorRatesSampled(m);
    TopThreeAreWorst(entries);
    var top := TopThree(SortByRate(entries));
    assert forall q :: 0 <= q < |top| ==> top[q] in top;
  }

  /** The detail printed for each of the worst labels, in order. */
  function DetailsOf(m: Matrix, top: seq<Entry>): (details: seq<Detail>)
    requires WellFormed(m) && Named(m, top)
    ensures |details| == |top|
  {
    if top == [] then []
    else
      var last := top[|top| - 1];
      DetailsOf(m, top[..|top| - 1]) + [Detail(last, MisclassifiedAs(m, last.name))]
  }

  /** The column `sort_values` is asked to sort by. */
  const RateColumn := "Error_Rate_%"

  /** The report of the whole script, or the `KeyError` that ends it: one from the loop, or
      the one `sort_values(RateColumn)` raises when no row had samples, because a frame built
      from an empty list has no columns. The never-predicted labels are the set as written. */
  function ReportOf(m: Matrix): Result<Report, string>
    requires WellFormed(m)
  {
    match ErrorRatesOf(m, |m.index|)
    case Err(name) => Err(name)
    case Ok(entries) =>
      if entries == [] then Err(RateColumn)
      else
        TopNamed(m);
        var sorted := SortByRate(entries);
        Ok(Report(sorted, DetailsOf(m, TopThree(sorted)), NeverPredictedAsWritten(m)))
  }

  /** The script stops with a `KeyError` exactly when some row with samples has no column of
      its own, or when no row has samples at all. */
  lemma ReportFails(m: Matrix)
    requires WellFormed(m)
    ensures ReportOf(m).Err? <==>
              || (exists i :: 0 <= i < |m.index| && Sum(m.counts[i]) > 0 && m.index[i] !in m.columns)
              || (forall i :: 0 <= i < |m.index| ==> Sum(m.counts[i]) == 0)
  {
    ErrorRatesFail(m, |m.index|);
    var rates := ErrorRatesOf(m, |m.index|);
    if rates.Ok? {
      ErrorRatesCover(m, |m.index|);
      ErrorRatesEntries(m, |m.index|);
      if rates.value != [] {
        assert rates.value[0] in rates.value;
      }
    }
  }

  /** The script from the loop on: a `KeyError` from the loop or from the sort ends it;
      otherwise the table is sorted, the first three labels are detailed in a loop, and the
      labels never predicted are listed. */
  method Analyze(m: Matrix) returns (r: Result<Report, string>)
    requires WellFormed(m)
    ensures r == ReportOf(m)
  {
    var rates := ErrorRates(m);
    if rates.Err? {
      return Err(rates.error);
    }
    if rates.value == [] {
      return Err(RateColumn);
    }
    TopNamed(m);
    var sorted := SortByRate(rates.value);
    var top := TopThree(sorted);
    var worst: seq<Detail> := [];
    var k := 0;
    while k < |top|
      invariant 0 <= k <= |top|
      invariant worst == DetailsOf(m, top[..k])
    {
      var e := top[k];
      assert top[..k + 1][..k] == top[..k];
      worst := worst + [Detail(e, MisclassifiedAs(m, e.name))];
      k := k + 1;
    }
    assert top[..k] == top;
    r := Ok(Report(sorted, worst, NeverPredictedAsWritten(m)));
  }

  /** The report as evidently intended: the same, with the labels never predicted computed
      from the columns' counts (`NeverPredicted`) rather than from the columns' names. */
  function IntendedReportOf(m: Matrix): Result<Report, string>
    requires WellFormed(m)
  {
    match ReportOf(m)
    case Err(e) => Err(e)
    case Ok(report) => Ok(report.(neverPredicted := NeverPredicted(m)))
  }

  /** The intended report fails exactly as the script does, keeps its table and details, and
      lists a label exactly when it has samples and its column, if any, holds only zeros. */
  lemma IntendedReportSpec(m: Matrix, l: string)
    requires WellFormed(m)
    ensures IntendedReportOf(m).Err? <==> ReportOf(m).Err?
    ensures IntendedReportOf(m).Ok? ==>
      && IntendedReportOf(m).value.table == ReportOf(m).value.table
      && IntendedReportOf(m).value.worst == ReportOf(m).value.worst
      && (l in IntendedReportOf(m).value.neverPredicted <==>
            && l in m.index && Sum(m.counts[IndexOf(m.index, l)]) > 0
            && (l in m.columns ==> forall i :: 0 <= i < |m.counts| ==> m.counts[i][IndexOf(m.columns, l)] == 0))
  {
    NeverPredictedSpec(m, l);
  }
}
