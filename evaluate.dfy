/**
 * `evaluate.py`: reading the ground-truth and prediction tables into insertion-ordered
 * dictionaries, pairing them up by entry id, and the sorted category universe of the
 * confusion matrix. Building the matrix itself, the accuracy and the report are
 * scikit-learn's and are not part of this model.
 */
module Evaluate {
  import opened Wrappers
  import opened Frame
  import opened Text

  // ================================================================ Python's dict

  /** A Python `dict`: a map plus the order in which its keys were first inserted. */
  datatype OrderedMap<K(==, !new), V> = OrderedMap(keys: seq<K>, values: map<K, V>) {

    /** No key listed twice, and the listed keys are exactly the map's keys. */
    predicate Valid() {
      && (forall i, j :: 0 <= i < j < |keys| ==> keys[i] != keys[j])
      && (forall k :: k in values ==> k in keys)
      && (forall i :: 0 <= i < |keys| ==> keys[i] in values)
    }

    /** `d[k] = v`: a new key goes last, an existing key keeps its place. */
    function Put(k: K, v: V): OrderedMap<K, V> {
      OrderedMap(if k in values then keys else keys + [k], values[k := v])
    }

    /** Storing a key keeps the dictionary well formed. */
    lemma PutValid(k: K, v: V)
      requires Valid()
      ensures Put(k, v).Valid()
    {
    }

    /** `list(d.values())`. */
    function Values(): (vs: seq<V>)
      requires Valid()
      ensures |vs| == |keys|
    {
      seq(|keys|, i requires 0 <= i < |keys| => values[keys[i]])
    }

    /** `d.values()` holds the value of every key and nothing else. */
    lemma ValuesSpec()
      requires Valid()
      ensures forall k :: k in values ==> values[k] in Values()
      ensures forall v :: v in Values() ==> exists k :: k in values && values[k] == v
    {
      var vs := Values();
      forall k | k in values ensures values[k] in vs {
        var i :| 0 <= i < |keys| && keys[i] == k;
        assert vs[i] == values[k];
      }
    }
  }

  function EmptyMap<K(==, !new), V>(): OrderedMap<K, V> {
    OrderedMap([], map[])
  }

  // ================================================================ ground truth

  /** Python's `int(s)` on a string, as far as ASCII goes: surrounding whitespace, an
      optional sign and ASCII digits give a number; every other string is `None`, standing
      for `ValueError`. Python also reads underscores between digits and non-ASCII decimal
      digits, which this model does not. */
  function ParseInt(s: string): Option<int> {
    var t := Strip(s);
    if t != [] && (t[0] == '-' || t[0] == '+') then
      var digits := t[1..];
      if IsDigits(digits) then
        var n: int := DigitsValue(digits);
        Some(if t[0] == '-' then -n else n)
      else None
    else if IsDigits(t) then Some(DigitsValue(t))
    else None
  }

  /** A string that neither starts nor ends with whitespace is left alone by `strip()`. */
  lemma StripUnpadded(s: string)
    requires s == [] || (!IsSpace(s[0]) && !IsSpace(s[|s| - 1]))
    ensures Strip(s) == s
  {
  }

  /** `int(str(i)) == i`. */
  lemma ParseIntRoundTrip(i: int)
    ensures ParseInt(IntText(i)) == Some(i)
  {
    var digits := Decimal(if i < 0 then -i else i);
    DecimalRoundTrip(if i < 0 then -i else i);
    var s := IntText(i);
    if i < 0 {
      assert s == "-" + digits && s[1..] == digits;
      assert !IsSpace(s[|s| - 1]) by {
        assert s[|s| - 1] == digits[|digits| - 1];
        assert IsDigit(digits[|digits| - 1]);
      }
    } else {
      assert IsDigit(s[0]) && IsDigit(s[|s| - 1]);
    }
    StripUnpadded(s);
  }

  /** `int(cell)`: an integer cell as it is, a text cell parsed. */
  function IntOf(c: Cell): Option<int> {
    match c
    case Num(i) => Some(i)
    case Str(s) => ParseInt(s)
    case Missing => None
  }

  predicate IsQuote(c: char) {
    c == '"'
  }

  /** The id and category one row of the ground-truth file contributes, if any: both of its
      first two cells present, the first not the header text `entryId` and readable as an
      integer, the second text, which loses its surrounding whitespace and then its
      surrounding double quotes. */
  function GroundTruthEntry(row: Row): Option<(int, string)> {
    var id := CellAt(row, 0);
    var category := CellAt(row, 1);
    if id.Missing? || category.Missing? || (id.Str? && id.text == "entryId") then None
    else
      match IntOf(id)
      case None => None
      case Some(k) => if category.Str? then Some((k, Trim(Strip(category.text), IsQuote))) else None
  }

  /** The dictionary a loop builds by reading the rows in order and storing the entry
      `entry` finds in each row, if any. */
  function Stored(rows: seq<Row>, entry: Row -> Option<(int, string)>): OrderedMap<int, string> {
    if rows == [] then EmptyMap()
    else
      var m := Stored(rows[..|rows| - 1], entry);
      match entry(rows[|rows| - 1])
      case None => m
      case Some((k, v)) => m.Put(k, v)
  }

  lemma {:induction false} StoredValid(rows: seq<Row>, entry: Row -> Option<(int, string)>)
    ensures Stored(rows, entry).Valid()
  {
    if rows != [] {
      var n := |rows| - 1;
      StoredValid(rows[..n], entry);
      var e := entry(rows[n]);
      if e.Some? {
        Stored(rows[..n], entry).PutValid(e.value.0, e.value.1);
      }
    }
  }

  /** An id is stored exactly when some row gives an entry for it. */
  lemma {:induction false} StoredHas(rows: seq<Row>, entry: Row -> Option<(int, string)>, k: int)
    ensures k in Stored(rows, entry).values <==>
              exists i :: 0 <= i < |rows| && entry(rows[i]).Some? && entry(rows[i]).value.0 == k
  {
    if rows != [] {
      var n := |rows| - 1;
      var init := rows[..n];
      StoredHas(init, entry, k);
      if exists i :: 0 <= i < n && entry(init[i]).Some? && entry(init[i]).value.0 == k {
        var i :| 0 <= i < n && entry(init[i]).Some? && entry(init[i]).value.0 == k;
        assert rows[i] == init[i];
      }
      if exists i :: 0 <= i < |rows| && entry(rows[i]).Some? && entry(rows[i]).value.0 == k {
        var i :| 0 <= i < |rows| && entry(rows[i]).Some? && entry(rows[i]).value.0 == k;
        if i < n {
          assert init[i] == rows[i];
        }
      }
    }
  }

  /** A later entry for an id overwrites an earlier one: the stored value is that of the last
      row giving an entry for the id. */
  lemma {:induction false} StoredLast(rows: seq<Row>, entry: Row -> Option<(int, string)>, k: int, i: nat)
    requires i < |rows| && entry(rows[i]).Some? && entry(rows[i]).value.0 == k
    requires forall j :: i < j < |rows| ==> entry(rows[j]).None? || entry(rows[j]).value.0 != k
    ensures k in Stored(rows, entry).values
    ensures Stored(rows, entry).values[k] == entry(rows[i]).value.1
  {
    var n := |rows| - 1;
    if i < n {
      var init := rows[..n];
      assert init[i] == rows[i];
      forall j | i < j < n ensures entry(init[j]).None? || entry(init[j]).value.0 != k {
        assert init[j] == rows[j];
      }
      StoredLast(init, entry, k, i);
    }
  }

  /** The ground-truth dictionary after the rows have been read in order. */
  function GroundTruthOf(rows: seq<Row>): OrderedMap<int, string> {
    Stored(rows, GroundTruthEntry)
  }

  lemma GroundTruthValid(rows: seq<Row>)
    ensures GroundTruthOf(rows).Valid()
  {
    StoredValid(rows, GroundTruthEntry);
  }

  /** On a frame read with `header=None` the columns are positions 0, 1, ...; only their
      number matters here. Row `i` looks up position 0, and position 1 when its first cell is
      present; a position the frame lacks raises `KeyError`, outside the `try`. */
  predicate LookupFails(t: Table, i: nat)
    requires i < |t.rows|
  {
    |t.columns| == 0 || (|t.columns| == 1 && !CellAt(t.rows[i], 0).Missing?)
  }

  /** `load_ground_truth`, on the table `pd.read_csv(..., header=None)` gives: the dictionary
      of the rows, or the `KeyError` of a frame with too few columns. */
  method LoadGroundTruth(t: Table) returns (truth: Result<OrderedMap<int, string>, string>)
    ensures truth.Err? <==> exists i :: 0 <= i < |t.rows| && LookupFails(t, i)
    ensures truth.Err? ==> truth.error == "KeyError"
    ensures truth.Ok? ==> truth.value == GroundTruthOf(t.rows)
  {
    var loaded: OrderedMap<int, string> := EmptyMap();
    var i := 0;
    while i < |t.rows|
      invariant 0 <= i <= |t.rows|
      invariant loaded == GroundTruthOf(t.rows[..i])
      invariant forall j :: 0 <= j < i ==> !LookupFails(t, j)
    {
      if LookupFails(t, i) {
        return Err("KeyError");
      }
      assert t.rows[..i + 1][..i] == t.rows[..i];
      var entry := GroundTruthEntry(t.rows[i]);
      if entry.Some? {
        loaded := loaded.Put(entry.value.0, entry.value.1);
      }
      i := i + 1;
    }
    assert t.rows[..i] == t.rows;
    truth := Ok(loaded);
  }

  /** The row contributes an entry for id `k`. */
  predicate Contributes(row: Row, k: int) {
    GroundTruthEntry(row).Some? && GroundTruthEntry(row).value.0 == k
  }

  /** An id is in the ground truth exactly when some row contributes it. */
  lemma GroundTruthHas(rows: seq<Row>, k: int)
    ensures k in GroundTruthOf(rows).values <==> exists i :: 0 <= i < |rows| && Contributes(rows[i], k)
  {
    StoredHas(rows, GroundTruthEntry, k);
  }

  /** A later row with the same id overwrites an earlier one: the stored category is that of
      the last row contributing the id. */
  lemma GroundTruthLast(rows: seq<Row>, k: int, i: nat)
    requires i < |rows| && Contributes(rows[i], k)
    requires forall j :: i < j < |rows| ==> !Contributes(rows[j], k)
    ensures k in GroundTruthOf(rows).values
    ensures GroundTruthOf(rows).values[k] == GroundTruthEntry(rows[i]).value.1
  {
    StoredLast(rows, GroundTruthEntry, k, i);
  }

  /** Every stored category has lost its surrounding whitespace first and then its
      surrounding quotes, so it neither starts nor ends with a double quote. */
  lemma GroundTruthCategoriesTrimmed(rows: seq<Row>, k: int)
    requires k in GroundTruthOf(rows).values
    ensures var category := GroundTruthOf(rows).values[k];
      category == [] || (category[0] != '"' && category[|category| - 1] != '"')
  {
    GroundTruthHas(rows, k);
    var i := LastEntryOf(rows, k);
    GroundTruthLast(rows, k, i);
    var _, _ := TrimShape(Strip(CellAt(rows[i], 1).text), IsQuote);
  }

  /** The last row contributing id `k`. */
  lemma LastEntryOf(rows: seq<Row>, k: int) returns (i: nat)
    requires exists i :: 0 <= i < |rows| && Contributes(rows[i], k)
    ensures i < |rows| && Contributes(rows[i], k)
    ensures forall j :: i < j < |rows| ==> !Contributes(rows[j], k)
  {
    i := |rows| - 1;
    while !Contributes(rows[i], k)
      invariant 0 <= i < |rows|
      invariant exists j :: 0 <= j <= i && Contributes(rows[j], k)
      invariant forall j :: i < j < |rows| ==> !Contributes(rows[j], k)
      decreases i
    {
      i := i - 1;
    }
  }

  // ================================================================ predictions

  /** A key of the prediction dictionary. A present `entryId` cell is compared by value; a
      missing one is a NaN, which equals nothing, not even another NaN, so each row with a
      missing id stores under a key of its own (here the row's position). */
  datatype Key = Id(cell: Cell) | Nan(row: nat)

  /** The key row `i` stores under, given its `entryId` cell. */
  function KeyOf(id: Cell, i: nat): Key {
    if id.Missing? then Nan(i) else Id(id)
  }

  /** The dictionary `load_predictions` fills: `entryId` cell to `Category` cell, row by row,
      and nothing unless the frame has both columns. */
  function PredictionsOf(t: Table, n: nat): OrderedMap<Key, Cell>
    requires n <= |t.rows|
  {
    if n == 0 || "entryId" !in t.columns || "Category" !in t.columns then EmptyMap()
    else
      var row := t.rows[n - 1];
      PredictionsOf(t, n - 1).Put(KeyOf(CellAt(row, IndexOf(t.columns, "entryId")), n - 1),
                                  CellAt(row, IndexOf(t.columns, "Category")))
  }

  lemma {:induction false} PredictionsValid(t: Table, n: nat)
    requires n <= |t.rows|
    ensures PredictionsOf(t, n).Valid()
  {
    if n > 0 && "entryId" in t.columns && "Category" in t.columns {
      PredictionsValid(t, n - 1);
      var row := t.rows[n - 1];
      var m := PredictionsOf(t, n - 1);
      var id := KeyOf(CellAt(row, IndexOf(t.columns, "entryId")), n - 1);
      var category := CellAt(row, IndexOf(t.columns, "Category"));
      assert PredictionsOf(t, n) == m.Put(id, category);
      m.PutValid(id, category);
    }
  }

  /** `load_predictions`, on the table `pd.read_excel` gives; the frame itself is returned
      unchanged beside the dictionary. */
  method LoadPredictions(t: Table) returns (predictions: OrderedMap<Key, Cell>, df: Table)
    ensures predictions == PredictionsOf(t, |t.rows|) && df == t
  {
    predictions := EmptyMap();
    df := t;
    if "entryId" in t.columns && "Category" in t.columns {
      var idColumn := IndexOf(t.columns, "entryId");
      var labelColumn := IndexOf(t.columns, "Category");
      var i := 0;
      while i < |t.rows|
        invariant 0 <= i <= |t.rows|
        invariant predictions == PredictionsOf(t, i)
      {
        var row := t.rows[i];
        predictions := predictions.Put(KeyOf(CellAt(row, idColumn), i), CellAt(row, labelColumn));
        i := i + 1;
      }
    }
  }

  /** Row `i` stores under key `id`. */
  predicate Carries(t: Table, i: nat, id: Key)
    requires i < |t.rows|
  {
    KeyOf(CellAt(t.rows[i], IndexOf(t.columns, "entryId")), i) == id
  }

  /** Without both columns nothing is loaded; with them, an id cell is a key exactly when
      one of the rows read carries it. */
  lemma {:induction false} PredictionsHas(t: Table, n: nat, id: Key)
    requires n <= |t.rows|
    ensures ("entryId" !in t.columns || "Category" !in t.columns) ==> PredictionsOf(t, n).keys == []
    ensures ("entryId" in t.columns && "Category" in t.columns) ==>
              (id in PredictionsOf(t, n).values <==> exists i :: 0 <= i < n && Carries(t, i, id))
  {
    if n > 0 && "entryId" in t.columns && "Category" in t.columns {
      PredictionsHas(t, n - 1, id);
      if Carries(t, n - 1, id) {
        assert id in PredictionsOf(t, n).values;
      } else if exists i :: 0 <= i < n && Carries(t, i, id) {
        var i :| 0 <= i < n && Carries(t, i, id);
        assert i < n - 1;
      }
    }
  }

  /** A later row with the same id overwrites an earlier one: the stored value is the
      `Category` cell of the last row carrying the id. */
  lemma {:induction false} PredictionsLast(t: Table, n: nat, id: Key, i: nat)
    requires "entryId" in t.columns && "Category" in t.columns
    requires i < n <= |t.rows| && Carries(t, i, id)
    requires forall j :: i < j < n ==> !Carries(t, j, id)
    ensures id in PredictionsOf(t, n).values
    ensures PredictionsOf(t, n).values[id] == CellAt(t.rows[i], IndexOf(t.columns, "Category"))
  {
    if i < n - 1 {
      PredictionsLast(t, n - 1, id, i);
      assert !Carries(t, n - 1, id);
    }
  }

  /** Rows with a missing `entryId` are not merged: each keeps its own `Category` cell. */
  lemma PredictionsKeepMissingIds(t: Table, n: nat, i: nat)
    requires "entryId" in t.columns && "Category" in t.columns
    requires i < n <= |t.rows| && CellAt(t.rows[i], IndexOf(t.columns, "entryId")).Missing?
    ensures Nan(i) in PredictionsOf(t, n).values
    ensures PredictionsOf(t, n).values[Nan(i)] == CellAt(t.rows[i], IndexOf(t.columns, "Category"))
  {
    PredictionsLast(t, n, Nan(i), i);
  }

  // ================================================================ matching

  /** The ground-truth ids, in ground-truth order, that also have a prediction. */
  function MatchedIds(ids: seq<int>, predictions: OrderedMap<Key, Cell>): (m: seq<int>)
    ensures forall k :: 0 <= k < |m| ==> m[k] in ids && Id(Num(m[k])) in predictions.values
  {
    if ids == [] then []
    else
      var n := |ids| - 1;
      MatchedIds(ids[..n], predictions) + (if Id(Num(ids[n])) in predictions.values then [ids[n]] else [])
  }

  /** `str(cell)` for the few cells a category can be; only text cells reach a matched pair
      (see `MatchedPredictionsAreText`). */
  function Label(c: Cell): string {
    match c
    case Str(s) => s
    case Num(i) => IntText(i)
    case Missing => "nan"
  }

  /** `sorted` compares a text with a number (or NaN) and raises `TypeError` when the
      labels of both dictionaries mix text with anything else. */
  predicate MixedLabels(truth: OrderedMap<int, string>, predictions: OrderedMap<Key, Cell>)
    requires predictions.Valid()
  {
    var cells := predictions.Values();
    && (truth.keys != [] || exists i :: 0 <= i < |cells| && cells[i].Str?)
    && exists i :: 0 <= i < |cells| && !cells[i].Str?
  }

  /** `all_categories`: every category of either dictionary, each once, in Python's string order. */
  function LabelUniverse(truth: OrderedMap<int, string>, predictions: OrderedMap<Key, Cell>): seq<string>
    requires truth.Valid() && predictions.Valid()
  {
    SortedUnique(truth.Values() + PredictedLabels(predictions))
  }

  /** `str(v)` for every value of the prediction dictionary, in its order. */
  function PredictedLabels(predictions: OrderedMap<Key, Cell>): (labels: seq<string>)
    requires predictions.Valid()
    ensures |labels| == |predictions.keys|
  {
    var keys := predictions.keys;
    seq(|keys|, i requires 0 <= i < |keys| => Label(predictions.values[keys[i]]))
  }

  /** The prediction labels are exactly the labels of the dictionary's values. */
  lemma PredictedLabelsSpec(predictions: OrderedMap<Key, Cell>)
    requires predictions.Valid()
    ensures forall c :: c in predictions.values ==> Label(predictions.values[c]) in PredictedLabels(predictions)
    ensures forall x :: x in PredictedLabels(predictions) ==>
              exists c :: c in predictions.values && Label(predictions.values[c]) == x
  {
    var labels := PredictedLabels(predictions);
    forall c | c in predictions.values ensures Label(predictions.values[c]) in labels {
      var i :| 0 <= i < |predictions.keys| && predictions.keys[i] == c;
      assert labels[i] == Label(predictions.values[c]);
    }
  }

  /** What `create_confusion_matrix` works out before scikit-learn takes over. */
  datatype Evaluation =
    | NoMatch
    | Matched(truth: seq<string>, predicted: seq<string>, categories: seq<string>)

  /** The loop of `create_confusion_matrix` over the ground-truth ids: for every id with a
      prediction, in ground-truth order, its true category and its predicted label. */
  method PairByIds(truth: OrderedMap<int, string>, predictions: OrderedMap<Key, Cell>)
    returns (matchedTruth: seq<string>, matchedPred: seq<string>)
    requires truth.Valid() && predictions.Valid()
    ensures var ids := MatchedIds(truth.keys, predictions);
      && |matchedTruth| == |ids| && |matchedPred| == |ids|
      && forall k :: 0 <= k < |ids| ==>
           && matchedTruth[k] == truth.values[ids[k]]
           && matchedPred[k] == Label(predictions.values[Id(Num(ids[k]))])
  {
    matchedTruth := [];
    matchedPred := [];
    ghost var ids: seq<int> := [];
    var i := 0;
    while i < |truth.keys|
      invariant 0 <= i <= |truth.keys|
      invariant ids == MatchedIds(truth.keys[..i], predictions)
      invariant MatchedIdsKnown(ids, truth, predictions)
      invariant |matchedTruth| == |ids| && |matchedPred| == |ids|
      invariant forall k :: 0 <= k < |ids| ==>
                  && matchedTruth[k] == truth.values[ids[k]]
                  && matchedPred[k] == Label(predictions.values[Id(Num(ids[k]))])
    {
      var id := truth.keys[i];
      assert truth.keys[..i + 1][..i] == truth.keys[..i];
      if Id(Num(id)) in predictions.values {
        matchedTruth := matchedTruth + [truth.values[id]];
        matchedPred := matchedPred + [Label(predictions.values[Id(Num(id))])];
        ids := ids + [id];
      }
      i := i + 1;
    }
    assert truth.keys[..i] == truth.keys;
  }

  /** `create_confusion_matrix` up to the call of `confusion_matrix`: the category universe,
      then the ground-truth labels and the predictions paired by id, and `(None, None, 0)`
      when no id has both. */
  method CreateConfusionMatrix(truth: OrderedMap<int, string>, predictions: OrderedMap<Key, Cell>)
    returns (result: Result<Evaluation, string>)
    requires truth.Valid() && predictions.Valid()
    ensures MixedLabels(truth, predictions) ==> result == Err("TypeError")
    ensures !MixedLabels(truth, predictions) ==>
      var ids := MatchedIds(truth.keys, predictions);
      && (ids == [] ==> result == Ok(NoMatch))
      && (ids != [] ==> result == Ok(Matched(
            seq(|ids|, k requires 0 <= k < |ids| => truth.values[ids[k]]),
            seq(|ids|, k requires 0 <= k < |ids| => Label(predictions.values[Id(Num(ids[k]))])),
            LabelUniverse(truth, predictions))))
  {
    if MixedLabels(truth, predictions) {
      return Err("TypeError");
    }
    var categories := LabelUniverse(truth, predictions);
    var matchedTruth, matchedPred := PairByIds(truth, predictions);
    if matchedTruth == [] {
      return Ok(NoMatch);
    }
    ghost var ids := MatchedIds(truth.keys, predictions);
    assert matchedTruth == seq(|ids|, k requires 0 <= k < |ids| => truth.values[ids[k]]);
    assert matchedPred == seq(|ids|, k requires 0 <= k < |ids| => Label(predictions.values[Id(Num(ids[k]))]));
    result := Ok(Matched(matchedTruth, matchedPred, categories));
  }

  /** Every matched id is a ground-truth id with a prediction. */
  predicate MatchedIdsKnown(ids: seq<int>, truth: OrderedMap<int, string>, predictions: OrderedMap<Key, Cell>) {
    forall k :: 0 <= k < |ids| ==> ids[k] in truth.values && Id(Num(ids[k])) in predictions.values
  }

  /** The matched ids are the ground-truth ids with a prediction, each once, in ground-truth
      order; so there are no more of them than either dictionary has keys. */
  lemma MatchedIdsSpec(truth: OrderedMap<int, string>, predictions: OrderedMap<Key, Cell>)
    requires truth.Valid() && predictions.Valid()
    ensures var ids := MatchedIds(truth.keys, predictions);
      && (forall id :: id in ids <==> id in truth.values && Id(Num(id)) in predictions.values)
      && (forall a, b :: 0 <= a < b < |ids| ==> ids[a] != ids[b])
      && |ids| <= |truth.keys|
      && |ids| <= |predictions.keys|
  {
    var ids := MatchedIds(truth.keys, predictions);
    MatchedIdsMembers(truth.keys, predictions);
    MatchedIdsDistinct(truth.keys, predictions);
    InjectedLength(ids, predictions.keys);
  }

  lemma {:induction false} MatchedIdsMembers(ids: seq<int>, predictions: OrderedMap<Key, Cell>)
    ensures forall id :: id in MatchedIds(ids, predictions) <==> id in ids && Id(Num(id)) in predictions.values
    ensures |MatchedIds(ids, predictions)| <= |ids|
  {
    if ids != [] {
      var n := |ids| - 1;
      MatchedIdsMembers(ids[..n], predictions);
      assert ids == ids[..n] + [ids[n]];
    }
  }

  lemma {:induction false} MatchedIdsDistinct(ids: seq<int>, predictions: OrderedMap<Key, Cell>)
    requires forall i, j :: 0 <= i < j < |ids| ==> ids[i] != ids[j]
    ensures var m := MatchedIds(ids, predictions);
      forall a, b :: 0 <= a < b < |m| ==> m[a] != m[b]
  {
    if ids != [] {
      var n := |ids| - 1;
      MatchedIdsDistinct(ids[..n], predictions);
      MatchedIdsMembers(ids[..n], predictions);
      assert ids[n] !in ids[..n];
    }
  }

  /** Distinct ids whose cells all occur in `cells` are no more numerous than `cells`. */
  lemma {:induction false} InjectedLength(ids: seq<int>, cells: seq<Key>)
    requires forall a, b :: 0 <= a < b < |ids| ==> ids[a] != ids[b]
    requires forall id :: id in ids ==> Id(Num(id)) in cells
    ensures |ids| <= |cells|
  {
    if ids != [] {
      var n := |ids| - 1;
      var j :| 0 <= j < |cells| && cells[j] == Id(Num(ids[n]));
      var rest := cells[..j] + cells[j + 1..];
      forall id | id in ids[..n] ensures Id(Num(id)) in rest {
        assert id != ids[n];
        var k :| 0 <= k < |cells| && cells[k] == Id(Num(id));
        if k < j {
          assert rest[k] == cells[k];
        } else {
          assert rest[k - 1] == cells[k];
        }
      }
      InjectedLength(ids[..n], rest);
    }
  }

  /** When the labels do not mix and some id matched, every prediction is text, so the
      paired predictions are the very strings of the file. */
  lemma MatchedPredictionsAreText(truth: OrderedMap<int, string>, predictions: OrderedMap<Key, Cell>, id: int)
    requires truth.Valid() && predictions.Valid() && !MixedLabels(truth, predictions)
    requires id in truth.values && Id(Num(id)) in predictions.values
    ensures predictions.values[Id(Num(id))].Str?
  {
    var cells := predictions.Values();
    var k :| 0 <= k < |predictions.keys| && predictions.keys[k] == Id(Num(id));
    assert cells[k] == predictions.values[Id(Num(id))];
  }

  /** The category universe is sorted, holds no category twice, and holds exactly the labels of the
      two dictionaries; so it holds every category of every matched pair. */
  lemma LabelUniverseSpec(truth: OrderedMap<int, string>, predictions: OrderedMap<Key, Cell>)
    requires truth.Valid() && predictions.Valid()
    ensures var cats := LabelUniverse(truth, predictions);
      && StrictlySorted(cats)
      && (forall k :: k in truth.values ==> truth.values[k] in cats)
      && (forall c :: c in predictions.values ==> Label(predictions.values[c]) in cats)
      && forall x :: x in cats ==>
           (exists k :: k in truth.values && truth.values[k] == x) ||
           (exists c :: c in predictions.values && Label(predictions.values[c]) == x)
  {
    var all := truth.Values() + PredictedLabels(predictions);
    var cats := LabelUniverse(truth, predictions);
    assert cats == SortedUnique(all);
    SortedUniqueSpec(all);
    truth.ValuesSpec();
    PredictedLabelsSpec(predictions);
    forall x | x in cats
      ensures (exists k :: k in truth.values && truth.values[k] == x) ||
              (exists c :: c in predictions.values && Label(predictions.values[c]) == x)
    {
      assert x in truth.Values() || x in PredictedLabels(predictions);
    }
  }


  // ================================================================ sorted(set(...))

  /** Strictly increasing in Python's string order: sorted, no string twice. */
  predicate StrictlySorted(s: seq<string>) {
    forall i, j :: 0 <= i < j < |s| ==> LexLess(s[i], s[j])
  }

  /** `x` put into its place in a strictly sorted list, unless it is there already. */
  function Insert(x: string, s: seq<string>): seq<string> {
    if s == [] then [x]
    else if x == s[0] then s
    else if LexLess(x, s[0]) then [x] + s
    else [s[0]] + Insert(x, s[1..])
  }

  lemma {:induction false} InsertSpec(x: string, s: seq<string>)
    requires StrictlySorted(s)
    ensures StrictlySorted(Insert(x, s))
    ensures forall y :: y in Insert(x, s) <==> y == x || y in s
  {
    if s != [] && x != s[0] {
      if LexLess(x, s[0]) {
        var r := [x] + s;
        forall i, j | 0 <= i < j < |r| ensures LexLess(r[i], r[j]) {
          if i == 0 && j > 1 {
            LexLessTransitive(x, s[0], s[j - 1]);
          }
        }
      } else {
        LexLessTotal(x, s[0]);
        InsertSpec(x, s[1..]);
        var tail := Insert(x, s[1..]);
        var r := [s[0]] + tail;
        forall i, j | 0 <= i < j < |r| ensures LexLess(r[i], r[j]) {
          if i == 0 {
            assert r[j] in tail;
            if r[j] != x {
              var k :| 0 <= k < |s[1..]| && s[1..][k] == r[j];
              assert s[k + 1] == r[j];
            }
          }
        }
        assert s == [s[0]] + s[1..];
      }
    }
  }

  /** `sorted(set(xs))` for strings. */
  function SortedUnique(xs: seq<string>): seq<string> {
    if xs == [] then [] else Insert(xs[|xs| - 1], SortedUnique(xs[..|xs| - 1]))
  }

  lemma {:induction false} SortedUniqueSpec(xs: seq<string>)
    ensures StrictlySorted(SortedUnique(xs))
    ensures forall y :: y in SortedUnique(xs) <==> y in xs
  {
    if xs != [] {
      var n := |xs| - 1;
      SortedUniqueSpec(xs[..n]);
      InsertSpec(xs[n], SortedUnique(xs[..n]));
      assert xs == xs[..n] + [xs[n]];
    }
  }

  /** A strictly sorted list holds no string twice. */
  lemma StrictlySortedDistinct(s: seq<string>)
    requires StrictlySorted(s)
    ensures forall i, j :: 0 <= i < j < |s| ==> s[i] != s[j]
  {
    forall i, j | 0 <= i < j < |s| ensures s[i] != s[j] {
      LexLessIrreflexive(s[i]);
    }
  }
}
