/**
 * `csv_utils.py`: loading a CSV file through a fixed chain of encodings, and finding and
 * removing duplicate rows. The CSV parser is an oracle `read`: what `pd.read_csv` gives for an
 * encoding, `None` when it raises.
 */
module CsvUtils {
  import opened Wrappers
  import opened Frame

  // ================================================================ loading

  /** The encodings `csv_to_df` tries, in order: the requested one first, even when a later
      entry repeats it. */
  function Encodings(requested: string): seq<string> {
    [requested, "utf-8", "latin-1", "cp1252", "iso-8859-1"]
  }

  datatype LoadError = FileNotFound(path: string) | Unreadable(path: string)

  /** The first of `encodings` under which `read` succeeds: its position and the table read. */
  function FirstRead(encodings: seq<string>, read: string -> Option<Table>): Option<(nat, Table)> {
    if encodings == [] then None
    else
      match read(encodings[0])
      case Some(t) => Some((0, t))
      case None =>
        match FirstRead(encodings[1..], read)
        case None => None
        case Some((k, t)) => Some((k + 1, t))
  }

  /** `FirstRead` finds the earliest encoding that reads, and finds none only when all fail. */
  lemma {:induction false} FirstReadSpec(encodings: seq<string>, read: string -> Option<Table>)
    ensures FirstRead(encodings, read).None? <==>
              forall k :: 0 <= k < |encodings| ==> read(encodings[k]).None?
    ensures FirstRead(encodings, read).Some? ==>
              var (k, t) := FirstRead(encodings, read).value;
              && k < |encodings|
              && read(encodings[k]) == Some(t)
              && forall j :: 0 <= j < k ==> read(encodings[j]).None?
  {
    if encodings != [] && read(encodings[0]).None? {
      var rest := encodings[1..];
      FirstReadSpec(rest, read);
      if FirstRead(rest, read).Some? {
        var (k, t) := FirstRead(rest, read).value;
        assert read(encodings[k + 1]) == read(rest[k]);
        forall j | 0 <= j < k + 1 ensures read(encodings[j]).None? {
          if j > 0 {
            assert encodings[j] == rest[j - 1];
          }
        }
      } else {
        forall j | 0 <= j < |encodings| ensures read(encodings[j]).None? {
          if j > 0 {
            assert encodings[j] == rest[j - 1];
          }
        }
      }
    }
  }

  /** What `csv_to_df` returns or raises. */
  function LoadOutcome(path: string, present: bool, read: string -> Option<Table>, encoding: string): Result<Table, LoadError> {
    if !present then Err(FileNotFound(path))
    else
      match FirstRead(Encodings(encoding), read)
      case Some((_, t)) => Ok(t)
      case None => Err(Unreadable(path))
  }

  /** How many times `csv_to_df` calls the parser. */
  function Attempts(present: bool, read: string -> Option<Table>, encoding: string): nat {
    if !present then 0
    else
      match FirstRead(Encodings(encoding), read)
      case Some((k, _)) => k + 1
      case None => |Encodings(encoding)|
  }

  /** `csv_to_df`: a missing file is reported before any read; otherwise the encodings are
      tried in order and the first table read is returned. `attempts` counts the reads. */
  method CsvToDf(path: string, present: bool, read: string -> Option<Table>, encoding: string)
    returns (result: Result<Table, LoadError>, attempts: nat)
    ensures result == LoadOutcome(path, present, read, encoding)
    ensures attempts == Attempts(present, read, encoding)
  {
    if !present {
      return Err(FileNotFound(path)), 0;
    }
    var encodings := Encodings(encoding);
    attempts := 0;
    var i := 0;
    while i < |encodings|
      invariant 0 <= i <= |encodings| && attempts == i
      invariant FirstRead(encodings, read) == Shift(FirstRead(encodings[i..], read), i)
    {
      attempts := attempts + 1;
      var table := read(encodings[i]);
      if table.Some? {
        return Ok(table.value), attempts;
      }
      assert encodings[i..][1..] == encodings[i + 1..];
      i := i + 1;
    }
    result := Err(Unreadable(path));
  }

  /** A hit found `offset` encodings further along the list. */
  function Shift(hit: Option<(nat, Table)>, offset: nat): Option<(nat, Table)> {
    match hit
    case None => None
    case Some((k, t)) => Some((k + offset, t))
  }

  /** Reading succeeds exactly when the file exists and some encoding reads it; the table is
      the one read under the earliest such encoding, and reading fails after all five tries
      otherwise. */
  lemma LoadOutcomeSpec(path: string, present: bool, read: string -> Option<Table>, encoding: string)
    ensures var encodings := Encodings(encoding);
      && (LoadOutcome(path, present, read, encoding).Ok? <==>
            present && exists k :: 0 <= k < |encodings| && read(encodings[k]).Some?)
      && (LoadOutcome(path, present, read, encoding) == Err(Unreadable(path)) <==>
            present && Attempts(present, read, encoding) == 5 &&
            forall k :: 0 <= k < |encodings| ==> read(encodings[k]).None?)
      && forall t :: LoadOutcome(path, present, read, encoding) == Ok(t) ==>
            exists k :: 0 <= k < |encodings| && read(encodings[k]) == Some(t) &&
              forall j :: 0 <= j < k ==> read(encodings[j]).None?
  {
    FirstReadSpec(Encodings(encoding), read);
  }

  // ================================================================ duplicates

  /** What two rows are compared on. */
  type Key = seq<Cell>

  /** The key of a row: the whole row for `columns=None`, else its cells in those columns. */
  function KeyOf(t: Table, subset: Option<seq<string>>, row: Row): Key {
    match subset
    case None => row
    case Some(names) =>
      seq(|names|, k requires 0 <= k < |names| => CellAt(row, IndexOf(t.columns, names[k])))
  }

  function Keys(t: Table, subset: Option<seq<string>>): (keys: seq<Key>)
    ensures |keys| == |t.rows|
  {
    seq(|t.rows|, i requires 0 <= i < |t.rows| => KeyOf(t, subset, t.rows[i]))
  }

  /** A subset naming a column the frame does not have. */
  predicate UnknownColumn(t: Table, subset: Option<seq<string>>) {
    subset.Some? && exists name :: name in subset.value && name !in t.columns
  }

  /** When `duplicated` and `drop_duplicates` raise: a frame without rows is returned at once,
      before the subset is looked at; otherwise an unknown column raises `KeyError`, and an
      empty subset, which leaves no column to key on, raises `ValueError`. */
  predicate SubsetFails(t: Table, subset: Option<seq<string>>) {
    t.rows != [] && (UnknownColumn(t, subset) || subset == Some([]))
  }

  /** The exception `SubsetFails` names. */
  function SubsetError(t: Table, subset: Option<seq<string>>): string {
    if UnknownColumn(t, subset) then "KeyError" else "ValueError"
  }

  /** `duplicated(keep='first')` as a scan with the set of keys met so far. */
  function MarkSeen(keys: seq<Key>, seen: set<Key>): seq<bool> {
    if keys == [] then [] else [keys[0] in seen] + MarkSeen(keys[1..], seen + {keys[0]})
  }

  /** `duplicated(keep='last')`: the same scan from the end. */
  function MarkSeenFromEnd(keys: seq<Key>, seen: set<Key>): seq<bool> {
    if keys == [] then []
    else
      var last := keys[|keys| - 1];
      MarkSeenFromEnd(keys[..|keys| - 1], seen + {last}) + [last in seen]
  }

  /** The scan flags a row exactly when its key was met before it (or was in `seen`). */
  lemma {:induction false} MarkSeenSpec(keys: seq<Key>, seen: set<Key>)
    ensures |MarkSeen(keys, seen)| == |keys|
    ensures forall i :: 0 <= i < |keys| ==>
              (MarkSeen(keys, seen)[i] <==> keys[i] in seen || keys[i] in keys[..i])
  {
    if keys != [] {
      var rest := keys[1..];
      MarkSeenSpec(rest, seen + {keys[0]});
      forall i | 0 <= i < |keys|
        ensures MarkSeen(keys, seen)[i] <==> keys[i] in seen || keys[i] in keys[..i]
      {
        if i > 0 {
          assert MarkSeen(keys, seen)[i] == MarkSeen(rest, seen + {keys[0]})[i - 1];
          assert keys[..i] == [keys[0]] + rest[..i - 1];
        }
      }
    }
  }

  lemma {:induction false} MarkSeenFromEndLength(keys: seq<Key>, seen: set<Key>)
    ensures |MarkSeenFromEnd(keys, seen)| == |keys|
  {
    if keys != [] {
      MarkSeenFromEndLength(keys[..|keys| - 1], seen + {keys[|keys| - 1]});
    }
  }

  lemma {:induction false} MarkSeenFromEndAt(keys: seq<Key>, seen: set<Key>, i: nat)
    requires i < |keys|
    ensures |MarkSeenFromEnd(keys, seen)| == |keys|
    ensures MarkSeenFromEnd(keys, seen)[i] <==> keys[i] in seen || keys[i] in keys[i + 1..]
  {
    var n := |keys| - 1;
    var init := keys[..n];
    var last := keys[n];
    MarkSeenFromEndLength(init, seen + {last});
    if i < n {
      MarkSeenFromEndAt(init, seen + {last}, i);
      var tail := init[i + 1..];
      assert keys[i + 1..] == tail + [last];
      assert keys[i] in keys[i + 1..] <==> keys[i] in tail || keys[i] == last;
    }
  }

  /** The scan from the end flags a row exactly when its key comes again after it. */
  lemma MarkSeenFromEndSpec(keys: seq<Key>, seen: set<Key>)
    ensures |MarkSeenFromEnd(keys, seen)| == |keys|
    ensures forall i :: 0 <= i < |keys| ==>
              (MarkSeenFromEnd(keys, seen)[i] <==> keys[i] in seen || keys[i] in keys[i + 1..])
  {
    MarkSeenFromEndLength(keys, seen);
    forall i | 0 <= i < |keys|
      ensures MarkSeenFromEnd(keys, seen)[i] <==> keys[i] in seen || keys[i] in keys[i + 1..]
    {
      MarkSeenFromEndAt(keys, seen, i);
    }
  }

  /** Which rows `drop_duplicates(keep=...)` drops: all but the first of a key, all but the
      last, or (`keep=False`) every row whose key occurs twice or more. */
  datatype Keep = First | Last | NoneKept

  function Duplicated(keys: seq<Key>, keep: Keep): seq<bool> {
    match keep
    case First => MarkSeen(keys, {})
    case Last => MarkSeenFromEnd(keys, {})
    case NoneKept =>
      var before := MarkSeen(keys, {});
      var after := MarkSeenFromEnd(keys, {});
      seq(|keys|, i requires 0 <= i < |keys| =>
        (i < |before| && before[i]) || (i < |after| && after[i]))
  }

  /** Row `i` has the same key as an earlier row, a later one, or either, as `keep` says. */
  predicate Repeated(keys: seq<Key>, i: nat, keep: Keep)
    requires i < |keys|
  {
    match keep
    case First => keys[i] in keys[..i]
    case Last => keys[i] in keys[i + 1..]
    case NoneKept => keys[i] in keys[..i] || keys[i] in keys[i + 1..]
  }

  /** A row is flagged exactly when its key repeats in the direction `keep` names. */
  lemma DuplicatedSpec(keys: seq<Key>, keep: Keep)
    ensures |Duplicated(keys, keep)| == |keys|
    ensures forall i :: 0 <= i < |keys| ==> (Duplicated(keys, keep)[i] <==> Repeated(keys, i, keep))
  {
    MarkSeenSpec(keys, {});
    MarkSeenFromEndSpec(keys, {});
  }

  function CountTrue(flags: seq<bool>): (n: nat)
    ensures n <= |flags|
  {
    if flags == [] then 0
    else CountTrue(flags[..|flags| - 1]) + (if flags[|flags| - 1] then 1 else 0)
  }

  /** The positions of the set flags, in order: `df[duplicates].index` for a default index. */
  function TrueIndices(flags: seq<bool>): seq<nat> {
    if flags == [] then []
    else
      var n := |flags| - 1;
      TrueIndices(flags[..n]) + (if flags[n] then [n] else [])
  }

  lemma {:induction false} TrueIndicesCount(flags: seq<bool>)
    ensures |TrueIndices(flags)| == CountTrue(flags)
  {
    if flags != [] {
      TrueIndicesCount(flags[..|flags| - 1]);
    }
  }

  lemma {:induction false} TrueIndicesMembers(flags: seq<bool>)
    ensures forall i: nat :: i in TrueIndices(flags) <==> i < |flags| && flags[i]
  {
    if flags != [] {
      var n := |flags| - 1;
      var init := flags[..n];
      TrueIndicesMembers(init);
      assert TrueIndices(flags) == TrueIndices(init) + (if flags[n] then [n] else []);
      forall i: nat ensures i in TrueIndices(flags) <==> i < |flags| && flags[i] {
        if i < n {
          assert init[i] == flags[i];
        }
      }
    }
  }

  lemma {:induction false} TrueIndicesIncreasing(flags: seq<bool>)
    ensures forall a, b :: 0 <= a < b < |TrueIndices(flags)| ==>
              TrueIndices(flags)[a] < TrueIndices(flags)[b]
  {
    if flags != [] {
      var n := |flags| - 1;
      var init := flags[..n];
      TrueIndicesIncreasing(init);
      TrueIndicesMembers(init);
      var r := TrueIndices(init);
      forall k | 0 <= k < |r| ensures r[k] < n {
        assert r[k] in r;
      }
      if flags[n] {
        var s := r + [n];
        assert TrueIndices(flags) == s;
        forall a, b | 0 <= a < b < |s| ensures s[a] < s[b] {
          if b < |r| {
            assert s[a] == r[a] && s[b] == r[b];
          } else {
            assert s[a] == r[a];
          }
        }
      } else {
        assert TrueIndices(flags) == r;
      }
    }
  }

  /** The positions listed are exactly the set flags, increasing, one per set flag. */
  lemma TrueIndicesSpec(flags: seq<bool>)
    ensures |TrueIndices(flags)| == CountTrue(flags)
    ensures forall i: nat :: i in TrueIndices(flags) <==> i < |flags| && flags[i]
    ensures forall a, b :: 0 <= a < b < |TrueIndices(flags)| ==>
              TrueIndices(flags)[a] < TrueIndices(flags)[b]
  {
    TrueIndicesCount(flags);
    TrueIndicesMembers(flags);
    TrueIndicesIncreasing(flags);
  }

  /** The rows of `xs` whose flag in `mask` is set, in order: `df[mask]`. */
  function Select<T>(xs: seq<T>, mask: seq<bool>): seq<T>
    requires |mask| == |xs|
  {
    if xs == [] then []
    else
      var n := |xs| - 1;
      Select(xs[..n], mask[..n]) + (if mask[n] then [xs[n]] else [])
  }

  /** Selected element `k` is the element at the `k`-th set position. */
  lemma {:induction false} SelectSpec<T>(xs: seq<T>, mask: seq<bool>)
    requires |mask| == |xs|
    ensures |Select(xs, mask)| == |TrueIndices(mask)|
    ensures forall k :: 0 <= k < |Select(xs, mask)| ==>
              TrueIndices(mask)[k] < |xs| && Select(xs, mask)[k] == xs[TrueIndices(mask)[k]]
  {
    if xs != [] {
      var n := |xs| - 1;
      SelectSpec(xs[..n], mask[..n]);
      TrueIndicesSpec(mask[..n]);
      assert forall i :: i in TrueIndices(mask[..n]) ==> i < n;
    }
  }

  function Negate(flags: seq<bool>): (r: seq<bool>)
    ensures |r| == |flags| && forall i :: 0 <= i < |flags| ==> r[i] == !flags[i]
  {
    seq(|flags|, i requires 0 <= i < |flags| => !flags[i])
  }

  /** The result of `check_duplicates`. `duplicatePercentage` is the exact ratio; the source
      rounds it to two decimals. */
  datatype DuplicateInfo = DuplicateInfo(
    totalRows: nat,
    duplicateRows: nat,
    uniqueRows: nat,
    duplicatePercentage: real,
    duplicateIndices: seq<nat>,
    checkedColumns: Option<seq<string>>)

  /** `duplicate_count / total_rows * 100`, and 0 for an empty frame. */
  function Percentage(part: nat, total: nat): real {
    if total > 0 then part as real / total as real * 100.0 else 0.0
  }

  lemma PercentageBounds(part: nat, total: nat)
    requires part <= total
    ensures 0.0 <= Percentage(part, total) <= 100.0
    ensures Percentage(part, total) == 0.0 <==> part == 0
  {
    if total > 0 {
      var q := part as real / total as real;
      assert q * total as real == part as real;
      assert q <= 1.0;
    }
  }

  /** `check_duplicates`: the exception of a subset `duplicated` refuses, otherwise the counts. */
  function CheckDuplicates(t: Table, subset: Option<seq<string>>): Result<DuplicateInfo, string> {
    if SubsetFails(t, subset) then Err(SubsetError(t, subset))
    else
      var flags := Duplicated(Keys(t, subset), First);
      DuplicatedSpec(Keys(t, subset), First);
      var count := CountTrue(flags);
      Ok(DuplicateInfo(|t.rows|, count, |t.rows| - count, Percentage(count, |t.rows|),
                       TrueIndices(flags), subset))
  }

  /** The report counts every row once, as duplicate or unique; it lists exactly the rows
      whose key occurs at an earlier row, in row order; its percentage is 0 for an empty
      frame and never above 100. */
  lemma CheckDuplicatesSpec(t: Table, subset: Option<seq<string>>)
    ensures CheckDuplicates(t, subset).Err? <==>
              t.rows != [] && (UnknownColumn(t, subset) || subset == Some([]))
    ensures CheckDuplicates(t, subset).Err? ==>
              CheckDuplicates(t, subset).error == (if UnknownColumn(t, subset) then "KeyError" else "ValueError")
    ensures CheckDuplicates(t, subset).Ok? ==>
      var info := CheckDuplicates(t, subset).value;
      var keys := Keys(t, subset);
      && info.totalRows == |t.rows|
      && info.duplicateRows + info.uniqueRows == info.totalRows
      && |info.duplicateIndices| == info.duplicateRows
      && (forall i: nat :: i in info.duplicateIndices <==> i < |keys| && keys[i] in keys[..i])
      && (forall a, b :: 0 <= a < b < |info.duplicateIndices| ==>
            info.duplicateIndices[a] < info.duplicateIndices[b])
      && 0.0 <= info.duplicatePercentage <= 100.0
      && (t.rows == [] ==> info.duplicatePercentage == 0.0)
  {
    if !SubsetFails(t, subset) {
      var keys := Keys(t, subset);
      var flags := Duplicated(keys, First);
      DuplicatedSpec(keys, First);
      TrueIndicesSpec(flags);
      PercentageBounds(CountTrue(flags), |t.rows|);
    }
  }

  /** `remove_duplicates`: the rows `drop_duplicates` keeps, in their original order. */
  function RemoveDuplicates(t: Table, subset: Option<seq<string>>, keep: Keep): Result<Table, string> {
    if SubsetFails(t, subset) then Err(SubsetError(t, subset))
    else
      var keys := Keys(t, subset);
      DuplicatedSpec(keys, keep);
      Ok(Table(t.columns, Select(t.rows, Negate(Duplicated(keys, keep)))))
  }

  /** A frame without rows is never refused, whatever the subset names: the check counts
      nothing and removal returns the frame as it is. */
  lemma EmptyFrameAccepted(columns: seq<string>, subset: Option<seq<string>>, keep: Keep)
    ensures CheckDuplicates(Table(columns, []), subset) == Ok(DuplicateInfo(0, 0, 0, 0.0, [], subset))
    ensures RemoveDuplicates(Table(columns, []), subset, keep) == Ok(Table(columns, []))
  {
    var t := Table(columns, []);
    assert Keys(t, subset) == [];
    DuplicatedSpec([], First);
    DuplicatedSpec([], keep);
    TrueIndicesSpec(Duplicated([], First));
    SelectSpec(t.rows, Negate(Duplicated([], keep)));
  }

  /** Selecting rows selects their keys: the key of a row depends on that row alone. */
  lemma KeysOfSelect(t: Table, subset: Option<seq<string>>, mask: seq<bool>)
    requires |mask| == |t.rows|
    ensures Keys(Table(t.columns, Select(t.rows, mask)), subset) == Select(Keys(t, subset), mask)
  {
    var kept := Table(t.columns, Select(t.rows, mask));
    SelectSpec(t.rows, mask);
    SelectSpec(Keys(t, subset), mask);
  }

  /** Row `i` survives `drop_duplicates(keep=...)` exactly when its key does not repeat in
      the direction `keep` names; the kept rows keep their order. */
  lemma RemoveDuplicatesSpec(t: Table, subset: Option<seq<string>>, keep: Keep)
    ensures RemoveDuplicates(t, subset, keep).Err? <==>
              t.rows != [] && (UnknownColumn(t, subset) || subset == Some([]))
    ensures RemoveDuplicates(t, subset, keep).Err? ==>
              RemoveDuplicates(t, subset, keep).error == (if UnknownColumn(t, subset) then "KeyError" else "ValueError")
    ensures RemoveDuplicates(t, subset, keep).Ok? ==>
      var kept := RemoveDuplicates(t, subset, keep).value;
      var keys := Keys(t, subset);
      var positions := TrueIndices(Negate(Duplicated(keys, keep)));
      && kept.columns == t.columns
      && |kept.rows| == |positions|
      && (forall i: nat :: i in positions <==> i < |keys| && !Repeated(keys, i, keep))
      && (forall a, b :: 0 <= a < b < |positions| ==> positions[a] < positions[b])
      && forall k :: 0 <= k < |kept.rows| ==> positions[k] < |t.rows| && kept.rows[k] == t.rows[positions[k]]
  {
    if !SubsetFails(t, subset) {
      var keys := Keys(t, subset);
      var mask := Negate(Duplicated(keys, keep));
      DuplicatedSpec(keys, keep);
      SelectSpec(t.rows, mask);
      TrueIndicesSpec(mask);
    }
  }

  predicate DistinctKeys(keys: seq<Key>) {
    forall a, b :: 0 <= a < b < |keys| ==> keys[a] != keys[b]
  }

  /** The rows left by any `keep` have pairwise different keys. */
  lemma RemovedHasDistinctKeys(t: Table, subset: Option<seq<string>>, keep: Keep)
    requires !SubsetFails(t, subset)
    ensures DistinctKeys(Keys(RemoveDuplicates(t, subset, keep).value, subset))
  {
    var keys := Keys(t, subset);
    var mask := Negate(Duplicated(keys, keep));
    var positions := TrueIndices(mask);
    DuplicatedSpec(keys, keep);
    KeysOfSelect(t, subset, mask);
    SelectSpec(keys, mask);
    TrueIndicesSpec(mask);
    var kept := Select(keys, mask);
    forall a, b | 0 <= a < b < |kept| ensures kept[a] != kept[b] {
      var i, j := positions[a], positions[b];
      assert i in positions && j in positions;
      assert i < j;
    }
  }

  /** No key repeats in a list of distinct keys, so nothing is flagged. */
  lemma NothingDuplicated(keys: seq<Key>, keep: Keep)
    requires DistinctKeys(keys)
    ensures Duplicated(keys, keep) == AllFalse(|keys|)
  {
    DuplicatedSpec(keys, keep);
    forall i | 0 <= i < |keys| ensures !Repeated(keys, i, keep) {
    }
  }

  /** A full mask selects everything. */
  lemma {:induction false} SelectAll<T>(xs: seq<T>, mask: seq<bool>)
    requires |mask| == |xs| && forall i :: 0 <= i < |mask| ==> mask[i]
    ensures Select(xs, mask) == xs
  {
    if xs != [] {
      SelectAll(xs[..|xs| - 1], mask[..|xs| - 1]);
    }
  }

  function AllFalse(n: nat): seq<bool> {
    seq(n, i => false)
  }

  lemma {:induction false} CountNone(flags: seq<bool>)
    requires forall i :: 0 <= i < |flags| ==> !flags[i]
    ensures CountTrue(flags) == 0
  {
    if flags != [] {
      CountNone(flags[..|flags| - 1]);
    }
  }

  /** On a frame whose keys are all different, checking finds no duplicate and removing
      keeps the frame as it is. */
  lemma DistinctKeysUntouched(t: Table, subset: Option<seq<string>>, keep: Keep)
    requires !SubsetFails(t, subset) && DistinctKeys(Keys(t, subset))
    ensures CheckDuplicates(t, subset).Ok? && CheckDuplicates(t, subset).value.duplicateRows == 0
    ensures RemoveDuplicates(t, subset, keep) == Ok(t)
  {
    var keys := Keys(t, subset);
    NothingDuplicated(keys, First);
    CountNone(Duplicated(keys, First));
    NothingDuplicated(keys, keep);
    SelectAll(t.rows, Negate(Duplicated(keys, keep)));
  }

  /** After removal on a key, checking that key finds no duplicate, and removing again
      changes nothing. */
  lemma RemoveDuplicatesIdempotent(t: Table, subset: Option<seq<string>>, keep: Keep)
    requires !SubsetFails(t, subset)
    ensures var kept := RemoveDuplicates(t, subset, keep).value;
      && CheckDuplicates(kept, subset).Ok?
      && CheckDuplicates(kept, subset).value.duplicateRows == 0
      && RemoveDuplicates(kept, subset, keep) == Ok(kept)
  {
    var kept := RemoveDuplicates(t, subset, keep).value;
    RemovedHasDistinctKeys(t, subset, keep);
    assert !SubsetFails(kept, subset);
    DistinctKeysUntouched(kept, subset, keep);
  }

  /** A key of the kept rows is a key of the frame; under `keep=False` it occurs once there. */
  lemma KeptKeyFromFrame(t: Table, subset: Option<seq<string>>, keep: Keep, key: Key)
    requires !SubsetFails(t, subset)
    requires key in Keys(RemoveDuplicates(t, subset, keep).value, subset)
    ensures key in Keys(t, subset)
    ensures keep == NoneKept ==> multiset(Keys(t, subset))[key] == 1
  {
    var keys := Keys(t, subset);
    var mask := Negate(Duplicated(keys, keep));
    var positions := TrueIndices(mask);
    DuplicatedSpec(keys, keep);
    KeysOfSelect(t, subset, mask);
    SelectSpec(keys, mask);
    TrueIndicesSpec(mask);
    var kept := Select(keys, mask);
    var k :| 0 <= k < |kept| && kept[k] == key;
    var i := positions[k];
    assert i in positions;
    assert keys[i] == key;
    if keep == NoneKept {
      OnlyOccurrence(keys, i);
    }
  }

  /** A position whose key does not repeat in the direction `keep` names is kept. */
  lemma UnrepeatedIsKept(t: Table, subset: Option<seq<string>>, keep: Keep, i: nat)
    requires !SubsetFails(t, subset)
    requires i < |t.rows| && !Repeated(Keys(t, subset), i, keep)
    ensures Keys(t, subset)[i] in Keys(RemoveDuplicates(t, subset, keep).value, subset)
  {
    var keys := Keys(t, subset);
    var mask := Negate(Duplicated(keys, keep));
    var positions := TrueIndices(mask);
    DuplicatedSpec(keys, keep);
    KeysOfSelect(t, subset, mask);
    SelectSpec(keys, mask);
    TrueIndicesSpec(mask);
    assert i in positions;
    var k :| 0 <= k < |positions| && positions[k] == i;
    assert Select(keys, mask)[k] == keys[i];
  }

  /** Keeping the first or the last occurrence loses no key; `keep=False` keeps exactly the
      keys that occur once. */
  lemma RemoveDuplicatesKeys(t: Table, subset: Option<seq<string>>, keep: Keep, key: Key)
    requires !SubsetFails(t, subset)
    ensures var keys := Keys(t, subset);
      var kept := Keys(RemoveDuplicates(t, subset, keep).value, subset);
      && (keep != NoneKept ==> (key in kept <==> key in keys))
      && (keep == NoneKept ==> (key in kept <==> multiset(keys)[key] == 1))
  {
    var keys := Keys(t, subset);
    if key in Keys(RemoveDuplicates(t, subset, keep).value, subset) {
      KeptKeyFromFrame(t, subset, keep, key);
    }
    if keep != NoneKept && key in keys {
      var i := ExtremeOccurrence(keys, key, keep == First);
      UnrepeatedIsKept(t, subset, keep, i);
    }
    if keep == NoneKept && multiset(keys)[key] == 1 {
      assert key in multiset(keys);
      var i :| 0 <= i < |keys| && keys[i] == key;
      SoleOccurrence(keys, i);
      UnrepeatedIsKept(t, subset, keep, i);
    }
  }

  /** The first (or the last) position holding `key`. */
  lemma ExtremeOccurrence(keys: seq<Key>, key: Key, first: bool) returns (i: nat)
    requires key in keys
    ensures i < |keys| && keys[i] == key
    ensures first ==> key !in keys[..i]
    ensures !first ==> key !in keys[i + 1..]
  {
    if first {
      i := 0;
      while keys[i] != key
        invariant i < |keys| && key !in keys[..i]
        invariant key in keys[i..]
        decreases |keys| - i
      {
        assert keys[i..] == [keys[i]] + keys[i + 1..];
        assert keys[..i + 1] == keys[..i] + [keys[i]];
        i := i + 1;
      }
    } else {
      i := |keys| - 1;
      while keys[i] != key
        invariant 0 <= i < |keys| && key !in keys[i + 1..]
        invariant key in keys[..i + 1]
        decreases i
      {
        assert keys[..i + 1] == keys[..i] + [keys[i]];
        assert keys[i..] == [keys[i]] + keys[i + 1..];
        i := i - 1;
      }
    }
  }

  /** A key found neither before nor after position `i` occurs once. */
  lemma OnlyOccurrence(keys: seq<Key>, i: nat)
    requires i < |keys| && keys[i] !in keys[..i] && keys[i] !in keys[i + 1..]
    ensures multiset(keys)[keys[i]] == 1
  {
    assert keys == keys[..i] + [keys[i]] + keys[i + 1..];
    assert multiset(keys) == multiset(keys[..i]) + multiset{keys[i]} + multiset(keys[i + 1..]);
  }

  /** A key that occurs once is found neither before nor after its position. */
  lemma SoleOccurrence(keys: seq<Key>, i: nat)
    requires i < |keys| && multiset(keys)[keys[i]] == 1
    ensures keys[i] !in keys[..i] && keys[i] !in keys[i + 1..]
  {
    assert keys == keys[..i] + [keys[i]] + keys[i + 1..];
    assert multiset(keys) == multiset(keys[..i]) + multiset{keys[i]} + multiset(keys[i + 1..]);
    assert keys[i] !in multiset(keys[..i]);
    assert keys[i] !in multiset(keys[i + 1..]);
  }

  // ================================================================ analysis

  /** The subset `analyze_csv` checks: the text column alone when one is named (a non-empty
      name) and the frame has it, otherwise whole rows. */
  function AnalysisSubset(t: Table, textColumn: Option<string>): Option<seq<string>> {
    if textColumn.Some? && textColumn.value != "" && textColumn.value in t.columns
    then Some([textColumn.value])
    else None
  }

  /** The subset chosen never names a missing column and is never empty, so the check
      cannot fail. */
  lemma AnalysisSubsetKnown(t: Table, textColumn: Option<string>)
    ensures !UnknownColumn(t, AnalysisSubset(t, textColumn))
    ensures AnalysisSubset(t, textColumn) != Some([])
    ensures AnalysisSubset(t, textColumn).Some? <==>
              textColumn.Some? && textColumn.value != "" && textColumn.value in t.columns
  {
  }

  /** `analyze_csv`: load the file, then check duplicates on the subset chosen. */
  method AnalyzeCsv(path: string, present: bool, read: string -> Option<Table>, textColumn: Option<string>)
    returns (result: Result<(Table, DuplicateInfo), LoadError>)
    ensures LoadOutcome(path, present, read, "utf-8").Err? ==>
              result == Err(LoadOutcome(path, present, read, "utf-8").error)
    ensures LoadOutcome(path, present, read, "utf-8").Ok? ==>
              var t := LoadOutcome(path, present, read, "utf-8").value;
              result.Ok? && result.value.0 == t &&
              Ok(result.value.1) == CheckDuplicates(t, AnalysisSubset(t, textColumn))
  {
    var loaded, _ := CsvToDf(path, present, read, "utf-8");
    if loaded.Err? {
      return Err(loaded.error);
    }
    var t := loaded.value;
    AnalysisSubsetKnown(t, textColumn);
    var info := CheckDuplicates(t, AnalysisSubset(t, textColumn));
    result := Ok((t, info.value));
  }
}
