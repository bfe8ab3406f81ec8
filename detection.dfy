/** Boundary detection: the bookkeeping `rowFormatter` does for each row as the
    host table formats the rows of a render pass in order, and what one whole
    pass leaves behind. */
module Detection {
  import opened Keys
  import opened Dom

  /** A detected group: its key, the index of its leading row, and its header,
      which stays null until the group is materialised. */
  datatype GroupRecord = GroupRecord(name: Key, row: nat, group: Header?)

  /** The detector's state: the pending group list, the current group marker
      and the reset flag. */
  datatype Detector = Detector(groups: seq<GroupRecord>, current: Key, reset: bool)

  /** The state `rowFormatter` leaves after formatting row `tr`, whose key is
      `key`: a set reset flag first clears the list and the marker; a key loosely
      unequal to the marker appends a record; the marker becomes the key. */
  function Step(d: Detector, key: Key, tr: nat): Detector
  {
    var groups := if d.reset then [] else d.groups;
    var current := if d.reset then Null else d.current;
    Detector(if LooseEq(key, current) then groups else groups + [GroupRecord(key, tr, null)], key, false)
  }

  /** The state after rows with these keys are formatted, in order, from row 0. */
  function Pass(d: Detector, keys: seq<Key>): Detector
    decreases |keys|
  {
    if keys == [] then d
    else Step(Pass(d, keys[..|keys| - 1]), keys[|keys| - 1], |keys| - 1)
  }

  /** Row `i` starts a maximal run of loosely equal adjacent keys. The first row
      does so only when its key is not loosely equal to null. */
  predicate IsRunStart(keys: seq<Key>, i: nat)
    requires i < |keys|
  {
    if i == 0 then !LooseEq(keys[0], Null) else !LooseEq(keys[i], keys[i - 1])
  }

  /** The leading-row indices of a list of records, in list order. */
  function RowsOf(gs: seq<GroupRecord>): seq<nat>
  {
    seq(|gs|, k requires 0 <= k < |gs| => gs[k].row)
  }

  /** `s` lists, in increasing order, exactly the rows that start a run. */
  ghost predicate IsRunStarts(keys: seq<Key>, s: seq<nat>)
  {
    && (forall k :: 0 <= k < |s| ==> s[k] < |keys|)
    && (forall k1, k2 :: 0 <= k1 < k2 < |s| ==> s[k1] < s[k2])
    && (forall i :: 0 <= i < |keys| ==> (IsRunStart(keys, i) <==> i in s))
  }

  /** The run starts of a key sequence, in order. */
  function RunStarts(keys: seq<Key>): (s: seq<nat>)
    ensures IsRunStarts(keys, s)
    decreases |keys|
  {
    if keys == [] then []
    else
      var n := |keys| - 1;
      var earlier := RunStarts(keys[..n]);
      assert forall i :: 0 <= i < n ==> IsRunStart(keys[..n], i) == IsRunStart(keys, i);
      earlier + (if IsRunStart(keys, n) then [n] else [])
  }

  /** The set of leading rows of a list of records. */
  ghost function RowSet(gs: seq<GroupRecord>): set<nat>
  {
    set k | 0 <= k < |gs| :: gs[k].row
  }

  /** No earlier record in the list has record `k`'s leading row. */
  ghost predicate FirstForRow(gs: seq<GroupRecord>, k: nat)
    requires k < |gs|
  {
    forall m :: 0 <= m < k ==> gs[m].row != gs[k].row
  }

  /** The length of the longest prefix of records that already have a header. */
  function MaterialisedPrefix(gs: seq<GroupRecord>): (n: nat)
    ensures n <= |gs|
    ensures forall k :: 0 <= k < n ==> gs[k].group != null
    ensures n < |gs| ==> gs[n].group == null
  {
    if gs == [] || gs[0].group == null then 0 else 1 + MaterialisedPrefix(gs[1..])
  }

  /** The headers of a list of records. */
  ghost function HeadersOf(gs: seq<GroupRecord>): set<Header?>
  {
    set k | 0 <= k < |gs| && gs[k].group != null :: gs[k].group
  }

  lemma RowsOfAppend(gs: seq<GroupRecord>, g: GroupRecord)
    ensures RowsOf(gs + [g]) == RowsOf(gs) + [g.row]
  {
  }

  /** What a pass over `keys` has recorded: the run starts, in order, each
      under its leading row's key and without a header, with the marker on the
      last key and the flag clear. */
  ghost predicate RecordsRunStarts(p: Detector, keys: seq<Key>)
    requires keys != []
  {
    && IsRunStarts(keys, RowsOf(p.groups))
    && (forall k :: 0 <= k < |p.groups| ==> p.groups[k].row < |keys|)
    && (forall k :: 0 <= k < |p.groups| ==>
          p.groups[k].name == keys[p.groups[k].row] && p.groups[k].group == null)
    && p.current == keys[|keys| - 1]
    && !p.reset
  }

  /** Formatting one more row keeps what a pass has recorded in step with the
      longer key sequence. */
  lemma StepRecordsRunStarts(q: Detector, keys: seq<Key>)
    requires |keys| >= 2 && RecordsRunStarts(q, keys[..|keys| - 1])
    ensures RecordsRunStarts(Step(q, keys[|keys| - 1], |keys| - 1), keys)
  {
    var n := |keys| - 1;
    var p := Step(q, keys[n], n);
    assert forall i :: 0 <= i < n ==> IsRunStart(keys[..n], i) == IsRunStart(keys, i);
    assert IsRunStart(keys, n) <==> !LooseEq(keys[n], q.current);
    if !LooseEq(keys[n], q.current) {
      assert p.groups == q.groups + [GroupRecord(keys[n], n, null)];
      RowsOfAppend(q.groups, GroupRecord(keys[n], n, null));
    } else {
      assert p.groups == q.groups;
    }
  }

  lemma {:induction false} PassRecords(d: Detector, keys: seq<Key>)
    requires d.reset
    requires keys != []
    ensures RecordsRunStarts(Pass(d, keys), keys)
    decreases |keys|
  {
    var n := |keys| - 1;
    var q := Pass(d, keys[..n]);
    assert Pass(d, keys) == Step(q, keys[n], n);
    if n == 0 {
      assert q == d;
      var p := Step(d, keys[0], 0);
      assert RowsOf(p.groups) == if LooseEq(keys[0], Null) then [] else [0];
    } else {
      PassRecords(d, keys[..n]);
      StepRecordsRunStarts(q, keys);
    }
  }

  /** A whole formatting pass, started with the reset flag set, records exactly
      the run starts, in order, each under its leading row's key and without a
      header; the marker ends on the last key and the flag is clear. */
  lemma PassRecordsRunStarts(d: Detector, keys: seq<Key>)
    requires d.reset
    requires keys != []
    ensures var p := Pass(d, keys);
      && RowsOf(p.groups) == RunStarts(keys)
      && (forall k :: 0 <= k < |p.groups| ==> p.groups[k].row < |keys|)
      && (forall k :: 0 <= k < |p.groups| ==>
            p.groups[k].name == keys[p.groups[k].row] && p.groups[k].group == null)
      && p.current == keys[|keys| - 1]
      && !p.reset
  {
    PassRecords(d, keys);
    RunStartsUnique(keys, RowsOf(Pass(d, keys).groups));
  }

  /** The records a pass detects: one per run start, in order, under its
      leading row's key, without a header. */
  function Detected(keys: seq<Key>): seq<GroupRecord>
  {
    var s := RunStarts(keys);
    seq(|s|, k requires 0 <= k < |s| => GroupRecord(keys[s[k]], s[k], null))
  }

  /** A whole pass started with the reset flag set leaves exactly the detected
      records. */
  lemma PassDetects(d: Detector, keys: seq<Key>)
    requires d.reset && keys != []
    ensures Pass(d, keys).groups == Detected(keys)
  {
    PassRecordsRunStarts(d, keys);
    var p := Pass(d, keys);
    var s := RunStarts(keys);
    assert |p.groups| == |RowsOf(p.groups)| == |s|;
    forall k | 0 <= k < |s|
      ensures p.groups[k] == Detected(keys)[k]
    {
      assert RowsOf(p.groups)[k] == p.groups[k].row;
    }
  }

  /** Before row `i` is formatted, the marker it is compared with (null after a
      reset) makes it start a group exactly when it starts a run. */
  lemma MarkerBeforeRow(d: Detector, keys: seq<Key>, i: nat)
    requires d.reset && i < |keys|
    ensures var p := Pass(d, keys[..i]);
      IsRunStart(keys, i) <==> !LooseEq(keys[i], if p.reset then Null else p.current)
    ensures Pass(d, keys[..i + 1]) == Step(Pass(d, keys[..i]), keys[i], i)
  {
    assert keys[..i + 1][..i] == keys[..i];
    if i == 0 {
      assert keys[..0] == [];
    } else {
      PassRecordsRunStarts(d, keys[..i]);
    }
  }

  /** The rows after a formatting pass: each row that starts a run has gained
      the leading-row class. */
  function MarkLeaders(rows: seq<Row>, keys: seq<Key>): seq<Row>
    requires |rows| == |keys|
  {
    seq(|rows|, j requires 0 <= j < |rows| =>
      if IsRunStart(keys, j) then rows[j].(classes := rows[j].classes + {GroupFirstRow}) else rows[j])
  }

  /** Two strictly increasing lists with the same members are the same list. */
  lemma {:induction false} IncreasingSameMembers(s1: seq<nat>, s2: seq<nat>)
    requires forall a, b :: 0 <= a < b < |s1| ==> s1[a] < s1[b]
    requires forall a, b :: 0 <= a < b < |s2| ==> s2[a] < s2[b]
    requires forall x :: x in s1 <==> x in s2
    ensures s1 == s2
    decreases |s1|
  {
    assert s1 != [] ==> s1[0] in s2;
    assert s2 != [] ==> s2[0] in s1;
    if s1 != [] && s2 != [] {
      assert s1[0] == s2[0];
      forall x
        ensures x in s1[1..] <==> x in s2[1..]
      {
        assert x in s1[1..] <==> x in s1 && x != s1[0];
        assert x in s2[1..] <==> x in s2 && x != s2[0];
      }
      IncreasingSameMembers(s1[1..], s2[1..]);
      assert s1 == [s1[0]] + s1[1..];
      assert s2 == [s2[0]] + s2[1..];
    }
  }

  /** The run starts are the only increasing list of exactly the rows that
      start a run. */
  lemma RunStartsUnique(keys: seq<Key>, s: seq<nat>)
    requires IsRunStarts(keys, s)
    ensures s == RunStarts(keys)
  {
    var r := RunStarts(keys);
    forall x
      ensures x in s <==> x in r
    {
      if x in s || x in r {
        assert x < |keys|;
        assert IsRunStart(keys, x) <==> x in s;
      }
    }
    IncreasingSameMembers(s, r);
  }

  /** Keys [a, a, b, b, b, a] give three groups, led by rows 0, 2 and 5: a key
      that comes back later starts a new group. */
  lemma ExampleRuns()
    ensures RunStarts([Str("a"), Str("a"), Str("b"), Str("b"), Str("b"), Str("a")]) == [0, 2, 5]
  {
    var keys := [Str("a"), Str("a"), Str("b"), Str("b"), Str("b"), Str("a")];
    assert forall i :: 0 <= i < |keys| ==> (IsRunStart(keys, i) <==> i == 0 || i == 2 || i == 5);
    RunStartsUnique(keys, [0, 2, 5]);
  }

  /** Comparison is with the previous row only: "0", 0, "00" form one group,
      although "0" and "00" are not loosely equal. */
  lemma ExampleAdjacentOnly()
    ensures RunStarts([Str("0"), Num(0), Str("00")]) == [0]
  {
    LooseEqNotTransitive();
    var keys := [Str("0"), Num(0), Str("00")];
    assert forall i :: 0 <= i < |keys| ==> (IsRunStart(keys, i) <==> i == 0);
    RunStartsUnique(keys, [0]);
  }

  /** The first row leads a group exactly when its key is neither null nor
      undefined. */
  lemma FirstRowLeadsUnlessNullish(keys: seq<Key>)
    requires keys != []
    ensures 0 in RunStarts(keys) <==> !IsNullish(keys[0])
  {
    NullishLooseEqNull(keys[0]);
  }

  /** When no row yields a non-nullish key (in particular when no record has
      the grouping field), a pass detects no group at all. */
  lemma {:induction false} NullishKeysStartNoGroup(keys: seq<Key>)
    requires forall i :: 0 <= i < |keys| ==> IsNullish(keys[i])
    ensures RunStarts(keys) == []
  {
    if keys != [] {
      var n := |keys| - 1;
      NullishKeysStartNoGroup(keys[..n]);
      NullishLooseEqNull(keys[n]);
      assert !IsRunStart(keys, n);
    }
  }
}
