/** Collapse and expand: the class swaps on a header and its leading row, and
    the forward scan over the following rows that hides or shows them until the
    next leading row. */
module Visibility {
  import opened Dom

  /** The index at which the forward scan starting at row `i` stops: the first
      row from `i` on that carries either leading-row class, or the end. */
  function RunEnd(rows: seq<Row>, i: nat): (e: nat)
    requires i <= |rows|
    ensures i <= e <= |rows|
    ensures forall j :: i <= j < e ==> !IsLeading(rows[j])
    ensures e < |rows| ==> IsLeading(rows[e])
    decreases |rows| - i
  {
    if i == |rows| || IsLeading(rows[i]) then i else RunEnd(rows, i + 1)
  }

  /** The header's classes after a toggle that collapses (or expands) its group. */
  function SwapHeader(classes: set<string>, collapse: bool): set<string>
  {
    if collapse then ReplaceClass(classes, GroupExpanded, GroupCollapsed)
    else ReplaceClass(classes, GroupCollapsed, GroupExpanded)
  }

  /** The leading row's classes after a toggle that collapses (or expands) its group. */
  function SwapLeader(classes: set<string>, collapse: bool): set<string>
  {
    if collapse then ReplaceClass(classes, GroupFirstRow, GroupFirstRowCollapsed)
    else ReplaceClass(classes, GroupFirstRowCollapsed, GroupFirstRow)
  }

  /** The display a toggle gives the rows of the group. */
  function RunDisplay(collapse: bool): Display
  {
    if collapse then Hidden else TableRow
  }

  /** The rows after toggling the group led by row `lead`. */
  function Toggled(rows: seq<Row>, lead: nat, collapse: bool): seq<Row>
    requires lead < |rows|
  {
    var e := RunEnd(rows, lead + 1);
    seq(|rows|, j requires 0 <= j < |rows| =>
      if j == lead then rows[j].(classes := SwapLeader(rows[j].classes, collapse))
      else if lead < j < e then rows[j].(display := RunDisplay(collapse))
      else rows[j])
  }

  /** Toggling touches the leading row's classes and the displays of exactly the
      rows strictly between it and the next leading row (or the end); every other
      row, and every other attribute, is left as it was. */
  lemma ToggledTouchesOnlyTheRun(rows: seq<Row>, lead: nat, collapse: bool)
    requires lead < |rows|
    ensures var r := Toggled(rows, lead, collapse);
      var e := RunEnd(rows, lead + 1);
      && |r| == |rows|
      && r[lead].classes == SwapLeader(rows[lead].classes, collapse)
      && r[lead].display == rows[lead].display
      && (forall j :: lead < j < e ==> r[j].display == RunDisplay(collapse) && r[j].classes == rows[j].classes)
      && (forall j :: 0 <= j < |rows| && (j < lead || e <= j) ==> r[j] == rows[j])
      && (forall j :: 0 <= j < |rows| ==> r[j].record == rows[j].record && r[j].width == rows[j].width)
  {
  }

  /** Where the scan stops depends only on which rows lead. */
  lemma {:induction false} RunEndOnlyReadsLeading(a: seq<Row>, b: seq<Row>, i: nat)
    requires |a| == |b| && i <= |a|
    requires forall j :: i <= j < |a| ==> (IsLeading(a[j]) <==> IsLeading(b[j]))
    ensures RunEnd(a, i) == RunEnd(b, i)
    decreases |a| - i
  {
    if i < |a| && !IsLeading(a[i]) {
      RunEndOnlyReadsLeading(a, b, i + 1);
    }
  }

  /** Collapsing an expanded group and then expanding it again shows exactly the
      rows the collapse hid, restores the leading row's classes, and leaves every
      row outside the group as it was. */
  lemma CollapseThenExpand(rows: seq<Row>, lead: nat)
    requires lead < |rows|
    requires GroupFirstRow in rows[lead].classes && GroupFirstRowCollapsed !in rows[lead].classes
    ensures var collapsed := Toggled(rows, lead, true);
      var expanded := Toggled(collapsed, lead, false);
      var e := RunEnd(rows, lead + 1);
      && (forall j :: lead < j < e ==> collapsed[j].display == Hidden && expanded[j].display == TableRow)
      && expanded[lead] == rows[lead]
      && (forall j :: 0 <= j < |rows| && (j < lead || e <= j) ==> expanded[j] == rows[j])
  {
    var collapsed := Toggled(rows, lead, true);
    RunEndOnlyReadsLeading(rows, collapsed, lead + 1);
    assert SwapLeader(SwapLeader(rows[lead].classes, true), false) == rows[lead].classes;
  }

  /** Sorted, duplicate-free row lists: the leading row of the group after
      group `k` is the least listed row above group `k`'s leading row. */
  lemma NextListed(starts: seq<nat>, k: nat, e: nat)
    requires forall m1, m2 :: 0 <= m1 < m2 < |starts| ==> starts[m1] < starts[m2]
    requires k < |starts| && starts[k] < e && e in starts
    ensures k + 1 < |starts| && starts[k + 1] <= e
  {
    var m :| 0 <= m < |starts| && starts[m] == e;
    assert k < m;
    assert m == k + 1 || starts[k + 1] < starts[m];
  }

  /** A scan position with the three properties of `RunEnd` started just after
      group `k`'s leading row is the next group's leading row, or the end. */
  lemma ScanStopsAtNextListed(rows: seq<Row>, starts: seq<nat>, k: nat, e: nat)
    requires forall m :: 0 <= m < |starts| ==> starts[m] < |rows|
    requires forall m1, m2 :: 0 <= m1 < m2 < |starts| ==> starts[m1] < starts[m2]
    requires forall j :: 0 <= j < |rows| ==> (IsLeading(rows[j]) <==> j in starts)
    requires k < |starts|
    requires starts[k] < e <= |rows|
    requires forall j :: starts[k] < j < e ==> !IsLeading(rows[j])
    requires e < |rows| ==> IsLeading(rows[e])
    ensures e == if k + 1 < |starts| then starts[k + 1] else |rows|
  {
    if e < |rows| {
      NextListed(starts, k, e);
    }
    if k + 1 < |starts| {
      assert starts[k + 1] in starts;
    }
  }

  /** When the rows carrying a leading-row class are exactly those listed, in
      increasing order, in `starts`, the scan from group `k`'s leading row stops
      at the next group's leading row, or at the end for the last group. */
  lemma RunEndIsNextLeader(rows: seq<Row>, starts: seq<nat>, k: nat)
    requires forall m :: 0 <= m < |starts| ==> starts[m] < |rows|
    requires forall m1, m2 :: 0 <= m1 < m2 < |starts| ==> starts[m1] < starts[m2]
    requires forall j :: 0 <= j < |rows| ==> (IsLeading(rows[j]) <==> j in starts)
    requires k < |starts|
    ensures RunEnd(rows, starts[k] + 1) == if k + 1 < |starts| then starts[k + 1] else |rows|
  {
    ScanStopsAtNextListed(rows, starts, k, RunEnd(rows, starts[k] + 1));
  }
}
