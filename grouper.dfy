/** The grouping controller of a data table. `DataTableGrouper` wraps a table and
    `GroupedDataTable` extends one; both keep the same four pieces of state (the
    pending group list, the current group marker, the reset flag and the selected
    header) and implement the same operations, modelled once here. */
module DataTableGrouper {
  import opened Keys
  import opened Dom
  import opened Detection
  import opened Visibility

  class Grouper {
    /** The data field rows are grouped by. */
    const groupBy: string
    /** The host table's rows, in render order. */
    const rows: array<Row>
    /** The rows the host table has selected. */
    var selectedRows: set<nat>

    var groups: seq<GroupRecord>
    var currentGroupName: Key
    var resetGroups: bool
    var selectedGroup: Header?

    /** Every header this grouper has created. */
    ghost var Headers: set<Header>

    /** Records and headers point at rows of this table, every materialised
        record's header is one of ours and sits in the record's leading row, and
        only the recorded selection can carry the selected class. */
    ghost predicate Valid()
      reads this, Headers
    {
      && (forall k :: 0 <= k < |groups| ==> groups[k].row < rows.Length)
      && (forall k :: 0 <= k < |groups| && groups[k].group != null ==>
            groups[k].group in Headers && groups[k].group.row == groups[k].row)
      && (forall h :: h in Headers ==> h.row < rows.Length)
      && (selectedGroup != null ==> selectedGroup in Headers)
      && (forall h :: h in Headers && GroupSelected in h.classes ==> h == selectedGroup)
    }

    ghost function DetectorState(): Detector
      reads this
    {
      Detector(groups, currentGroupName, resetGroups)
    }

    /** A fresh grouper: no groups, the marker null, the reset flag set, nothing selected. */
    constructor (groupBy: string, rows: array<Row>)
      ensures Valid()
      ensures this.groupBy == groupBy && this.rows == rows
      ensures groups == [] && currentGroupName == Null && resetGroups
      ensures selectedGroup == null && selectedRows == {} && Headers == {}
    {
      this.groupBy := groupBy;
      this.rows := rows;
      selectedRows := {};
      groups := [];
      currentGroupName := Null;
      resetGroups := true;
      selectedGroup := null;
      Headers := {};
    }

    /** The host table unselects a row. */
    method UnselectRow(r: nat)
      modifies this`selectedRows
      ensures selectedRows == old(selectedRows) - {r}
    {
      selectedRows := selectedRows - {r};
    }

    /** The row formatter, called by the host for row `tr` as it formats it. */
    method RowFormatter(tr: nat) returns (proceed: bool)
      requires Valid() && tr < rows.Length
      modifies this, rows
      ensures Valid()
      ensures DetectorState() == Step(old(DetectorState()), KeyOf(old(rows[tr]), groupBy), tr)
      ensures var key := KeyOf(old(rows[tr]), groupBy);
        var pending := if old(resetGroups) then [] else old(groups);
        var marker := if old(resetGroups) then Null else old(currentGroupName);
        && (!LooseEq(key, marker) ==>
              groups == pending + [GroupRecord(key, tr, null)]
              && rows[tr].classes == old(rows[tr].classes) + {GroupFirstRow})
        && (LooseEq(key, marker) ==>
              groups == pending && rows[tr].classes == old(rows[tr].classes))
        && currentGroupName == key
        && !resetGroups
      ensures rows[tr] == old(rows[tr]).(classes := rows[tr].classes)
      ensures forall j :: 0 <= j < rows.Length && j != tr ==> rows[j] == old(rows[j])
      ensures selectedGroup == old(selectedGroup) && selectedRows == old(selectedRows)
      ensures Headers == old(Headers)
      ensures proceed
    {
      if resetGroups {
        groups := [];
        currentGroupName := Null;
        resetGroups := false;
      }
      var groupName := KeyOf(rows[tr], groupBy);
      if !LooseEq(groupName, currentGroupName) {
        groups := groups + [GroupRecord(groupName, tr, null)];
        rows[tr] := rows[tr].(classes := rows[tr].classes + {GroupFirstRow});
      }
      currentGroupName := groupName;
      proceed := true;
    }

    /** The host formatting every row of a render pass in order, calling the
        row formatter for each. Starting from a reset state, the pass detects
        one record per run start and marks exactly the run starts as leading. */
    method FormatRows()
      requires Valid() && resetGroups
      modifies this, rows
      ensures Valid() && Headers == old(Headers)
      ensures selectedGroup == old(selectedGroup) && selectedRows == old(selectedRows)
      ensures var keys := KeysOf(old(rows[..]), groupBy);
        && rows[..] == MarkLeaders(old(rows[..]), keys)
        && (rows.Length == 0 ==> DetectorState() == old(DetectorState()))
        && (rows.Length > 0 ==>
              groups == Detected(keys) && currentGroupName == keys[rows.Length - 1] && !resetGroups)
    {
      ghost var rows0 := rows[..];
      ghost var keys := KeysOf(rows0, groupBy);
      ghost var d := DetectorState();
      var tr := 0;
      assert keys[..0] == [];
      while tr < rows.Length
        invariant 0 <= tr <= rows.Length
        invariant Valid() && Headers == old(Headers)
        invariant selectedGroup == old(selectedGroup) && selectedRows == old(selectedRows)
        invariant FormattedUpTo(d, rows0, keys, tr)
      {
        FormatNext(d, rows0, keys, tr);
        tr := tr + 1;
      }
      assert keys[..tr] == keys;
      assert rows[..] == MarkLeaders(rows0, keys);
      if rows.Length > 0 {
        PassDetects(d, keys);
        PassRecordsRunStarts(d, keys);
      }
    }

    /** The state part-way through a formatting pass started from `d`: rows
        before `tr` are formatted, the rest untouched, and the detector has
        consumed their keys. */
    ghost predicate FormattedUpTo(d: Detector, rows0: seq<Row>, keys: seq<Key>, tr: nat)
      reads this, rows
    {
      && d.reset && tr <= rows.Length == |rows0| == |keys|
      && keys == KeysOf(rows0, groupBy)
      && DetectorState() == Pass(d, keys[..tr])
      && forall j :: 0 <= j < rows.Length ==>
           rows[j] == if j < tr then MarkLeaders(rows0, keys)[j] else rows0[j]
    }

    /** One step of a formatting pass: the row formatter on row `tr`. */
    method FormatNext(ghost d: Detector, ghost rows0: seq<Row>, ghost keys: seq<Key>, tr: nat)
      requires Valid() && FormattedUpTo(d, rows0, keys, tr) && tr < rows.Length
      modifies this, rows
      ensures Valid() && FormattedUpTo(d, rows0, keys, tr + 1) && Headers == old(Headers)
      ensures selectedGroup == old(selectedGroup) && selectedRows == old(selectedRows)
    {
      MarkerBeforeRow(d, keys, tr);
      var proceed := RowFormatter(tr);
    }

    /** A render pass: the host formats every row, then the after-render
        handler materialises the groups. Each run start gets one fresh header,
        in row order, built from its key and its marked row. */
    method RenderPass()
      requires Valid() && resetGroups
      modifies this, rows
      ensures Valid() && resetGroups
      ensures var keys := KeysOf(old(rows[..]), groupBy);
        var marked := MarkLeaders(old(rows[..]), keys);
        rows.Length > 0 ==>
          && HeadersBuilt(groups, Detected(keys), marked, Headers)
          && Distinct(groups, |groups|)
          && Stripped(rows, marked, RowSet(Detected(keys)))
          && (forall k :: 0 <= k < |groups| ==> fresh(groups[k].group))
      ensures rows.Length == 0 ==> groups == old(groups) && Headers == old(Headers)
      ensures old(Headers) <= Headers && forall h :: h in Headers ==> h in old(Headers) || fresh(h)
      ensures selectedGroup == old(selectedGroup) && selectedRows == old(selectedRows)
    {
      FormatRows();
      InitGroups();
    }

    /** Materialises the pending groups: one header per record, in list order,
        then sets the reset flag. With the flag already set it does nothing, so
        a second call creates no duplicate headers. */
    method InitGroups()
      requires Valid()
      modifies this, rows
      ensures Valid() && resetGroups
      ensures old(resetGroups) ==> groups == old(groups) && Headers == old(Headers) && rows[..] == old(rows[..])
      ensures !old(resetGroups) ==>
        && HeadersBuilt(groups, old(groups), old(rows[..]), Headers)
        && Distinct(groups, |groups|)
        && Stripped(rows, old(rows[..]), RowSet(old(groups)))
        && (forall k :: 0 <= k < |groups| ==> fresh(groups[k].group))
        && (forall h :: h in Headers ==> h in old(Headers) || fresh(h))
      ensures old(Headers) <= Headers
      ensures currentGroupName == old(currentGroupName)
      ensures selectedGroup == old(selectedGroup) && selectedRows == old(selectedRows)
    {
      if !resetGroups {
        ghost var before := groups;
        ghost var rows0 := rows[..];
        ghost var index: map<Header?, nat> := map[];
        var i := 0;
        while i < |groups|
          invariant 0 <= i <= |groups| == |before| && |rows0| == rows.Length
          modifies this`groups, this`Headers, rows
          invariant Valid()
          invariant Materialised(before, rows0, i, index)
          invariant forall k :: 0 <= k < i ==> fresh(groups[k].group)
          invariant forall h :: h in Headers ==> h in old(Headers) || fresh(h)
          invariant old(Headers) <= Headers
        {
          var header := MaterialiseNext(before, rows0, i, index);
          index := index[header := i];
          i := i + 1;
        }
        assert before[..i] == before;
        ProgressComplete(groups, before, rows0, Headers, index);
        resetGroups := true;
      }
    }

    /** The first `i` records of `before` have their headers, built from the
        rows as they were in `rows0`; the rest are untouched; the rows that lead
        the first `i` records have lost the first-row marker. */
    ghost predicate Materialised(before: seq<GroupRecord>, rows0: seq<Row>, i: nat, index: map<Header?, nat>)
      reads this, rows, Headers
    {
      && Progress(groups, before, rows0, i, Headers, index)
      && |rows0| == rows.Length
      && Stripped(rows, rows0, RowSet(before[..i]))
    }

    /** Materialises record `i`: builds its header, strips the first-row
        marker from its leading row and records the header. */
    method MaterialiseNext(ghost before: seq<GroupRecord>, ghost rows0: seq<Row>, i: nat, ghost index: map<Header?, nat>)
      returns (header: Header)
      requires Valid() && Materialised(before, rows0, i, index) && i < |groups|
      modifies this`groups, this`Headers, rows
      ensures Valid() && Materialised(before, rows0, i + 1, index[header := i])
      ensures fresh(header) && groups[i].group == header
      ensures Headers == old(Headers) + {header}
      ensures forall k :: 0 <= k < |groups| && k != i ==> groups[k] == old(groups[k])
    {
      header := BuildNext(before, rows0, i, index);
      AttachNext(before, rows0, i, header, index);
    }

    /** Builds the header for record `i` and strips the first-row marker
        from its leading row. */
    method BuildNext(ghost before: seq<GroupRecord>, ghost rows0: seq<Row>, i: nat, ghost index: map<Header?, nat>)
      returns (header: Header)
      requires Progress(groups, before, rows0, i, Headers, index) && i < |groups|
      requires |rows0| == rows.Length && Stripped(rows, rows0, RowSet(before[..i]))
      modifies rows
      ensures fresh(header) && BuiltFor(header, before, rows0, i)
      ensures Stripped(rows, rows0, RowSet(before[..i + 1]))
    {
      ghost var done := RowSet(before[..i]);
      var row := groups[i].row;
      assert YuiDtFirst in rows[row].classes <==> YuiDtFirst in rows0[row].classes && FirstForRow(before, i);
      header := InsertGroup(groups[i].name, row);
      assert before[..i + 1][..i] == before[..i];
      assert RowSet(before[..i + 1]) == done + {row};
    }

    /** Records header `header` for record `i`. */
    method AttachNext(ghost before: seq<GroupRecord>, ghost rows0: seq<Row>, i: nat, header: Header,
                      ghost index: map<Header?, nat>)
      requires Valid() && i < |groups|
      requires Progress(groups, before, rows0, i, Headers, index)
      requires BuiltFor(header, before, rows0, i) && header !in Headers
      modifies this`groups, this`Headers
      ensures Valid()
      ensures Progress(groups, before, rows0, i + 1, Headers, index[header := i])
      ensures groups == old(groups)[i := old(groups[i]).(group := header)]
      ensures Headers == old(Headers) + {header}
    {
      AttachStep(groups, before, rows0, i, header, Headers, index);
      groups := groups[i := groups[i].(group := header)];
      Headers := Headers + {header};
    }

    /** Builds the header for the group led by row `row`: expanded, taking over
        the table's first-row marker if the row had it, as wide as the row. */
    method InsertGroup(name: Key, row: nat) returns (group: Header)
      requires row < rows.Length
      modifies rows
      ensures fresh(group)
      ensures group.row == row && group.name == name
      ensures group.classes == {Group, GroupExpanded} +
        (if YuiDtFirst in old(rows[row].classes) then {GroupFirst} else {})
      ensures group.width == rows[row].width
      ensures rows[row] == old(rows[row]).(classes := old(rows[row].classes) - {YuiDtFirst})
      ensures forall j :: 0 <= j < rows.Length && j != row ==> rows[j] == old(rows[j])
    {
      var classes := {Group, GroupExpanded};
      if YuiDtFirst in rows[row].classes {
        rows[row] := rows[row].(classes := rows[row].classes - {YuiDtFirst});
        classes := classes + {GroupFirst};
      }
      group := new Header(row, name, classes, 0);
      SetGroupWidth(group, row);
    }

    /** Sets a header's width to its row's rendered width. */
    method SetGroupWidth(group: Header, row: nat)
      requires row < rows.Length
      modifies group
      ensures group.width == rows[row].width
      ensures group.classes == old(group.classes)
    {
      group.width := rows[row].width;
    }

    /** Resizes every header to its row's width, in list order. A record whose
        header was never materialised makes `resizeGroups` throw a TypeError
        (it dereferences null); the model stops there and reports `fault`. */
    method ResizeGroups() returns (fault: bool)
      requires Valid()
      modifies Headers
      ensures Valid()
      ensures fault <==> MaterialisedPrefix(groups) < |groups|
      ensures forall h :: h in Headers ==>
        h.width == if h in HeadersOf(groups[..MaterialisedPrefix(groups)]) then rows[h.row].width else old(h.width)
      ensures forall h :: h in Headers ==> h.classes == old(h.classes)
      ensures groups == [] ==> forall h :: h in Headers ==> h.width == old(h.width)
    {
      var i := 0;
      ghost var resized: set<Header?> := {};
      while i < |groups|
        invariant 0 <= i <= |groups|
        invariant forall k :: 0 <= k < i ==> groups[k].group != null
        invariant resized == HeadersOf(groups[..i])
        invariant forall h :: h in Headers ==> h.classes == old(h.classes)
        invariant forall h :: h in Headers ==>
          h.width == if h in resized then rows[h.row].width else old(h.width)
      {
        var header := groups[i].group;
        if header == null {
          fault := true;
          return;
        }
        SetGroupWidth(header, groups[i].row);
        assert HeadersOf(groups[..i + 1]) == resized + {header};
        resized := resized + {header};
        i := i + 1;
      }
      assert groups[..i] == groups;
      fault := false;
    }

    /** Selects a header: unselects the previous one, marks and records the new
        one, and unselects every selected row of the table. */
    method SelectGroup(group: Header)
      requires Valid() && group in Headers
      modifies this, Headers
      ensures Valid()
      ensures selectedGroup == group
      ensures group.classes == old(group.classes) + {GroupSelected}
      ensures var previous := old(selectedGroup);
        previous != null && previous != group ==> previous.classes == old(previous.classes) - {GroupSelected}
      ensures forall h :: h in old(Headers) && h != group && h != old(selectedGroup) ==> h.classes == old(h.classes)
      ensures forall h :: h in old(Headers) ==> h.width == old(h.width)
      ensures forall h :: h in Headers && GroupSelected in h.classes ==> h == group
      ensures selectedRows == {}
      ensures groups == old(groups) && currentGroupName == old(currentGroupName)
      ensures resetGroups == old(resetGroups) && Headers == old(Headers)
    {
      UnselectGroup();
      group.classes := group.classes + {GroupSelected};
      selectedGroup := group;
      var selected := selectedRows;
      while selected != {}
        invariant selectedRows == selected
        modifies this`selectedRows
        decreases selected
      {
        var r :| r in selected;
        UnselectRow(r);
        selected := selected - {r};
      }
    }

    /** Unselects the selected header, if any. The reference to it is kept. */
    method UnselectGroup()
      requires Valid()
      modifies Headers
      ensures Valid()
      ensures selectedGroup == old(selectedGroup)
      ensures selectedGroup != null ==> selectedGroup.classes == old(selectedGroup.classes) - {GroupSelected}
      ensures forall h :: h in Headers && h != selectedGroup ==> h.classes == old(h.classes)
      ensures forall h :: h in Headers ==> h.width == old(h.width)
      ensures forall h :: h in Headers ==> GroupSelected !in h.classes
    {
      if selectedGroup != null {
        selectedGroup.classes := selectedGroup.classes - {GroupSelected};
      }
    }

    /** Collapses an expanded group, or expands a collapsed one: swaps the
        header's and the leading row's classes, then hides (or shows) the rows
        after the leading row up to the next leading row or the end. */
    method ToggleVisibility(group: Header)
      requires Valid() && group in Headers
      modifies group, rows
      ensures Valid()
      ensures var collapse := old(GroupExpanded in group.classes);
        && group.classes == SwapHeader(old(group.classes), collapse)
        && rows[..] == Toggled(old(rows[..]), group.row, collapse)
      ensures group.width == old(group.width)
    {
      var row := group.row;
      var collapse := GroupExpanded in group.classes;
      group.classes := SwapHeader(group.classes, collapse);
      rows[row] := rows[row].(classes := SwapLeader(rows[row].classes, collapse));
      var i := row + 1;
      while i < rows.Length && !IsLeading(rows[i])
        modifies rows
        invariant row + 1 <= i <= rows.Length
        invariant forall j :: row < j < i ==> !IsLeading(old(rows[j]))
        invariant rows[row] == old(rows[row]).(classes := SwapLeader(old(rows[row].classes), collapse))
        invariant forall j :: row < j < i ==> rows[j] == old(rows[j]).(display := RunDisplay(collapse))
        invariant forall j :: 0 <= j < rows.Length && (j < row || i <= j) ==> rows[j] == old(rows[j])
        decreases rows.Length - i
      {
        rows[i] := rows[i].(display := RunDisplay(collapse));
        i := i + 1;
      }
      assert i == RunEnd(old(rows[..]), row + 1);
    }
  }
  /** `gs` is `before` with headers filled in for the first `i` records only:
      each is one of `hs`, is the header built for its record, and `index` maps
      it back to the record's position. */
  ghost predicate Progress(gs: seq<GroupRecord>, before: seq<GroupRecord>, rows0: seq<Row>, i: nat,
                           hs: set<Header>, index: map<Header?, nat>)
    reads hs
  {
    && i <= |gs| == |before|
    && forall k :: 0 <= k < |gs| ==>
         && before[k].row < |rows0|
         && if k < i then
              && gs[k] == before[k].(group := gs[k].group)
              && gs[k].group in hs && gs[k].group in index && index[gs[k].group] == k
              && BuiltFor(gs[k].group, before, rows0, k)
            else gs[k] == before[k]
  }

  /** The header `InsertGroup` builds for record `k` of `before` from the rows
      as they were in `rows0`. */
  ghost predicate BuiltFor(h: Header?, before: seq<GroupRecord>, rows0: seq<Row>, k: nat)
    requires k < |before| && before[k].row < |rows0|
    reads h
  {
    && h != null
    && h.row == before[k].row && h.name == before[k].name
    && h.width == rows0[before[k].row].width
    && h.classes == {Group, GroupExpanded} +
         (if YuiDtFirst in rows0[before[k].row].classes && FirstForRow(before, k)
          then {GroupFirst} else {})
  }

  /** The first `i` records of `gs` have pairwise distinct headers. */
  ghost predicate Distinct(gs: seq<GroupRecord>, i: nat)
  {
    forall k1, k2 :: 0 <= k1 < k2 < i && k2 < |gs| ==> gs[k1].group != gs[k2].group
  }

  /** Every record of `gs` is its record in `before` with, as its header, one
      of `hs` built for it from the rows as they were in `rows0`. */
  ghost predicate HeadersBuilt(gs: seq<GroupRecord>, before: seq<GroupRecord>, rows0: seq<Row>, hs: set<Header>)
    reads hs
  {
    && |gs| == |before|
    && forall k :: 0 <= k < |gs| ==>
         && before[k].row < |rows0|
         && gs[k] == before[k].(group := gs[k].group)
         && gs[k].group in hs
         && BuiltFor(gs[k].group, before, rows0, k)
  }

  /** After a render pass, group `k`'s header sits on the `k`th run start,
      shows that row's key and width, and carries the first-group class
      exactly when that row carried the host's first-row marker. */
  lemma RenderedHeaders(gs: seq<GroupRecord>, keys: seq<Key>, rows0: seq<Row>, hs: set<Header>)
    requires |rows0| == |keys|
    requires HeadersBuilt(gs, Detected(keys), MarkLeaders(rows0, keys), hs)
    ensures |gs| == |RunStarts(keys)|
    ensures forall k :: 0 <= k < |gs| ==>
      var r := RunStarts(keys)[k];
      && r < |rows0| && gs[k].row == r && gs[k].name == keys[r]
      && gs[k].group != null && gs[k].group.row == r && gs[k].group.name == keys[r]
      && gs[k].group.width == rows0[r].width
      && Group in gs[k].group.classes && GroupExpanded in gs[k].group.classes
      && (GroupFirst in gs[k].group.classes <==> YuiDtFirst in rows0[r].classes)
  {
  }

  /** Once every record is filled in, every header is built for its record and
      no two records share one. */
  lemma ProgressComplete(gs: seq<GroupRecord>, before: seq<GroupRecord>, rows0: seq<Row>,
                         hs: set<Header>, index: map<Header?, nat>)
    requires Progress(gs, before, rows0, |gs|, hs, index)
    ensures HeadersBuilt(gs, before, rows0, hs) && Distinct(gs, |gs|)
  {
  }

  /** The rows listed in `done` have lost the first-row marker they had in
      `rows0`; every other row is as it was. */
  ghost predicate Stripped(rows: array<Row>, rows0: seq<Row>, done: set<nat>)
    requires |rows0| == rows.Length
    reads rows
  {
    forall j :: 0 <= j < rows.Length ==>
      rows[j] == if j in done then rows0[j].(classes := rows0[j].classes - {YuiDtFirst}) else rows0[j]
  }

  /** Attaching a new header built for record `i` extends the filled-in prefix. */
  lemma AttachStep(gs: seq<GroupRecord>, before: seq<GroupRecord>, rows0: seq<Row>, i: nat, h: Header,
                   hs: set<Header>, index: map<Header?, nat>)
    requires Progress(gs, before, rows0, i, hs, index)
    requires i < |gs| && BuiltFor(h, before, rows0, i) && h !in hs
    ensures Progress(gs[i := gs[i].(group := h)], before, rows0, i + 1, hs + {h}, index[h := i])
  {
    var gs' := gs[i := gs[i].(group := h)];
    forall k | 0 <= k < |gs'|
      ensures gs'[k] == if k < i + 1 then before[k].(group := gs'[k].group) else before[k]
      ensures k < i + 1 ==> BuiltFor(gs'[k].group, before, rows0, k)
    {
      if k != i {
        assert gs'[k] == gs[k];
      }
    }
  }
}
