/** The part of the page the grouper touches: table rows, the group headers it
    inserts, and the class names external stylesheets rely on. */
module Dom {
  import opened Keys

  // Class names: a stable interface with the stylesheets.
  const Group := "group"
  const GroupExpanded := "group-expanded"
  const GroupCollapsed := "group-collapsed"
  const GroupSelected := "group-selected"
  const GroupFirst := "group-first"
  const GroupFirstRow := "group-first-row"
  const GroupFirstRowCollapsed := "group-first-row-collapsed"
  /** The host table's marker on its first row. */
  const YuiDtFirst := "yui-dt-first"

  /** A row's inline `style.display`: unset, `none` or `table-row`. */
  datatype Display = Normal | Hidden | TableRow

  /** A table row: its data record, its class names, its inline display and its
      rendered width (a layout measurement, taken as given). */
  datatype Row = Row(record: Record, classes: set<string>, display: Display, width: int)

  /** The key a row's record yields for the grouping field. */
  function KeyOf(r: Row, field: string): Key
  {
    GetData(r.record, field)
  }

  /** The keys of all rows, in render order. */
  function KeysOf(rows: seq<Row>, field: string): seq<Key>
  {
    seq(|rows|, i requires 0 <= i < |rows| => KeyOf(rows[i], field))
  }

  /** `Dom.replaceClass(el, from, to)`: `from` is removed and `to` is present
      afterwards, even when `from` was absent; no other class changes. */
  function ReplaceClass(classes: set<string>, from: string, to: string): (r: set<string>)
    ensures to in r
    ensures from != to ==> from !in r
    ensures forall c :: c != from && c != to ==> (c in r <==> c in classes)
  {
    classes - {from} + {to}
  }

  /** A row that leads a group, whether its group is expanded or collapsed. */
  predicate IsLeading(r: Row)
  {
    GroupFirstRow in r.classes || GroupFirstRowCollapsed in r.classes
  }

  /** A group header element. It sits inside the first cell of its leading row,
      so the row it belongs to never changes; its classes and width do. */
  class Header {
    /** Index of the leading row whose first cell holds this header. */
    const row: nat
    /** The group name shown in the header's label. */
    const name: Key
    var classes: set<string>
    var width: int

    constructor (row: nat, name: Key, classes: set<string>, width: int)
      ensures this.row == row && this.name == name
      ensures this.classes == classes && this.width == width
    {
      this.row := row;
      this.name := name;
      this.classes := classes;
      this.width := width;
    }
  }
}
