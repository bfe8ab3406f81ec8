/** Sequences of operations as the host drives them, and what they leave behind. */
module Scenarios {
  import opened Dom
  import opened DataTableGrouper
  import Visibility

  /** Unselecting twice has the effect of unselecting once: the selected class
      is gone from every header, nothing else about a header changes, and the
      reference to the last selected header is kept. */
  method UnselectTwice(g: Grouper)
    requires g.Valid()
    modifies g.Headers
    ensures g.Valid()
    ensures g.selectedGroup == old(g.selectedGroup)
    ensures forall h :: h in g.Headers ==>
      h.classes == old(h.classes) - {GroupSelected} && h.width == old(h.width)
  {
    g.UnselectGroup();
    g.UnselectGroup();
  }

  /** Selecting a header and then clicking a row (which unselects the group):
      no header and no row stays selected, yet the grouper still refers to
      the header it selected. */
  method SelectThenRowClick(g: Grouper, h: Header)
    requires g.Valid() && h in g.Headers
    modifies g, g.Headers
    ensures g.Valid()
    ensures g.selectedGroup == h && g.selectedRows == {}
    ensures forall x :: x in g.Headers ==> GroupSelected !in x.classes
    ensures h.classes == old(h.classes) - {GroupSelected}
  {
    g.SelectGroup(h);
    g.UnselectGroup();
  }

  /** A header built by an earlier pass stays in its row's first cell, so after
      another render pass it can still be clicked: it is still one of the
      controller's headers, and toggling it works as for any other header. */
  method RerenderThenToggleOld(g: Grouper, h: Header)
    requires g.Valid() && g.resetGroups && h in g.Headers
    modifies g, g.rows, h
    ensures g.Valid() && h in g.Headers
    ensures h.classes == Visibility.SwapHeader(old(h.classes), GroupExpanded in old(h.classes))
  {
    g.RenderPass();
    g.ToggleVisibility(h);
  }
}
