/**
 * `activateTorrentsTab` of webtor-torrents-ui.v10.js: the class-toggling rule
 * that makes the Torrents tab button and the `#torrentList` panel the active
 * ones.  The document is its elements in document order; each element's
 * `active` class is one flag of an array the method updates in place.
 */
module TorrentsTab {
  import opened Wrappers

  /** What the selectors look at in an element: its id, its classes `tab-btn` and `list`, and its `data-tab`. */
  datatype Elem = Elem(id: string, tabButton: bool, dataTab: Option<string>, list: bool)

  const TorrentListId: string := "torrentList"

  /** `.tab-btn`. */
  predicate IsTabButton(e: Elem) {
    e.tabButton
  }

  /** `.list`. */
  predicate IsList(e: Elem) {
    e.list
  }

  /** `.tab-btn[data-tab="torrents"]`. */
  predicate IsTorrentsButton(e: Elem) {
    e.tabButton && e.dataTab == Some("torrents")
  }

  predicate HasTorrentListId(e: Elem) {
    e.id == TorrentListId
  }

  /** `querySelector` / `getElementById`: the first element in document order that satisfies `p`. */
  function FirstWhere(elems: seq<Elem>, p: Elem -> bool): (r: Option<nat>)
    ensures r.Some? ==> r.value < |elems| && p(elems[r.value])
    ensures r.Some? ==> forall j :: 0 <= j < r.value ==> !p(elems[j])
    ensures r.None? <==> forall j :: 0 <= j < |elems| ==> !p(elems[j])
  {
    if elems == [] then None
    else if p(elems[0]) then Some(0)
    else
      match FirstWhere(elems[1..], p)
      case None => None
      case Some(k) => Some(k + 1)
  }

  /** The `active` flags after the rule, given those before. */
  function Activated(elems: seq<Elem>, flags: seq<bool>): seq<bool>
    requires |flags| == |elems|
  {
    var tb := FirstWhere(elems, IsTorrentsButton);
    var tl := FirstWhere(elems, HasTorrentListId);
    seq(|elems|, i requires 0 <= i < |elems| =>
      if tl == Some(i) then true
      else if elems[i].list then false
      else if tb == Some(i) then true
      else if elems[i].tabButton then false
      else flags[i])
  }

  /**
   * After the rule, `#torrentList` is active, the Torrents button is active
   * unless it is also a `.list` that is not `#torrentList`, no other tab button
   * and no other list is active, and every other element keeps its flag.
   */
  lemma ActivationOutcome(elems: seq<Elem>, flags: seq<bool>)
    requires |flags| == |elems|
    ensures var r := Activated(elems, flags);
      var tb := FirstWhere(elems, IsTorrentsButton);
      var tl := FirstWhere(elems, HasTorrentListId);
      && |r| == |elems|
      && (tl.Some? ==> r[tl.value])
      && (tb.Some? && (!elems[tb.value].list || tb == tl) ==> r[tb.value])
      && (forall i :: 0 <= i < |elems| && elems[i].tabButton && tb != Some(i) && tl != Some(i) ==> !r[i])
      && (forall i :: 0 <= i < |elems| && elems[i].list && tl != Some(i) ==> !r[i])
      && (forall i :: 0 <= i < |elems| && !elems[i].tabButton && !elems[i].list && tl != Some(i) ==> r[i] == flags[i])
  {
  }

  /** Activating the tab a second time changes nothing. */
  lemma ActivatedIdempotent(elems: seq<Elem>, flags: seq<bool>)
    requires |flags| == |elems|
    ensures Activated(elems, Activated(elems, flags)) == Activated(elems, flags)
  {
  }

  /** The page's elements and their `active` classes. */
  class TabPage {
    const elems: seq<Elem>
    const active: array<bool>

    ghost predicate Valid()
      reads this
    {
      active.Length == |elems|
    }

    constructor (elems: seq<Elem>, flags: seq<bool>)
      requires |flags| == |elems|
      ensures Valid() && this.elems == elems && active[..] == flags
      ensures fresh(active)
    {
      this.elems := elems;
      active := new bool[|flags|](i requires 0 <= i < |flags| => flags[i]);
    }

    /** `$all(sel).forEach(x => x.classList.remove('active'))` for the elements that match `sel`. */
    method Deactivate(sel: Elem -> bool)
      requires Valid()
      modifies active
      ensures forall j :: 0 <= j < active.Length ==>
        active[j] == (if sel(elems[j]) then false else old(active[j]))
    {
      for i := 0 to active.Length
        invariant forall j :: 0 <= j < i ==> active[j] == (if sel(elems[j]) then false else old(active[j]))
        invariant forall j :: i <= j < active.Length ==> active[j] == old(active[j])
      {
        if sel(elems[i]) {
          active[i] := false;
        }
      }
    }

    /** `el.classList.add('active')` for the element found, if any. */
    method ActivateFound(found: Option<nat>)
      requires Valid() && (found.Some? ==> found.value < active.Length)
      modifies active
      ensures forall j :: 0 <= j < active.Length ==>
        active[j] == (if found == Some(j) then true else old(active[j]))
    {
      if found.Some? {
        active[found.value] := true;
      }
    }

    /** The class-toggling part of `activateTorrentsTab`. */
    method ActivateTorrentsTab()
      requires Valid()
      modifies active
      ensures active[..] == Activated(elems, old(active[..]))
    {
      Deactivate(IsTabButton);
      var tb := FirstWhere(elems, IsTorrentsButton);
      ActivateFound(tb);
      Deactivate(IsList);
      var tl := FirstWhere(elems, HasTorrentListId);
      ActivateFound(tl);
    }
  }
}
