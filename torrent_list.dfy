/**
 * The stored torrent list of webtor-torrents-ui.v10.js: loading with its
 * filter and normalisation, the add handler and the delete handler.
 *
 * `localStorage` and JSON are abstracted: the stored text is either absent,
 * not JSON, JSON that is not an array, or an array whose elements are
 * described only as far as the loader inspects them.
 */
module TorrentList {
  import opened Locator

  /**
   * A property of a stored element: `undefined`, a string, or any other JSON
   * value, given by its truthiness and the text `String(...)` makes of it.
   */
  datatype Field = Absent | Str(s: string) | Other(truthy: bool, text: string)

  /** An element of the stored array: an object with its `url` and `name`, or anything else. */
  datatype RawItem = NonObject | Object(url: Field, name: Field)

  datatype Stored = Missing | Unparseable | NotArray | Array(items: seq<RawItem>)

  datatype Torrent = Torrent(name: string, url: string)

  const DefaultName: string := "Torrent"

  predicate Truthy(f: Field) {
    match f
    case Absent => false
    case Str(s) => s != ""
    case Other(t, _) => t
  }

  /** `String(v)`. */
  function Text(f: Field): string {
    match f
    case Absent => "undefined"
    case Str(s) => s
    case Other(_, text) => text
  }

  /** `String(x.name || 'Torrent')`. */
  function NameOf(f: Field): string {
    if Truthy(f) then Text(f) else DefaultName
  }

  /** The loader's filter: `x && typeof x.url === 'string' && (isMagnet(x.url) || isTorrentUrl(x.url))`. */
  predicate Keep(x: RawItem) {
    x.Object? && x.url.Str? && IsPlayable(x.url.s)
  }

  /** The loader's map, on elements that passed the filter. */
  function Normalize(x: RawItem): Torrent
    requires Keep(x)
  {
    Torrent(NameOf(x.name), x.url.s)
  }

  /** `Array.prototype.filter`. */
  function Filter<T>(s: seq<T>, keep: T -> bool): (r: seq<T>)
    ensures |r| <= |s|
    ensures forall k :: 0 <= k < |r| ==> keep(r[k])
  {
    if s == [] then []
    else if keep(s[0]) then [s[0]] + Filter(s[1..], keep)
    else Filter(s[1..], keep)
  }

  /** `safeParse(...)` followed by `Array.isArray(arr) ? arr : []`; absent storage reads as `'[]'`. */
  function Items(st: Stored): seq<RawItem> {
    if st.Array? then st.items else []
  }

  /** `loadTorrents` (lines 18-23). */
  function Load(st: Stored): seq<Torrent> {
    var kept := Filter(Items(st), Keep);
    seq(|kept|, k requires 0 <= k < |kept| => Normalize(kept[k]))
  }

  /** `saveTorrents` (line 24): every entry written back as an object with string `name` and `url`. */
  function Save(list: seq<Torrent>): Stored {
    Array(seq(|list|, k requires 0 <= k < |list| => Object(Str(list[k].url), Str(list[k].name))))
  }

  /** The add handler (lines 73-83) on the stored value, given the two input fields. */
  function Added(st: Stored, nameInput: string, urlInput: string): Stored {
    var url := Trim(urlInput);
    var name := if Trim(nameInput) == "" then DefaultName else Trim(nameInput);
    if !IsMagnet(url) && !IsTorrentUrl(url) then st
    else Save([Torrent(name, url)] + Load(st))
  }

  function UrlIsNot(url: string): Torrent -> bool {
    (t: Torrent) => t.url != url
  }

  /** The delete handler (lines 126-130) for the entry whose url is `url`. */
  function Deleted(st: Stored, url: string): Stored {
    Save(Filter(Load(st), UrlIsNot(url)))
  }

  /** What a list looks like after a save and a load: empty names come back as the default name. */
  function Reloaded(list: seq<Torrent>): seq<Torrent> {
    seq(|list|, k requires 0 <= k < |list| =>
      Torrent(if list[k].name == "" then DefaultName else list[k].name, list[k].url))
  }

  // ---------------------------------------------------------------------------
  // Properties
  // ---------------------------------------------------------------------------

  /** The positions of `s` whose elements pass `keep`, in increasing order. */
  function Selected<T>(s: seq<T>, keep: T -> bool): seq<nat> {
    if s == [] then []
    else
      var rest := Selected(s[1..], keep);
      var shifted := seq(|rest|, k requires 0 <= k < |rest| => rest[k] + 1);
      if keep(s[0]) then [0] + shifted else shifted
  }

  lemma {:induction false} SelectedPicks<T>(s: seq<T>, keep: T -> bool)
    ensures |Selected(s, keep)| == |Filter(s, keep)|
    ensures forall k :: 0 <= k < |Selected(s, keep)| ==>
      Selected(s, keep)[k] < |s| && Filter(s, keep)[k] == s[Selected(s, keep)[k]]
  {
    if s != [] {
      SelectedPicks(s[1..], keep);
    }
  }

  lemma {:induction false} SelectedIncreasing<T>(s: seq<T>, keep: T -> bool)
    ensures forall k :: 0 <= k < |Selected(s, keep)| ==> Selected(s, keep)[k] < |s|
    ensures forall k, l :: 0 <= k < l < |Selected(s, keep)| ==> Selected(s, keep)[k] < Selected(s, keep)[l]
  {
    if s != [] {
      SelectedIncreasing(s[1..], keep);
    }
  }

  lemma {:induction false} SelectedComplete<T>(s: seq<T>, keep: T -> bool)
    ensures forall i :: 0 <= i < |s| && keep(s[i]) ==> i in Selected(s, keep)
  {
    if s != [] {
      var rest := Selected(s[1..], keep);
      var idx := Selected(s, keep);
      var shifted := seq(|rest|, k requires 0 <= k < |rest| => rest[k] + 1);
      SelectedComplete(s[1..], keep);
      forall i | 1 <= i < |s| && keep(s[i]) ensures i in idx {
        assert s[1..][i - 1] == s[i];
        var k :| 0 <= k < |rest| && rest[k] == i - 1;
        assert shifted[k] == i;
        if keep(s[0]) {
          assert idx[k + 1] == i;
        }
      }
    }
  }

  /**
   * Filter keeps exactly the elements that pass, in their original order: the
   * result is `s` read at a strictly increasing sequence of indices, which
   * contains every index whose element passes.
   */
  lemma FilterSelects<T>(s: seq<T>, keep: T -> bool) returns (idx: seq<nat>)
    ensures |idx| == |Filter(s, keep)|
    ensures forall k :: 0 <= k < |idx| ==> idx[k] < |s| && Filter(s, keep)[k] == s[idx[k]]
    ensures forall k, l :: 0 <= k < l < |idx| ==> idx[k] < idx[l]
    ensures forall i :: 0 <= i < |s| && keep(s[i]) ==> i in idx
  {
    idx := Selected(s, keep);
    SelectedPicks(s, keep);
    SelectedIncreasing(s, keep);
    SelectedComplete(s, keep);
  }

  /** Filter changes nothing when every element passes. */
  lemma {:induction false} FilterAll<T>(s: seq<T>, keep: T -> bool)
    requires forall k :: 0 <= k < |s| ==> keep(s[k])
    ensures Filter(s, keep) == s
  {
    if s != [] {
      FilterAll(s[1..], keep);
    }
  }

  /**
   * Loading yields only entries whose url is a magnet link or a torrent URL,
   * no more entries than stored, and nothing at all from an absent, malformed
   * or non-array value.
   */
  lemma LoadFilters(st: Stored)
    ensures forall k :: 0 <= k < |Load(st)| ==> IsPlayable(Load(st)[k].url)
    ensures |Load(st)| <= |Items(st)|
    ensures !st.Array? ==> Load(st) == []
  {
  }

  /**
   * Loading reads the stored array at increasing positions, skipping exactly
   * the elements that fail the filter; each entry keeps its url and takes its
   * stored name, or "Torrent" when that name is falsy.
   */
  lemma LoadKeepsOrder(st: Stored) returns (idx: seq<nat>)
    ensures |idx| == |Load(st)|
    ensures forall k, l :: 0 <= k < l < |idx| ==> idx[k] < idx[l]
    ensures forall i :: 0 <= i < |Items(st)| && Keep(Items(st)[i]) ==> i in idx
    ensures forall k :: 0 <= k < |idx| ==>
      && idx[k] < |Items(st)| && Keep(Items(st)[idx[k]])
      && Load(st)[k].url == Items(st)[idx[k]].url.s
      && Load(st)[k].name == (if Truthy(Items(st)[idx[k]].name) then Text(Items(st)[idx[k]].name) else DefaultName)
  {
    idx := FilterSelects(Items(st), Keep);
  }

  /** Saving a list of playable entries and loading it again gives the list back, empty names replaced by "Torrent". */
  lemma LoadSave(list: seq<Torrent>)
    requires forall k :: 0 <= k < |list| ==> IsPlayable(list[k].url)
    ensures Load(Save(list)) == Reloaded(list)
  {
    var items := Items(Save(list));
    FilterAll(items, Keep);
  }

  /** With no empty names, save then load is the identity. */
  lemma LoadSaveRoundTrip(list: seq<Torrent>)
    requires forall k :: 0 <= k < |list| ==> IsPlayable(list[k].url) && list[k].name != ""
    ensures Load(Save(list)) == list
  {
    LoadSave(list);
  }

  /**
   * The add handler leaves storage alone when the trimmed url is not playable;
   * otherwise the stored list becomes the new entry followed by the previously
   * loaded list.  An existing entry with the same url is kept.
   */
  lemma AddPrepends(st: Stored, nameInput: string, urlInput: string)
    ensures !IsPlayable(urlInput) ==> Added(st, nameInput, urlInput) == st
    ensures IsPlayable(urlInput) ==>
      var name := if Trim(nameInput) == "" then DefaultName else Trim(nameInput);
      Load(Added(st, nameInput, urlInput)) == [Torrent(name, Trim(urlInput))] + Reloaded(Load(st))
  {
    ClassifyTrimmed(urlInput);
    if IsPlayable(urlInput) {
      var name := if Trim(nameInput) == "" then DefaultName else Trim(nameInput);
      PrependReloads(st, Torrent(name, Trim(urlInput)));
    }
  }

  lemma PrependReloads(st: Stored, t: Torrent)
    requires IsPlayable(t.url) && t.name != ""
    ensures Load(Save([t] + Load(st))) == [t] + Reloaded(Load(st))
  {
    var loaded := Load(st);
    var list := [t] + loaded;
    LoadFilters(st);
    forall k | 0 <= k < |list| ensures IsPlayable(list[k].url) {
      if k > 0 {
        assert list[k] == loaded[k - 1];
      }
    }
    LoadSave(list);
    forall k | 0 <= k < |list| ensures Reloaded(list)[k] == ([t] + Reloaded(loaded))[k] {
      if k > 0 {
        assert list[k] == loaded[k - 1];
      }
    }
  }

  /**
   * After deleting a url no loaded entry has that url; the others are those
   * loaded before, in their order.
   */
  lemma DeleteRemoves(st: Stored, url: string) returns (idx: seq<nat>)
    ensures var before := Load(st);
      var after := Load(Deleted(st, url));
      && (forall k :: 0 <= k < |after| ==> after[k].url != url)
      && |idx| == |after|
      && (forall k, l :: 0 <= k < l < |idx| ==> idx[k] < idx[l])
      && (forall k :: 0 <= k < |idx| ==> idx[k] < |before| && after[k] == Reloaded(before)[idx[k]])
      && (forall i :: 0 <= i < |before| && before[i].url != url ==> i in idx)
  {
    var before := Load(st);
    var kept := Filter(before, UrlIsNot(url));
    idx := FilterSelects(before, UrlIsNot(url));
    LoadFilters(st);
    assert forall k :: 0 <= k < |kept| ==> kept[k] == before[idx[k]];
    LoadSave(kept);
    forall i | 0 <= i < |before| && before[i].url != url ensures i in idx {
      assert UrlIsNot(url)(before[i]);
    }
  }

  /** The stored list as the page sees it through `localStorage`. */
  class TorrentStore {
    var stored: Stored

    constructor (initial: Stored)
      ensures stored == initial
    {
      stored := initial;
    }

    /** `loadTorrents()`. */
    function Torrents(): seq<Torrent>
      reads this
    {
      Load(stored)
    }

    /** The add button's handler, given the values of the name and url inputs. */
    method Add(nameInput: string, urlInput: string)
      modifies this
      ensures stored == Added(old(stored), nameInput, urlInput)
    {
      var url := Trim(urlInput);
      var name := Trim(nameInput);
      if name == "" {
        name := DefaultName;
      }
      if !IsMagnet(url) && !IsTorrentUrl(url) {
        return;
      }
      var cur := Torrents();
      cur := [Torrent(name, url)] + cur;
      stored := Save(cur);
    }

    /** The delete button's handler for the entry whose url is `url`. */
    method Delete(url: string)
      modifies this
      ensures stored == Deleted(old(stored), url)
    {
      var cur := Filter(Torrents(), UrlIsNot(url));
      stored := Save(cur);
    }
  }
}
