/**
 * The page as the overlay sees it, and `findAnchorElement`
 * (webtor-rect-overlay.v11.js:88-104): the element whose on-screen rectangle
 * the overlay copies.
 *
 * The DOM is abstracted to what the locator reads: the first element matching
 * each selector, the first `<video>` with its parent, the set of elements still
 * in the document and each element's bounding rectangle (already rounded to
 * whole pixels).
 */
module AnchorLocator {
  import opened Wrappers

  type ElemId = nat

  datatype Rect = Rect(left: int, top: int, width: int, height: int)

  /** The first `<video>` element of the document and its `parentElement`. */
  datatype Video = Video(el: ElemId, parent: Option<ElemId>)

  datatype Page = Page(
    matches: map<string, ElemId>,   // selector -> first element `querySelector` returns for it
    video: Option<Video>,
    attached: set<ElemId>,          // elements for which `document.contains` holds
    rects: map<ElemId, Rect>)       // `getBoundingClientRect`, all zero when absent

  /** The player-container selectors, tried in this order. */
  const Candidates: seq<string> := [
    "#playerHost", "#playerWrap", "#playerContainer",
    "#videoWrap", "#videoContainer", ".playerHost", ".playerWrap", ".playerContainer"
  ]

  /** The fallback video counts as the player only when it is larger than this. */
  const MinVideoWidth := 200
  const MinVideoHeight := 120

  function RectOf(page: Page, el: ElemId): Rect {
    if el in page.rects then page.rects[el] else Rect(0, 0, 0, 0)
  }

  /** The match of the first selector in `sels` that matches anything. */
  function FirstMatch(sels: seq<string>, matches: map<string, ElemId>): Option<ElemId> {
    if sels == [] then None
    else if sels[0] in matches then Some(matches[sels[0]])
    else FirstMatch(sels[1..], matches)
  }

  /** The video fallback: the video itself when large enough, else its parent. */
  function VideoFallback(page: Page): Option<ElemId> {
    match page.video
    case None => None
    case Some(v) =>
      var r := RectOf(page, v.el);
      if r.width > MinVideoWidth && r.height > MinVideoHeight then Some(v.el) else v.parent
  }

  /** What `findAnchorElement` returns on `page`. */
  function Anchor(page: Page): Option<ElemId> {
    var m := FirstMatch(Candidates, page.matches);
    if m.Some? then m else VideoFallback(page)
  }

  /** FirstMatch returns the match of the earliest matching selector, and nothing only when none matches. */
  lemma {:induction false} FirstMatchIsEarliest(sels: seq<string>, matches: map<string, ElemId>)
    ensures FirstMatch(sels, matches).None? <==> forall k :: 0 <= k < |sels| ==> sels[k] !in matches
    ensures FirstMatch(sels, matches).Some? ==>
      exists i :: && 0 <= i < |sels| && sels[i] in matches
                  && FirstMatch(sels, matches).value == matches[sels[i]]
                  && forall k :: 0 <= k < i ==> sels[k] !in matches
  {
    if sels != [] && sels[0] !in matches {
      FirstMatchIsEarliest(sels[1..], matches);
      if FirstMatch(sels, matches).Some? {
        var i :| && 0 <= i < |sels[1..]| && sels[1..][i] in matches
                 && FirstMatch(sels[1..], matches).value == matches[sels[1..][i]]
                 && forall k :: 0 <= k < i ==> sels[1..][k] !in matches;
        assert forall k :: 0 <= k < i + 1 ==> sels[k] !in matches by {
          forall k | 0 <= k < i + 1 ensures sels[k] !in matches {
            if k > 0 { assert sels[k] == sels[1..][k - 1]; }
          }
        }
      } else {
        forall k | 0 <= k < |sels| ensures sels[k] !in matches {
          if k > 0 { assert sels[k] == sels[1..][k - 1]; }
        }
      }
    }
  }

  /**
   * The anchor is the match of the first matching candidate selector; the
   * video is consulted only when no candidate matches, and then it is the video
   * when wider than 200 and taller than 120, else its parent, else nothing.
   */
  lemma AnchorChoice(page: Page)
    ensures (exists k :: 0 <= k < |Candidates| && Candidates[k] in page.matches) ==>
      exists i :: && 0 <= i < |Candidates| && Candidates[i] in page.matches
                  && Anchor(page) == Some(page.matches[Candidates[i]])
                  && forall k :: 0 <= k < i ==> Candidates[k] !in page.matches
    ensures (forall k :: 0 <= k < |Candidates| ==> Candidates[k] !in page.matches) ==>
      Anchor(page) == match page.video
        case None => None
        case Some(v) =>
          if RectOf(page, v.el).width > 200 && RectOf(page, v.el).height > 120 then Some(v.el) else v.parent
  {
    FirstMatchIsEarliest(Candidates, page.matches);
  }

  /** `findAnchorElement`: the loop over the candidates with early return, then the video fallback. */
  method FindAnchorElement(page: Page) returns (anchor: Option<ElemId>)
    ensures anchor == Anchor(page)
  {
    var i := 0;
    while i < |Candidates|
      invariant 0 <= i <= |Candidates|
      invariant FirstMatch(Candidates, page.matches) == FirstMatch(Candidates[i..], page.matches)
    {
      var sel := Candidates[i];
      if sel in page.matches {
        return Some(page.matches[sel]);
      }
      assert Candidates[i..][1..] == Candidates[i + 1..];
      i := i + 1;
    }
    if page.video.Some? {
      var v := page.video.value;
      var r := RectOf(page, v.el);
      if r.width > MinVideoWidth && r.height > MinVideoHeight {
        return Some(v.el);
      }
      if v.parent.Some? {
        return v.parent;
      }
    }
    return None;
  }
}
