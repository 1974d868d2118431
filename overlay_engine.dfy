/**
 * The overlay script's state as one object: its module-level variables
 * (webtor-rect-overlay.v11.js:15-21), the overlay element's `hidden` class,
 * `data-webtor-suspended` marker, parent, inline style and host contents, and
 * the `window.webtor` queue.  Each method performs one of the script's
 * functions in place and is proved to make the transition that OverlaySpec
 * describes; the properties of those transitions are proved there.
 *
 * The overlay's fields are meaningful only while `overlayExists` holds.
 */
module OverlayEngine {
  import opened Wrappers
  import opened Locator
  import opened AnchorLocator
  import opened OverlaySpec

  class RectOverlay {
    var tracking: bool
    var ro: Option<ResizeWatch>
    var modalWatchers: nat
    var anchorEl: Option<ElemId>
    var currentContainer: Option<Container>
    var forceFullPage: bool
    var suspendedByModal: bool

    var overlayExists: bool
    var overlayHidden: bool
    var suspendedMark: bool
    var overlayParent: Container
    var style: Style
    var hostEmpty: bool

    var webtor: seq<Payload>

    /** The abstract value of the object. */
    function State(): EngineState
      reads this
    {
      EngineState(tracking, ro, modalWatchers, anchorEl, currentContainer, forceFullPage, suspendedByModal,
                  if overlayExists then Some(OverlayDom(overlayHidden, suspendedMark, overlayParent, style, hostEmpty))
                  else None,
                  webtor)
    }

    /** Only a hidden overlay is suspended, and its marker follows `suspendedByModal`. */
    ghost predicate Valid()
      reads this
    {
      Inv(State())
    }

    constructor ()
      ensures State() == Initial && Valid()
    {
      tracking, ro, modalWatchers, anchorEl, currentContainer := false, None, 0, None, None;
      forceFullPage, suspendedByModal := false, false;
      overlayExists, overlayHidden, suspendedMark, overlayParent := false, true, false, Body;
      style, hostEmpty := NoStyle, true;
      webtor := [];
    }

    /** `applyModalSuspension`; `modalOpen` is what `isBlockingModalOpen()` returns now. */
    method ApplyModalSuspension(modalOpen: bool)
      requires Valid()
      modifies this
      ensures State() == Suspension(old(State()), modalOpen) && Valid()
    {
      SuspensionKeepsInv(State(), modalOpen);
      if !overlayExists {
        return;
      }
      var shown := !overlayHidden;
      if shown && modalOpen && !suspendedByModal {
        suspendedByModal := true;
        suspendedMark := true;
        overlayHidden := true;
        return;
      }
      if suspendedByModal && !modalOpen {
        suspendedByModal := false;
        suspendedMark := false;
        overlayHidden := false;
      }
    }

    /** `ensureOverlayDom`. */
    method EnsureOverlayDom()
      modifies this
      ensures State() == EnsureOverlay(old(State()))
    {
      if overlayExists {
        return;
      }
      overlayExists, overlayHidden, suspendedMark := true, true, false;
      hostEmpty := true;
      style := NoStyle;
      overlayParent := Body;
    }

    /** `setFixedRect`, on the overlay element its callers pass. */
    method SetFixedRect(r: Rect)
      requires overlayExists
      modifies this
      ensures State() == OverlaySpec.SetFixedRect(old(State()), r)
    {
      style := Style(Fixed, Px(r.left), Px(r.top), Px(r.width), Px(r.height));
    }

    /** `setViewportFill`, on the overlay element its callers pass. */
    method SetViewportFill()
      requires overlayExists
      modifies this
      ensures State() == OverlaySpec.SetViewportFill(old(State()))
    {
      style := Style(Fixed, Px(0), Px(0), Vw(100), Vh(100));
    }

    /** `moveOverlayIfNeeded`, given `document.fullscreenElement`. */
    method MoveOverlayIfNeeded(fullscreen: Option<FullscreenElement>)
      modifies this
      ensures State() == MoveIfNeeded(old(State()), fullscreen)
    {
      if !overlayExists || overlayHidden {
        return;
      }
      var desired := if fullscreen.Some? then Fullscreen(fullscreen.value) else Body;
      if currentContainer != Some(desired) {
        if AppendSucceeds(desired) {
          overlayParent := desired;
        }
        currentContainer := Some(desired);
      }
    }

    /** `updateOverlayPosition`: one positioning pass. */
    method UpdateOverlayPosition(env: Env)
      requires Valid()
      modifies this
      ensures State() == Position(old(State()), env) && Valid()
    {
      PositionKeepsInv(State(), env);
      if !overlayExists || overlayHidden {
        return;
      }
      ApplyModalSuspension(env.modalOpen);
      if overlayHidden {
        return;
      }
      ProjectOntoAnchor(env);
    }

    /** Lines 162-172 of `updateOverlayPosition`, once the overlay is known to be shown. */
    method ProjectOntoAnchor(env: Env)
      requires overlayExists && !overlayHidden
      modifies this
      ensures State() == Project(old(State()), env)
    {
      if anchorEl.None? || anchorEl.value !in env.page.attached {
        anchorEl := FindAnchorElement(env.page);
      }
      ghost var s1 := State();
      assert s1 == old(State()).(anchorEl := Revalidate(old(anchorEl), env.page));
      if anchorEl.None? {
        return;
      }
      FitToAnchor(env);
    }

    /** Lines 166-172 of `updateOverlayPosition`. */
    method FitToAnchor(env: Env)
      requires overlayExists && anchorEl.Some?
      modifies this
      ensures State() == OverlaySpec.FitToAnchor(old(State()), env)
    {
      MoveOverlayIfNeeded(env.fullscreen);
      var r := RectOf(env.page, anchorEl.value);
      if r.width < MinAnchorSize || r.height < MinAnchorSize {
        return;
      }
      SetFixedRect(r);
    }

    /** `startTracking`; `hasResizeObserver` says whether `window.ResizeObserver` exists. */
    method StartTracking(hasResizeObserver: bool)
      requires Valid()
      modifies this
      ensures State() == OverlaySpec.StartTracking(old(State()), hasResizeObserver) && Valid()
    {
      if tracking {
        return;
      }
      tracking := true;
      modalWatchers := modalWatchers + 1;
      if hasResizeObserver {
        ro := Some(ResizeWatch(anchorEl));
      }
    }

    /** `stopTracking`. */
    method StopTracking()
      requires Valid()
      modifies this
      ensures State() == OverlaySpec.StopTracking(old(State())) && Valid()
    {
      tracking := false;
      ro := None;
      currentContainer := None;
    }

    /** `mountWebtor`, run after the widget's script has loaded. */
    method MountWebtor(url: string)
      requires Valid()
      modifies this
      ensures State() == OverlaySpec.MountWebtor(old(State()), url) && Valid()
    {
      var v := Trim(url);
      if !IsMagnet(v) && !IsTorrentUrl(v) {
        return;
      }
      if !overlayExists {
        return;
      }
      hostEmpty := false;
      var payload := Payload(MountId, "100%", "100%", true, None, None);
      if IsMagnet(v) {
        payload := payload.(magnet := Some(v));
      } else {
        payload := payload.(torrentUrl := Some(v));
      }
      webtor := webtor + [payload];
    }

    /** `webtorRectIsOpen`. */
    method IsOpen() returns (open: bool)
      requires Valid()
      ensures open <==> State().overlay.Some? && !State().overlay.value.hidden
      ensures open ==> !suspendedByModal && !suspendedMark
    {
      open := overlayExists && !overlayHidden;
    }

    /** `webtorRectSetFullPage`. */
    method SetFullPage(enabled: bool, env: Env)
      requires Valid()
      modifies this
      ensures State() == OverlaySpec.SetFullPage(old(State()), enabled, env) && Valid()
    {
      OperationsKeepInv(State(), env, "", enabled);
      forceFullPage := enabled;
      if !overlayExists {
        return;
      }
      if !overlayHidden {
        MoveToBody();
        if forceFullPage {
          SetViewportFill();
        } else {
          UpdateOverlayPosition(env);
        }
      }
    }

    /**
     * The synchronous part of `openWebtorRectOverlay`, dropping a stale
     * suspension first (see `OverlaySpec.OpenOverPanelShows` for what the
     * script does without this).
     */
    method Open(env: Env)
      requires Valid()
      modifies this
      ensures State() == OpenReleasingSuspension(old(State()), env) && Valid()
    {
      var a := FindAnchorElement(env.page);
      if a.None? {
        anchorEl := a;
        return;
      }
      ReleaseSuspension();
      anchorEl := a;
      ghost var shown := State();
      assert shown == Release(old(State())).(anchorEl := a);
      assert OpenReleasingSuspension(old(State()), env) == OverlaySpec.ShowAndTrack(shown, env);
      ShowAndTrack(env);
    }

    /** Lines 274-282 of `openWebtorRectOverlay`, once the anchor is found. */
    method ShowAndTrack(env: Env)
      requires Valid() && !suspendedByModal
      modifies this
      ensures State() == OverlaySpec.ShowAndTrack(old(State()), env) && Valid()
    {
      ShowInBody(env.modalOpen);
      UpdateOverlayPosition(env);
      StartTracking(env.hasResizeObserver);
    }

    /** Lines 274-280 of `openWebtorRectOverlay`. */
    method ShowInBody(modalOpen: bool)
      requires Valid() && !suspendedByModal
      modifies this
      ensures State() == OverlaySpec.ShowInBody(old(State()), modalOpen) && Valid()
    {
      EnsureOverlayDom();
      Show();
      ApplyModalSuspension(modalOpen);
      MoveToBody();
      currentContainer := Some(Body);
    }

    /** `overlay.classList.remove("hidden")`. */
    method Show()
      requires overlayExists && !suspendedByModal
      modifies this
      ensures State() == Unhide(old(State()))
    {
      overlayHidden := false;
    }

    /** `document.body.appendChild(overlay)` unless it is already body's child. */
    method MoveToBody()
      modifies this
      ensures State() == ToBody(old(State()))
    {
      if overlayExists && overlayParent != Body {
        overlayParent := Body;
      }
    }

    /**
     * `closeWebtorRectOverlay`, without the optional page reload, and
     * releasing the suspension as well (see `OverlaySpec.ClosedOverlayReappears`
     * for what the script does without this).
     */
    method Close()
      requires Valid()
      modifies this
      ensures State() == CloseReleasingSuspension(old(State())) && Valid()
    {
      if overlayExists {
        hostEmpty := true;
        overlayHidden := true;
      }
      StopTracking();
      forceFullPage := false;
      MoveToBody();
      ReleaseSuspension();
    }

    /** Clears `suspendedByModal` and removes the overlay's marker. */
    method ReleaseSuspension()
      modifies this
      ensures State() == Release(old(State())) && Valid()
    {
      suspendedByModal := false;
      suspendedMark := false;
    }
  }
}
