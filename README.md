# Webtor rectangle overlay and torrent list, modelled in Dafny

Two browser scripts are modelled here:

- `webtor-rect-overlay.v11.js` lays a Webtor player over the page's own video player. It copies the player's on-screen rectangle. It hides itself while a blocking panel (StreamURL, radio, iframe overlays) is open. It follows the page into and out of fullscreen.
- `webtor-torrents-ui.v10.js` keeps a list of magnet links and `.torrent` URLs in local storage. It loads, adds and deletes entries, and switches the page to the Torrents tab.

The model is made of these modules:

- `Locator` (`locator.dfy`) holds the locator classification `isMagnet` / `isTorrentUrl`. It covers JavaScript's `String.prototype.trim`, with every white-space and line-terminator code point, the case-sensitive `magnet:?` prefix, the case-insensitive `https?://` scheme, and the `/\.torrent(\?|#|$)/i` search. The two scripts define these predicates with the same code, up to quote style, so one module serves both files. Their agreement on every input therefore holds by construction.
- `AnchorLocator` (`anchor.dfy`) holds `findAnchorElement` over an abstract page. The page gives, for each selector, the first element that matches it, the first `<video>` and its parent, the set of elements still in the document, and each element's rectangle. `FindAnchorElement` keeps the source's loop with early return.
- `OverlaySpec` (`overlay_spec.dfy`) gives each function of the overlay script as a transition on `EngineState`. That state holds the module-level variables (`tracking`, `ro`, `anchorEl`, `currentContainer`, `forceFullPage`, `suspendedByModal`), a count of modal watchers started, the overlay element (its `hidden` class, its `data-webtor-suspended` marker, its parent, its inline style, and whether its host is empty) and the `window.webtor` queue. What the browser is asked is passed in as an `Env`: whether a blocking panel is open, the fullscreen element, the page, and whether `ResizeObserver` exists. The properties of the transitions are lemmas here.
- `OverlayEngine` (`overlay_engine.dfy`) is the same state as the class `RectOverlay`, with one field per variable. Its methods change the fields in place, as the script does. Each method's postcondition ties the new state to the matching `OverlaySpec` transition of the old state. The class invariant `Valid()` is `OverlaySpec.Inv` of the state: only a hidden overlay is suspended, and the `data-webtor-suspended` marker is set exactly when `suspendedByModal` is. The constructor establishes it and every entry point keeps it. The helpers that un-hide the overlay require that no suspension is pending, and `Open` releases it before calling them.
- `TorrentList` (`torrent_list.dfy`) covers `loadTorrents`, `saveTorrents`, the add handler and the delete handler. Stored values are described by what the loader inspects. The class `TorrentStore` holds the stored value, and its `Add` and `Delete` methods rewrite it.
- `TorrentsTab` (`torrents_tab.dfy`) covers the class-toggling part of `activateTorrentsTab`. The document's elements come in document order, and their `active` classes are an array the method updates with loops.

Where the code does something one might not expect, the model follows the code:

- A failed re-parenting into the fullscreen element is not retried. `moveOverlayIfNeeded` records the container even when `appendChild` threw.
- `setFullPage(true)` does not persist. The next positioning pass puts the anchor's rectangle back, because `updateOverlayPosition` never reads `forceFullPage` (`OverlaySpec.FullPageIsOverwritten`).
- `setFullscreenFill` is never called, so fullscreen keeps the fixed rectangle.
- In fullscreen, `setFullPage` moves the overlay to body without changing `currentContainer`. Later passes therefore never move it back into the fullscreen element (`OverlaySpec.FullPageLeavesFullscreen`).
- `close()` leaves `suspendedByModal` set. `OverlaySpec.Close` models that as written, and `RectOverlay.Close` uses the corrected close. See Findings.
- `open()` does not drop a suspension left from earlier. Opening while a blocking panel is open and the flag is still set leaves the overlay shown over the panel. `OverlaySpec.Open` models that as written, and `RectOverlay.Open` uses the corrected open. See Findings.

## Model

| member | source | states |
|---|---|---|
| Locator.TrimShape | webtor-rect-overlay.v11.js:67-70 | `trim()` removes exactly a leading and a trailing run of white space: the result is a slice of the input, everything cut is white space, and the result neither starts nor ends with white space |
| Locator.TrimIdempotent | webtor-torrents-ui.v10.js:74-75 | trimming an already trimmed value changes nothing, so the handler's trim followed by the predicates' own trim is one trim |
| Locator.HasTorrentMarkerMeaning | webtor-rect-overlay.v11.js:71 | the left-to-right scan succeeds iff `.torrent`, in any ASCII case, occurs at some index followed by `?`, `#` or the end of the text |
| Locator.ClassifyTrimmed | webtor-torrents-ui.v10.js:9-14 | both predicates give the same answer on a value and on its trimmed form |
| Locator.MagnetIsNotTorrentUrl | webtor-rect-overlay.v11.js:67-72 | no value is both a magnet link and a torrent URL, so a payload never carries both |
| Locator.NoTorrentMarker | webtor-rect-overlay.v11.js:71 | with no `.` followed by `t` or `T` early enough, the `.torrent` pattern cannot match |
| Locator.AcceptsMagnet | webtor-rect-overlay.v11.js:67 | `magnet:?xt=urn:btih:abc` is a magnet link and not a torrent URL |
| Locator.AcceptsTorrentUrl | webtor-rect-overlay.v11.js:68-72 | `https://example.com/a/file.torrent` is accepted as a torrent URL, where the pattern matches at the end |
| Locator.AcceptsTorrentUrlWithQuery | webtor-rect-overlay.v11.js:68-72 | `https://example.com/a/file.torrent?x=1` is accepted as a torrent URL |
| Locator.RejectsFtp | webtor-rect-overlay.v11.js:68-72 | `ftp://x/file.torrent` is neither a magnet link nor a torrent URL |
| Locator.RejectsOtherExtension | webtor-rect-overlay.v11.js:68-72 | `https://example.com/file.txt` is neither a magnet link nor a torrent URL |
| AnchorLocator.FirstMatchIsEarliest | webtor-rect-overlay.v11.js:93-96 | the candidate loop returns the element of the earliest selector that matches, and nothing only when no selector matches |
| AnchorLocator.AnchorChoice | webtor-rect-overlay.v11.js:88-104 | a candidate match wins; otherwise the video is used if wider than 200 and taller than 120, else its parent if it has one, else nothing |
| AnchorLocator.FindAnchorElement | webtor-rect-overlay.v11.js:88-104 | the loop over the candidates with early return, then the video fallback, returns exactly the anchor `Anchor` describes |
| OverlaySpec.SuspensionTransitions | webtor-rect-overlay.v11.js:38-57 | suspends (flag set, overlay hidden, marker set) iff the overlay exists, is shown, a panel is open and it is not already suspended; un-hides and clears both when it had suspended and no panel is open; with no overlay nothing changes |
| OverlaySpec.SuspensionIdempotent | webtor-rect-overlay.v11.js:38-57 | applying the policy twice with the same panel state equals applying it once |
| OverlaySpec.MoveReconciles | webtor-rect-overlay.v11.js:142-153 | on a shown overlay the recorded container becomes the fullscreen element or body; the overlay is re-parented only when the record differed and the append succeeds, yet the record is updated either way; hidden or missing overlays are left alone |
| OverlaySpec.MoveIdempotent | webtor-rect-overlay.v11.js:142-153 | a second reconciliation with the same fullscreen element changes nothing |
| OverlaySpec.ProjectEffect | webtor-rect-overlay.v11.js:162-172 | on a shown overlay: the anchor is revalidated; with none found only it changes; otherwise the container is reconciled and the style becomes the anchor's rectangle unless that is under 50 by 50 |
| OverlaySpec.ProjectIdempotent | webtor-rect-overlay.v11.js:162-172 | projecting twice equals projecting once |
| OverlaySpec.PositionGuards | webtor-rect-overlay.v11.js:155-173 | a pass changes nothing on a missing or hidden overlay; it changes the style only to the anchor's rectangle of at least 50 by 50; tracking, the full-page flag, the host and the queue are untouched |
| OverlaySpec.PositionProjects | webtor-rect-overlay.v11.js:166-172 | when the overlay stays shown and an anchor is found, the pass applies the anchor's rectangle as fixed pixels, or keeps the old style for an anchor under 50 by 50 |
| OverlaySpec.PositionIdempotent | webtor-rect-overlay.v11.js:155-173 | repeating the pass in the same environment gives the same state |
| OverlaySpec.StartTrackingOnce | webtor-rect-overlay.v11.js:175-203 | starting is a no-op while tracking; otherwise tracking is on and one more pair of modal watchers runs; a resize watch on the current anchor is set up when `ResizeObserver` exists and the old one is kept when it does not |
| OverlaySpec.StopTrackingClears | webtor-rect-overlay.v11.js:205-218 | stopping leaves tracking off, no resize watch and no container, keeps the modal watchers and the overlay, and a second stop changes nothing |
| OverlaySpec.OpenWithoutAnchor | webtor-rect-overlay.v11.js:268-273 | opening with no anchor creates no overlay and starts no tracking |
| OverlaySpec.OpenWithAnchor | webtor-rect-overlay.v11.js:268-282 | opening with an anchor leaves an overlay that is tracked, and shown unless a panel is open and the policy had not suspended it; a hidden result is suspended and in body |
| OverlaySpec.ShowInBodyEffect | webtor-rect-overlay.v11.js:274-280 | after creating, showing, applying the policy and moving to body, the overlay is in body and shown unless a panel is open and it was not suspended; a shown result is left alone by the policy |
| OverlaySpec.Close | webtor-rect-overlay.v11.js:293-305 | the close as written: the overlay is no longer open, tracking and the full-page flag are off, and `suspendedByModal` keeps its old value |
| OverlaySpec.CloseTearsDown | webtor-rect-overlay.v11.js:293-305 | after close the host is empty, the overlay (if any) is hidden and in body, tracking is off, the full-page flag is cleared, the suspension is kept, and closing again changes nothing |
| OverlaySpec.MountQueuesOnePayload | webtor-rect-overlay.v11.js:220-240 | an unplayable locator or a missing host changes nothing; otherwise exactly one payload for the mount point is queued, carrying the trimmed locator as `magnet` iff it is a magnet link and as `torrentUrl` otherwise, 100% wide and high, with controls; only the host and the queue change |
| OverlaySpec.SetFullPageModes | webtor-rect-overlay.v11.js:256-266 | the flag is always set; on a shown overlay `true` fills the viewport from body and `false` runs a positioning pass from body; otherwise only the flag changes |
| OverlaySpec.FullPageIsOverwritten | webtor-rect-overlay.v11.js:155-173 | a viewport fill set by `setFullPage(true)` is replaced by the anchor's rectangle on the next pass although the flag stays set |
| OverlaySpec.SuspendThenResume | webtor-rect-overlay.v11.js:38-57 | a panel opening suspends a shown overlay once; when it closes the overlay is shown again and the next pass restores the anchor's rectangle |
| OverlaySpec.OpenMountClose | webtor-rect-overlay.v11.js:268-305 | open, mount a magnet link, close: the overlay is shown on the anchor's rectangle, exactly one magnet payload is queued, and close hides it with an empty host |
| OverlaySpec.ClosedOverlayReappears | webtor-rect-overlay.v11.js:293-305 | as written: a closed overlay that was suspended is shown again by the still-running modal watcher once the panel closes |
| OverlaySpec.CloseReleasingSuspension | webtor-rect-overlay.v11.js:293-305 | the corrected close leaves the overlay closed and unsuspended, with tracking and the full-page flag off, satisfies the invariant from any state, and the modal policy can no longer change it |
| OverlaySpec.ClosedStaysClosed | webtor-rect-overlay.v11.js:293-305 | a close that also releases the suspension leaves an overlay that stays closed whatever the modal watchers and positioning passes do afterwards |
| OverlaySpec.OpenOverPanelShows | webtor-rect-overlay.v11.js:274-278 | as written: after a suspension and a close, which keep the invariant, opening again while the panel is still open leaves the overlay shown with the stale flag still set, which breaks it |
| OverlaySpec.OpenHonoursPanel | webtor-rect-overlay.v11.js:268-282 | an open that first drops a stale suspension leaves a tracked overlay that is shown exactly when no blocking panel is open; it is suspended with its marker when one is, and neither suspended nor marked when none is |
| OverlaySpec.FullPageLeavesFullscreen | webtor-rect-overlay.v11.js:256-266 | in fullscreen, after `setFullPage` and a positioning pass the overlay is a child of body while `currentContainer` still names the fullscreen element |
| OverlaySpec.OpenThenMountQueues | webtor-rect-overlay.v11.js:268-286 | with no anchor the open returns before the `await` and nothing is queued; with one, the overlay is tracked and a playable locator adds exactly one payload behind the earlier ones |
| OverlaySpec.OpenKeepsQueue | webtor-rect-overlay.v11.js:268-282 | the part of the open before the `await` queues nothing |
| OverlaySpec.SuspensionKeepsInv | webtor-rect-overlay.v11.js:38-57 | the policy keeps the invariant `Inv`: only a hidden overlay is suspended, and the marker is set exactly when `suspendedByModal` is |
| OverlaySpec.PositionKeepsInv | webtor-rect-overlay.v11.js:155-173 | a positioning pass keeps the invariant |
| OverlaySpec.OperationsKeepInv | webtor-rect-overlay.v11.js:175-305 | starting and stopping tracking, mounting, `setFullPage` and the close as written keep the invariant |
| OverlaySpec.ShowAndTrackKeepsInv | webtor-rect-overlay.v11.js:274-282 | showing in body, the pass and the start of tracking keep the invariant when no suspension is pending |
| OverlaySpec.OpenReleasingKeepsInv | webtor-rect-overlay.v11.js:268-282 | the corrected open keeps the invariant, and establishes it from any state when an anchor is found |
| OverlayEngine.RectOverlay.constructor | webtor-rect-overlay.v11.js:15-21 | the variables start out null or false, with no overlay and an empty queue, and `Valid()` holds |
| OverlayEngine.RectOverlay.ApplyModalSuspension | webtor-rect-overlay.v11.js:38-57 | the fields change as `OverlaySpec.Suspension` of the old state; `Valid()` is kept |
| OverlayEngine.RectOverlay.EnsureOverlayDom | webtor-rect-overlay.v11.js:106-122 | an existing overlay is kept; otherwise a hidden overlay with an empty host is created in body |
| OverlayEngine.RectOverlay.SetFixedRect | webtor-rect-overlay.v11.js:124-130 | the style becomes fixed at the rectangle's pixels |
| OverlayEngine.RectOverlay.SetViewportFill | webtor-rect-overlay.v11.js:243-249 | the style becomes fixed at 0,0 with 100vw by 100vh |
| OverlayEngine.RectOverlay.MoveOverlayIfNeeded | webtor-rect-overlay.v11.js:142-153 | the fields change as `OverlaySpec.MoveIfNeeded`, whose properties `MoveReconciles` states |
| OverlayEngine.RectOverlay.UpdateOverlayPosition | webtor-rect-overlay.v11.js:155-173 | the fields change as `OverlaySpec.Position`, whose properties `PositionGuards` states; `Valid()` is kept |
| OverlayEngine.RectOverlay.ProjectOntoAnchor | webtor-rect-overlay.v11.js:162-172 | the fields change as `OverlaySpec.Project` |
| OverlayEngine.RectOverlay.FitToAnchor | webtor-rect-overlay.v11.js:166-172 | the fields change as `OverlaySpec.FitToAnchor`: reconciled, then set to the anchor's rectangle unless it is under 50 by 50 |
| OverlayEngine.RectOverlay.StartTracking | webtor-rect-overlay.v11.js:175-203 | the fields change as `OverlaySpec.StartTracking`; `Valid()` is kept |
| OverlayEngine.RectOverlay.StopTracking | webtor-rect-overlay.v11.js:205-218 | the fields change as `OverlaySpec.StopTracking`; `Valid()` is kept |
| OverlayEngine.RectOverlay.MountWebtor | webtor-rect-overlay.v11.js:220-240 | the fields change as `OverlaySpec.MountWebtor`; `Valid()` is kept |
| OverlayEngine.RectOverlay.IsOpen | webtor-rect-overlay.v11.js:251-254 | the answer is true iff the overlay exists and is not hidden; under `Valid()` a true answer means the overlay is neither suspended nor marked |
| OverlayEngine.RectOverlay.SetFullPage | webtor-rect-overlay.v11.js:256-266 | the fields change as `OverlaySpec.SetFullPage`; `Valid()` is kept |
| OverlayEngine.RectOverlay.Open | webtor-rect-overlay.v11.js:268-282 | the fields change as `OverlaySpec.OpenReleasingSuspension`: the script's open, with a stale suspension dropped first (see Findings); `Valid()` is kept |
| OverlayEngine.RectOverlay.ShowAndTrack | webtor-rect-overlay.v11.js:274-282 | the fields change as `OverlaySpec.ShowAndTrack`: shown in body, one positioning pass, then tracking started; from no pending suspension, `Valid()` is kept |
| OverlayEngine.RectOverlay.ShowInBody | webtor-rect-overlay.v11.js:274-280 | the fields change as `OverlaySpec.ShowInBody`; from no pending suspension, `Valid()` is kept |
| OverlayEngine.RectOverlay.Show | webtor-rect-overlay.v11.js:275 | with no suspension pending, the overlay is no longer hidden and nothing else changes |
| OverlayEngine.RectOverlay.MoveToBody | webtor-rect-overlay.v11.js:279 | an existing overlay is a child of body afterwards and nothing else changes |
| OverlayEngine.RectOverlay.Close | webtor-rect-overlay.v11.js:293-305 | the fields change as `OverlaySpec.CloseReleasingSuspension`: the script's close, plus the suspension released (see Findings); `Valid()` is kept |
| OverlayEngine.RectOverlay.ReleaseSuspension | webtor-rect-overlay.v11.js:52-55 | the suspension flag is cleared and the marker removed, and nothing else changes, which establishes `Valid()` |
| TorrentList.Filter | webtor-torrents-ui.v10.js:21 | the filtered list is no longer than the input and every element passes |
| TorrentList.FilterSelects | webtor-torrents-ui.v10.js:21 | `filter` reads the input at a strictly increasing sequence of positions that contains every position whose element passes, so it keeps exactly the passing elements in their order |
| TorrentList.FilterAll | webtor-torrents-ui.v10.js:21 | filtering a list whose elements all pass gives the list back |
| TorrentList.LoadFilters | webtor-torrents-ui.v10.js:18-23 | every loaded entry has a string url that is a magnet link or a torrent URL; the result is no longer than the stored array; absent, unparseable or non-array storage loads as the empty list |
| TorrentList.LoadKeepsOrder | webtor-torrents-ui.v10.js:18-23 | loading keeps the stored elements that pass, in their order, and only those; each keeps its url, and its name is the stored name's text or `Torrent` when that name is falsy |
| TorrentList.LoadSave | webtor-torrents-ui.v10.js:18-24 | saving a list of playable entries and loading it again gives it back with empty names replaced by `Torrent` |
| TorrentList.LoadSaveRoundTrip | webtor-torrents-ui.v10.js:18-24 | without empty names, loading what was saved gives the same list |
| TorrentList.AddPrepends | webtor-torrents-ui.v10.js:73-83 | an unplayable trimmed url leaves storage unchanged; otherwise the list becomes the new entry (trimmed name, or `Torrent`) followed by the previously loaded list, duplicates included |
| TorrentList.PrependReloads | webtor-torrents-ui.v10.js:78-80 | loading after `unshift` and save gives the new entry followed by the old list |
| TorrentList.DeleteRemoves | webtor-torrents-ui.v10.js:126-130 | after deleting a url no entry has it, and the others remain in their order with nothing else dropped |
| TorrentList.TorrentStore.Add | webtor-torrents-ui.v10.js:73-83 | the stored value becomes `Added` of the old one, whose meaning `AddPrepends` states |
| TorrentList.TorrentStore.Delete | webtor-torrents-ui.v10.js:126-130 | the stored value becomes `Deleted` of the old one, whose meaning `DeleteRemoves` states |
| TorrentsTab.FirstWhere | webtor-torrents-ui.v10.js:150 | the element `querySelector` finds satisfies the selector and no earlier one does; nothing is found only when no element satisfies it |
| TorrentsTab.ActivationOutcome | webtor-torrents-ui.v10.js:148-155 | afterwards `#torrentList` is active, the Torrents button is active unless a later step cleared it as a `.list`, no other tab button and no other list is active, and every other element keeps its class |
| TorrentsTab.ActivatedIdempotent | webtor-torrents-ui.v10.js:148-155 | activating the tab twice equals activating it once |
| TorrentsTab.TabPage.Deactivate | webtor-torrents-ui.v10.js:149 | every matching element loses `active` and the others keep theirs |
| TorrentsTab.TabPage.ActivateFound | webtor-torrents-ui.v10.js:151 | the element found, if any, gains `active` and the others keep theirs |
| TorrentsTab.TabPage.ActivateTorrentsTab | webtor-torrents-ui.v10.js:148-155 | the loops and the two lookups leave the flags exactly as `Activated` of the old flags, whose meaning `ActivationOutcome` states |

## Left out

- Browser measurement is left out: `getComputedStyle`, `getBoundingClientRect` and the selectors inside `isBlockingModalOpen`. Whether a blocking panel is open and each element's rectangle are inputs.
- Rectangles are whole pixels. `Math.round` and the comparisons with 200, 120 and 50 act on floating-point values in the browser. The model compares the rounded values, so a fractional edge case such as a width of 49.6 is not modelled.
- Event scheduling is left out: the `MutationObserver`, the 400 ms interval, `requestAnimationFrame`, and the scroll, resize, fullscreenchange and visualViewport listeners. `RectOverlay.UpdateOverlayPosition` and `RectOverlay.ApplyModalSuspension` are the steps those events run. `modalWatchers` only counts the observer-and-interval pairs that `startTracking` starts and never stops.
- The resize observer is recorded as which anchor it watches. What it reports is not modelled.
- `loadWebtorSDK`, the `__webtorSdkLoaded` flag and the `await` are left out, because they are asynchronous network loading. `Open` is the part before the `await`, and `MountWebtor` is the part after it. The mount is reached only when an anchor was found, because the function returns before the `await` otherwise. `OpenThenMount` composes the two that way.
- `location.reload` in `close({reload: true})` is left out, because it is a side effect outside the script.
- `window.__webtorRectFindAnchor` is left out. It is `findAnchorElement` with exceptions swallowed, and `findAnchorElement` cannot throw in the model.
- `setFullscreenFill` is left out, because nothing calls it.
- The model assumes the overlay and host are the script's own elements. An element with those ids that exists before the script runs, or an overlay removed from the document by other code, is not modelled.
- The model assumes `window.webtor` is the plain array the script creates. Replacing it with the SDK's own queue, and a `push` that throws, are not modelled.
- Sibling order and paint order are not modelled. The overlay's parent is recorded, but not its position among the parent's children. `webtorRectSetFullPage` appends the overlay to body even when body is already its parent, to move it to the last position. In the model that step (`ToBody`) leaves the state as it was.
- `appendChild` throws in the model only when the fullscreen element is the overlay or inside it. Other DOM exceptions are not modelled.
- `localStorage` and `JSON.parse` / `JSON.stringify` are left out. Storage is `Missing`, `Unparseable`, `NotArray` or an array of elements, and an element is described by its `url` and `name` fields only. A stored name that is neither a string nor absent is given by its truthiness and by its text under `String(...)`.
- `render` is left out: the DOM construction, the play and close buttons, and clearing the inputs. The fullscreen button is left out too.
- In `activateTorrentsTab`, stopping video playback (`destroyHls`, `destroyDash`, `pause`) and the final `render` are left out. So are `wireTab` and `DOMContentLoaded`.
- Strings are sequences of code points. JavaScript's UTF-16 code units matter only outside the Basic Multilingual Plane, and none of the patterns looks there.

## Findings

| source | as written | input that shows it | evidently intended | confidence | as-written member | corrected member |
|---|---|---|---|---|---|---|
| webtor-rect-overlay.v11.js:293-305 | `closeWebtorRectOverlay` hides the overlay but leaves `suspendedByModal` set and the marker in place. The modal watchers that `startTracking` started keep running after `stopTracking`. | Open the overlay on a page with no blocking panel. A panel then opens and the overlay is suspended. `closeWebtorRectOverlay()` is called without `reload`, then the panel closes. The next modal check un-hides the closed overlay, which now has an empty host. | Closing clears the suspension, so that a closed overlay stays closed. | not executed | OverlaySpec.ClosedOverlayReappears | OverlaySpec.CloseReleasingSuspension |
| webtor-rect-overlay.v11.js:274-278 | `openWebtorRectOverlay` removes `hidden` and then applies the suspension policy. The policy hides the overlay only when `suspendedByModal` is false, and nothing clears a flag left from an earlier suspension. | Open the overlay with no blocking panel. A panel opens and the overlay is suspended. `closeWebtorRectOverlay()` is called without `reload`. Then `openWebtorRectOverlay(url)` is called while the panel is still open. The overlay is shown on top of the panel. | Opening hides the overlay while a blocking panel is open, as the comment at line 277 says. | not executed | OverlaySpec.OpenOverPanelShows | OverlaySpec.OpenHonoursPanel |
