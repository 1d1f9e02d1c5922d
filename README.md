# Cityspot tour front end — a Dafny model

Cityspot is a browser city tour. The home page leads to a map of points of
interest with a card carousel under it. A location opens a detail page whose
info snippets are paged with a progress bar. Some locations also open a door
story, a full-screen slideshow navigated by swipes and buttons. This project
models the state machines behind those screens and proves what they keep:

- `content.dfy` (module `Content`): the location records, the carousel cards
  and the parts of the page that several modules write (`class Page`).
- `story_data.dfy` (module `StoryData`): the three door stories' slides.
- `story_navigation.dfy` (module `StoryNavigation`): the story player of
  `initDoorStory`. It covers the transition lock, the two-phase slide change
  (a 300 ms settle step, then an in-place update or an image preload), the
  800 ms release, and the single active story container (`StoryHost`).
- `map.dfy` (module `TourMap`): the marker and carousel adapter. It covers the
  icon class names, the `markers` dictionary kept in step with the map's
  bounds, the highlighted card and marker, the carousel's wrap-around, and the
  deferred icon fix-ups and 50 ms highlights.
- `app.dfy` (module `Tour`): the `app` object. It pages through the info
  snippets, completes a location, moves between locations, picks the
  highlight area for a snippet, disables cards and dispatches keys.
- `section_manager.dfy` (module `Sections`): the section coordinator. It
  decides which section is shown, fills in the detail page, and starts a
  door story by a left swipe or the next button.

Every timer and image `onload`/`onerror` callback of the source that changes
modelled state is a method of its own. The environment may call it while the
callback is pending, in any order. Pending callbacks are counted or listed in
the state (`Pending`, `fixups`, `focuses`, `activations`, `swipeHides`,
`nextHides`). An animation frame runs at the end of the handler that requests
it.
No time is modelled. Leaflet's map bounds are a predicate passed by the
caller. The DOM is reduced to what the handlers read back:
- the section panels;
- the cards' classes;
- the title text;
- the continue and back-to-map buttons;
- the congratulation messages;
- the story container's view.

A handler that calls into another module returns what it asks of it as a
value:
- a story `Effect`;
- the location id to open;
- whether `showSection("map")` initialises the map and the carousel.

## Model

| member | source | states |
|---|---|---|
| Content.FindLocation | public/js/sectionManager.js:59 | `locations.find` by id: the first location with that id and its index; `None` exactly when no location has the id |
| Content.FindCard | public/app.js:459-460 | the card bound to a location id: the first card showing it; `None` exactly when no card does |
| Content.Page.constructor | public/app.js:161-165 | the page at start: the continue button hidden, no cards, no messages, the visited set as loaded |
| StoryNavigation.Progress | public/js/storyNavigation.js:49-52 | the bar width `index / (count - 1) * 100`: NaN exactly for a one-slide story, otherwise in [0, 100], 0 exactly on the first slide and 100 exactly on the last |
| StoryNavigation.ProgressIncreasing | public/js/storyNavigation.js:49-52 | the width grows strictly with the slide index |
| StoryNavigation.ClassifyMirror | public/js/storyNavigation.js:72-110 | mirroring a movement left to right swaps a backward and a forward swipe, mirroring it vertically changes nothing, and any swipe has more than 50 pixels and more horizontal than vertical movement |
| StoryNavigation.TransitionSymmetric | public/js/storyNavigation.js:222-227 | a slide change is rendered the same way in both directions, since the choice depends only on whether the two images are equal |
| StoryNavigation.LeftDoorTransitions | public/js/storyData.js:52-115 | in the left-door story the first six slides change in place and the last change cross-fades |
| StoryNavigation.RightDoorTransitions | public/js/storyData.js:1-50 | in the right-door story the changes to the second and to the last slide cross-fade and the three in between are in place |
| StoryNavigation.FarmerTransitions | public/js/storyData.js:117-133 | the farmer-and-craftsman story changes its slide in place |
| StoryNavigation.Detach | public/js/storyNavigation.js:21-24 | disposing the active container leaves a subset of the attached containers that lacks the active one and keeps every other |
| StoryNavigation.StoryHost.constructor | public/js/storyNavigation.js:20-24 | the page starts with no active container and none attached |
| StoryNavigation.StoryHost.Start | public/js/storyNavigation.js:20-533 | the old active container is removed and a new one becomes active; the story starts at slide 0, unlocked, with nothing pending; no player exists exactly when the slide list is empty, and then the new container is never attached |
| StoryNavigation.StoryPlayer.constructor | public/js/storyNavigation.js:121-176 | the first slide's view: width for slide 0, next disabled iff the story has one slide, back-to-map button only on a one-slide story |
| StoryNavigation.StoryPlayer.NavigateStory | public/js/storyNavigation.js:207-221 | ignored while locked or when the target is outside the story; otherwise takes the lock and schedules one settle step for `index + direction`; index and view unchanged |
| StoryNavigation.StoryPlayer.SettleStep | public/js/storyNavigation.js:220-356 | commits the captured index, sets width, next-disabled and title; in place when the image is unchanged (back-to-map only on the last slide), otherwise starts a preload; always schedules the release |
| StoryNavigation.StoryPlayer.Release | public/js/storyNavigation.js:357-359 | the 800 ms timer clears the lock and changes nothing else |
| StoryNavigation.StoryPlayer.ImageLoaded | public/js/storyNavigation.js:287-347 | the preloaded slide goes on top of the old one: image, title and a fading back-to-map button on the last slide; its buttons have no listeners yet; the 800 ms cleanup is scheduled; the lock is untouched |
| StoryNavigation.StoryPlayer.CleanupDone | public/js/storyNavigation.js:343-346 | the cleanup timer removes the old slide and binds the buttons on screen; nothing else changes |
| StoryNavigation.StoryPlayer.ImageError | public/js/storyNavigation.js:350-353 | a failed preload only releases the lock |
| StoryNavigation.StoryPlayer.TouchEnd | public/js/storyNavigation.js:64-111 | while locked nothing happens; a backward swipe at slide 0 locks, reveals the detail page and schedules the removal; other swipes navigate by -1 or +1 |
| StoryNavigation.StoryPlayer.SwipeBackDone | public/js/storyNavigation.js:99-105 | the container is removed, the active reference cleared and the lock released |
| StoryNavigation.StoryPlayer.PrevButtonClick | public/js/storyNavigation.js:405-436 | a prev button without its listener does nothing; otherwise it acts as the prev listener |
| StoryNavigation.StoryPlayer.PrevListener | public/js/storyNavigation.js:405-436 | at slide 0 the detail page is revealed and the removal scheduled without locking; elsewhere it navigates back |
| StoryNavigation.StoryPlayer.PrevExitDone | public/js/storyNavigation.js:425-432 | the container is removed and the active reference cleared |
| StoryNavigation.StoryPlayer.HandleForwardNavigation | public/js/storyNavigation.js:382-402 | ignored while locked; while the detail page shows it locks and schedules hiding it; otherwise it navigates forward |
| StoryNavigation.StoryPlayer.ForwardHideDone | public/js/storyNavigation.js:395-399 | the detail page is hidden and the lock released |
| StoryNavigation.StoryPlayer.NextButtonClick | public/js/storyNavigation.js:439-443 | a disabled next button, or one without its listener, does nothing; otherwise it runs the forward navigation |
| StoryNavigation.StoryPlayer.HomeClick | public/js/storyNavigation.js:445-450 | once the button has its listener: removes the container, clears the active reference and shows the map; before that nothing |
| StoryNavigation.StoryPlayer.BackToMapClick | public/js/storyNavigation.js:453-466 | no button, or one without its listener: nothing; a button rebuilt in place: removes the container and shows the map at once; the fading button: schedules the exit |
| StoryNavigation.StoryPlayer.BackToMapDone | public/js/storyNavigation.js:457-462 | the faded container is removed, the active reference cleared, the map shown |
| StoryNavigation.StoryPlayer.ReboundTouchEnd | public/js/storyNavigation.js:480-501 | the second touch-end listener: while locked nothing; a backward swipe runs the prev listener; a forward swipe goes through the forward navigation |
| TourMap.IconTells | public/js/map.js:76-87 | a highlighted icon has the `highlighted` class and a normal one does not; both have `visited` iff visited and `disabled` iff disabled |
| TourMap.MarkerIconClasses | public/js/map.js:76-87 | the normal icon's class list is `location-marker`, then `visited`, then `disabled`, each only when set |
| TourMap.HighlightedIconClasses | public/js/map.js:221-236 | the highlighted icon's class list is `location-marker highlighted`, then `visited`, then `disabled`, each only when set |
| TourMap.FlagClasses | public/js/map.js:77-79 | a base class with optional classes appended after single spaces tokenises into exactly those classes |
| TourMap.TwoBaseFlagClasses | public/js/map.js:222-225 | the same with a two-word base |
| TourMap.Wrap | public/js/map.js:444-452 | the new card index: in range for a non-empty carousel, the neighbour when it exists, the last card before the first and the first after the last |
| TourMap.WrapIsModular | public/js/map.js:444-452 | for steps of one, the wrap-around is `(index + direction) mod count` |
| TourMap.VisitAllPresence | public/js/map.js:104-136 | after the visibility pass a location has a marker iff it is in bounds; ids of no location keep what they had |
| TourMap.VisitAllKeys | public/js/map.js:93-139 | starting from markers of known locations, the marker keys afterwards are exactly the in-bounds locations |
| TourMap.VisitAllEntries | public/js/map.js:104-136 | markers that stay are not replaced; new ones have fresh uids, the normal icon without `disabled` and a select-on-click handler |
| TourMap.VisitAllFixups | public/js/map.js:106-130 | one icon fix-up is scheduled per marker added, in list order |
| TourMap.VisitAllBounded | public/js/map.js:93-139 | uids grow, every marker's uid stays below the next uid, and no marker for an unknown location appears |
| TourMap.VisitAllPlaced | public/js/map.js:39-66 | when every location already has a marker, the pass changes no marker and schedules nothing |
| TourMap.NewFixupsNone | public/js/map.js:106-130 | no fix-up is scheduled when every location already has a marker |
| TourMap.PlaceAllFacts | public/js/map.js:39-59 | `initMap`'s loop: a marker for every location, with fresh uids, the icon with `disabled` from id 5 on, and a click that opens the detail page only below id 5 |
| TourMap.HighlightThenReset | public/js/map.js:160-166 | a highlight followed by the carousel's reset survives only for ids of 5 or more; below 5 all icons end up normal |
| TourMap.FocusSurvivesHighlight | public/js/map.js:242-266 | highlighting replaces no marker, so a scheduled highlight still finds its marker |
| TourMap.FocusSurvivesReset | public/js/map.js:160-166 | resetting icons replaces no marker either |
| TourMap.FocusFor | public/js/map.js:175-192 | a highlight is scheduled exactly when the current id is below 5 and has a marker, and it captures that marker |
| TourMap.FirstHighlighted | public/js/map.js:97-99 | the first card carrying `highlighted`; `None` iff no card carries it |
| TourMap.HighlightKeepsFit | public/js/map.js:195-198 | moving `highlighted` keeps the cards in step with the locations |
| TourMap.MapAdapter.constructor | public/js/map.js:4-8 | no map, no markers, card index 0, nothing pending |
| TourMap.MapAdapter.ResetIcons | public/js/map.js:160-166 | every present marker (or those below id 5) gets its normal icon without `disabled`; nothing else about the markers changes |
| TourMap.MapAdapter.HighlightMarker | public/js/map.js:242-266 | every marker is reset, the target highlighted if present; afterwards a marker is highlighted iff it is the target's |
| TourMap.MapAdapter.UnhighlightMarker | public/js/map.js:272-281 | only the target's marker, if present and below id 5, gets its normal icon back |
| TourMap.MapAdapter.UpdateVisibleMarkers | public/js/map.js:93-139 | without a map nothing changes; otherwise the markers, uids and fix-ups equal the visibility pass over the locations in list order |
| TourMap.MapAdapter.FixupDone | public/js/map.js:106-130 | a fix-up sets the icon of whatever marker the location has by then (highlighted if its card was highlighted when scheduled) |
| TourMap.MapAdapter.FocusDone | public/js/map.js:175-192 | a 50 ms highlight acts only on the marker it captured, if that is still the location's marker |
| TourMap.MapAdapter.SpotlightCard | public/js/map.js:195-198 | exactly card `k` carries `highlighted`; nothing else about the cards changes |
| TourMap.MapAdapter.ScheduleFocus | public/js/map.js:175-192 | the pending highlights gain the current card's marker when it is below id 5 and present |
| TourMap.MapAdapter.UpdateCarouselView | public/js/map.js:145-212 | no cards: nothing; otherwise icons below id 5 reset, exactly the current card highlighted, prev disabled at the first card and next at the last, the current marker's highlight scheduled |
| TourMap.MapAdapter.InitMap | public/js/map.js:14-66 | without a container nothing changes; otherwise markers exist exactly for the in-bounds locations, with the initial icons and click handlers, and no fix-up is scheduled |
| TourMap.MapAdapter.PlaceMarkers | public/js/map.js:39-59 | the markers are the placement of every location, one fresh uid each |
| TourMap.MapAdapter.InitCarousel | public/js/map.js:325-420 | one card per location in order, `visited` and `disabled` from the location, click handler only below id 5, card 0 highlighted, index 0, prev disabled and next disabled iff there is one card, card 0's highlight scheduled; with no locations the markers, highlights and buttons stay as they were |
| TourMap.MapAdapter.NavigateCarousel | public/js/map.js:444-452 | the index wraps around and the view is rendered for it |
| TourMap.MapAdapter.CardClick | public/js/map.js:364-383 | a card without a handler changes nothing, buttons included; otherwise it becomes current and exactly it is highlighted; it opens the detail page only if it was already highlighted |
| TourMap.MapAdapter.SelectCard | public/js/map.js:364-383 | selecting a card that was not highlighted highlights its marker; an already highlighted card leaves the markers and yields its id |
| TourMap.MapAdapter.MarkerClick | public/js/map.js:296-307 | a disabled initial marker does nothing; an initial marker opens its location; a re-added marker opens it when its card is current; in those cases the highlights and buttons stay; otherwise it selects the card: with a carousel, prev disabled iff it is the first, next iff the last, and its marker's highlight scheduled |
| TourMap.MapAdapter.SelectFromMarker | public/js/map.js:296-307 | the selecting branch: the card index becomes the location's, the marker stays highlighted only for ids of 5 or more or without a carousel, exactly the card is highlighted, and the buttons and the scheduled highlight follow the new card |
| TourMap.MapAdapter.CardHover | public/js/map.js:385-394 | entering a clickable, unhighlighted card highlights its marker; leaving restores it; other cards change nothing |
| TourMap.MapAdapter.MarkerHover | public/js/map.js:296-307 | hovering a marker with a click handler highlights it, leaving restores it; a disabled initial marker ignores hovering |
| Tour.ShareStep | public/app.js:417-447 | a step forward adds `100 / count` to the bar and a step back removes it |
| Tour.Step | public/app.js:436-447 | the width of one snippet's step: non-negative, and as many steps as snippets fill the bar |
| Tour.ShareAtLast | public/app.js:417-430 | on the last snippet the bar stands at `100 - 100 / count`, below full |
| Tour.MarkVisited | public/app.js:457-461 | every card is unchanged or is the location's card with `visited`; when the location has a card, a card of it is visited afterwards |
| Tour.MarkVisitedKeepsFit | public/app.js:453-486 | after completion the cards agree with the enlarged visited set |
| Tour.MarkVisitedIdempotent | public/app.js:457-461 | completing a location twice marks the same cards as once |
| Tour.DisableAll | public/app.js:632-639 | each card is passed through the disabling step, in order |
| Tour.DisableAllMeaning | public/app.js:632-639 | afterwards a card is disabled iff it was or its id is at least 5; nothing else changes |
| Tour.DisableAllIdempotent | public/app.js:632-639 | a second pass changes nothing |
| Tour.DisableAllAfterCarousel | public/app.js:641-646 | the cards the carousel builds are already disabled from id 5 on, so the pass changes nothing |
| Tour.DisableCards | public/app.js:632-639 | the cards become the disabling pass of the old cards |
| Tour.HighlightFor | public/app.js:36-56 | no area iff the location has none; otherwise one of its areas |
| Tour.HighlightCycles | public/app.js:52-56 | snippet `i` uses area `i` while there are enough areas, then the areas start over |
| Tour.KeyDispatch | public/app.js:296-318 | the info and back-to-map actions need the detail view; outside it exactly the arrow keys move the carousel |
| Tour.ArrowsMoveCarousel | public/app.js:296-318 | with the detail flag never set, the left and right arrows move the carousel by -1 and +1 and never page the info |
| Tour.TourApp.constructor | public/app.js:13-16 | location 0, snippet 0, progress 0, with the bar in step with the snippet |
| Tour.TourApp.CompleteLocation | public/app.js:453-486 | the location counts as visited, its card says so, one congratulation is appended, continue gives way to back-to-map; without a location nothing changes |
| Tour.TourApp.ShowNextInfo | public/app.js:417-430 | the next snippet and one step more, with the messages cleared; on the last snippet the location is completed; keeps the index in range and the bar in step |
| Tour.TourApp.ShowPreviousInfo | public/app.js:436-447 | the previous snippet and one step less, with the messages cleared; at the first snippet nothing; keeps the index in range and the bar in step |
| Tour.TourApp.ShowNextDetailArea | public/app.js:522-531 | like the next-snippet step, messages cleared, but on the last snippet nothing happens |
| Tour.TourApp.ShowPreviousDetailArea | public/app.js:537-546 | the same step back as the previous-snippet handler, messages cleared |
| Tour.TourApp.StepBack | public/app.js:440-443 | one snippet back and one step less, keeping the bar in step, with the messages cleared |
| Tour.TourApp.ClearInfo | public/app.js:399-411 | `updateInfoText` empties the info container, so the congratulation messages are gone; nothing else on the page changes |
| Tour.TourApp.NavigateLocation | public/app.js:499-516 | the location index wraps around the list and the new location is opened; without locations nothing changes |
| Sections.FindPanel | public/js/sectionManager.js:29 | the first section with the id; `None` iff there is none |
| Sections.HideAll | public/js/sectionManager.js:19-27 | every section loses `active`, is hidden and scrolled up |
| Sections.ShowOnlyExclusive | public/js/sectionManager.js:18-52 | hide-then-reveal: afterwards no section is active and all are scrolled up, only the first with the id is displayed, and one is displayed iff the id exists |
| Sections.ShowOnlyIdempotent | public/js/sectionManager.js:18-52 | showing a section twice is the same as showing it once |
| Sections.WithDisplay | public/js/sectionManager.js:86-138 | showing or hiding a section keeps every section's id in its place |
| Sections.WithDisplayKeepsLookup | public/js/sectionManager.js:86-138 | after showing or hiding a section every lookup by id finds the same section |
| Sections.WithDisplayTouchesOne | public/js/sectionManager.js:86-138 | only the display of the first section with the id changes, to the value given; with no such section nothing changes |
| Sections.WithDisplayOverrides | public/js/sectionManager.js:86-138 | of two display changes to the same section the second wins |
| Sections.StoryForTitle | public/js/sectionManager.js:92-104 | each door title selects its story; the story is non-empty iff the title is one of the three |
| Sections.Coordinator.constructor | public/js/sectionManager.js:10-12 | the home section, no detail view, index 0, no lock, nothing pending |
| Sections.Coordinator.ShowSection | public/js/sectionManager.js:18-52 | the sections become the hide-then-reveal of the id; an unknown id changes nothing else; a known one becomes current, sets the detail flag iff it is the detail page, schedules its activation, and the map is initialised iff it is the map |
| Sections.Coordinator.HideSections | public/js/sectionManager.js:19-27 | the sections become the hiding pass of the old ones |
| Sections.Coordinator.ActivateDone | public/js/sectionManager.js:36-38 | the scheduled section gets `active` |
| Sections.Coordinator.UpdateDetailView | public/js/sectionManager.js:224-291 | the title shows the location's name, the messages are cleared, continue is shown unless it is an overview, back-to-map hidden |
| Sections.Coordinator.ShowLocationDetail | public/js/sectionManager.js:58-146 | an unknown id changes nothing; otherwise the location becomes current, the detail page shows it with the messages cleared and is the only section shown; when the detail section exists it becomes current, the detail flag is set and its activation scheduled |
| Sections.Coordinator.DetailSwipeEndAsWritten | public/js/sectionManager.js:76-141 | as written: a left swipe sets the flag and starts the story for the title, which disposes the old container and makes a new one active; with no story the flag stays set |
| Sections.Coordinator.DetailSwipeEnd | public/js/sectionManager.js:76-141 | corrected: a left swipe starts the story for the title, disposing the old container and making a new one active; the flag stays set until the slide-out when a story started, and is clear when none could |
| Sections.Coordinator.SwipeHideDone | public/js/sectionManager.js:127-138 | the detail page is hidden and the flag cleared |
| Sections.Coordinator.DetailNextClick | public/js/sectionManager.js:174-217 | every click disposes the old container and makes a new one active; a story is started exactly when the title has one, and then its hiding is scheduled |
| Sections.Coordinator.NextHideDone | public/js/sectionManager.js:212-215 | the detail page is hidden |
| Sections.Coordinator.Apply | public/js/storyNavigation.js:85-463 | the effects the story handlers ask for: the map is shown as `showSection("map")` does it (current section, detail flag cleared, activation scheduled, when the section exists); revealing or hiding the detail page touches only its display; staying changes nothing |
| Sections.StuckSwipeWitness | public/js/sectionManager.js:106-108 | after a left swipe on a title without a story, a left swipe on the left door's title starts no story as written, but does once corrected |

## Left out

- Leaflet: tiles, `flyTo`, `invalidateSize`, the zoom timers and the map's own events. The bounds are a predicate the caller passes.
- Hammer and the touch-start listeners. A touch end is given as its two deltas.
- Styling: opacity, transforms, transitions, scroll behaviour, the subtitle, the detail image and the Google Maps link.
- The category argument of the icon functions is unused in the source and is not modelled.
- `typewriterEffect` is not defined anywhere in the repository (app.js:407). `updateInfoText` and `updateProgressBar` write only the DOM, so their rendering is not modelled; the snippet index and `progress` are.
- `updateInfoText`, `updateProgressBar` and `highlightImageArea` are called unqualified in sectionManager.js (:274, :286, :289). No module defines them, so the source raises a ReferenceError there. The model treats those calls as doing nothing and lets `updateDetailView` finish.
- Sections.Coordinator.ShowLocationDetail: as written, `updateDetailView` raises for every location, at :286 for an overview and already at :274 for any other. So `showLocationDetail` never reaches `showSection("location-detail")` (:146), the prev binding (:148-172) or the next-button binding (:174). The model follows the evident intent instead: the title, the buttons and the shown section are set as the code after those calls does.
- Sections.Coordinator.DetailNextClick rests on that same choice: as written, the next-button binding (sectionManager.js:174-175) and the prev binding (:159) come after the raise and are never made. The detail page's touch-end listener (:67-141) and the title (:239) are set before the raise, so the finding below holds as written. Only the detail page being on screen depends on the choice.
- `navigateContent`, `currentStoryIndex` and `updateStoryView` (app.js:330-375): `updateStoryView` is not defined in the repository.
- The continue-button handler (app.js:226-245) is not modelled. It fades the detail page out and, after 500 ms, hides it (:237). It then calls `initDoorStory` with `this.rightDoorStoryStates` or `this.leftDoorStoryStates` (:230-231), which nothing assigns. So `initDoorStory` disposes the active story container and makes a new one active, then raises a TypeError reading the first slide (storyNavigation.js:122). The append at app.js:238 is never reached.
- The prev button's `onclick` bound by `showLocationDetail` (sectionManager.js:159-171) is not modelled either. It displays the detail page again (:162), then reads the undeclared `activeStoryContainer` (:166) and raises a ReferenceError, so no container is removed. As written it is never bound (see above).
- The `#home-btn` handler (app.js:199-224) tests `this.currentSection`, which nothing assigns, so it never acts. It is not modelled.
- Only the second `navigateLocation` (app.js:499-516) is modelled, because it overrides the first (:383-392). The source throws at :501 when there are no locations; the model returns `None` and changes nothing.
- `app.isDetailView` is never assigned, so `keydown` always takes the carousel branch (Tour.ArrowsMoveCarousel).
- Duplicate listeners: each `showLocationDetail` rebinds `touchend` and the next button. The model handles one event per call.
- The case where the `location-detail` element is missing (storyNavigation.js:78-81 and similar) is not modelled: the document always has it.
- `getElementById` over elements that are not sections is not modelled. Sections are looked up by their ids only.
- Lazy image loading, `IntersectionObserver` and `DOMContentLoaded` wiring.
- `requestAnimationFrame`: each body runs at the end of the handler that requests it.
- The 50 ms timer after a preloaded slide is added (storyNavigation.js:339-341) only sets the new slide's opacity, so it is styling and is not a method.
- StoryNavigation.StoryPlayer.SettleStep: between a cross-fade's `onload` and its 800 ms cleanup the old slide is still the first `.story-slide`. A slide change settled in that window renders, in the source, into the fading old slide, and an in-place change to the new slide's image is lost. The model has one view of the shown slide and does not tell the two slides apart. Overlapping cross-fades are not told apart either.
- StoryNavigation.StoryPlayer.ReboundTouchEnd: the model lets it run on its own. In the source it runs right after StoryNavigation.StoryPlayer.TouchEnd on the same touch end, so any swipe that TouchEnd turned into a slide change finds the lock taken. Each cleanup runs `setupEventListeners` again, so the source accumulates one more such listener per cross-fade; the model handles one call per event.
- Tour.Step: with an empty info list the source divides by zero and JavaScript yields Infinity. The model uses 0. The next-snippet handler cannot reach that case, and the previous-snippet handler reaches it only when the index is above 0.
- Tour.HighlightFor: takes the snippet index as a natural number, since the source never makes it negative.
- TourMap.MapAdapter.FocusDone: a marker captured by the 50 ms timer and later removed from the map is a detached object in the source; the model treats a highlight on it as invisible and changes nothing.
- Floating point: `progress` and the story width are reals, so there is no rounding and no IEEE NaN other than the one-slide case, which is a constructor of its own.

## Findings

| source | as written | input that shows it | evidently intended | confidence | as-written member | corrected member |
|---|---|---|---|---|---|---|
| public/js/sectionManager.js:106-108 | after a left swipe the handler sets `data-transitioning` to "true" and calls `initDoorStory`. For a title without a story the slide list is empty, and building the first slide raises (storyNavigation.js:122-126), so the check for a missing container is never reached and the flag stays "true". Every later left swipe on the detail page is then ignored | a detail page titled "Ein anderer Ort", a left swipe with dx = -100, dy = 0, then the title "Linke Rathaustür" and the same swipe | clear the flag when no story container is made, so the next swipe can start a story | not executed | Sections.Coordinator.DetailSwipeEndAsWritten (shown by Sections.StuckSwipeWitness) | Sections.Coordinator.DetailSwipeEnd |
