/** The `app` object of the tour page: paging through a location's info
    snippets with a progress bar, completing a location, moving between
    locations, the highlight area each snippet uses, the start-tour pass that
    disables cards, and the keyboard dispatch. */
module Tour {
  import opened Content
  import TourMap

  /** The location at the application's index, if there is one. */
  function LocationAt(locs: seq<Location>, index: int): Option<Location> {
    if 0 <= index < |locs| then Some(locs[index]) else None
  }

  /** The progress bar's width after `index` steps of `100 / count` each. */
  function Share(index: int, count: nat): real
    requires count > 0
  {
    index as real * 100.0 / count as real
  }

  /** One step forward adds a step width, one step back removes it. */
  lemma ShareStep(index: int, count: nat)
    requires count > 0
    ensures Share(index, count) + 100.0 / count as real == Share(index + 1, count)
    ensures Share(index, count) - 100.0 / count as real == Share(index - 1, count)
  {
    var c := count as real;
    assert Share(index + 1, count) == (index as real * 100.0 + 100.0) / c;
    assert Share(index - 1, count) == (index as real * 100.0 - 100.0) / c;
  }

  /** `100 / info.length`, the width of one snippet's step. With no
      snippets JavaScript divides by zero; the model then takes no step. */
  function Step(info: seq<string>): (r: real)
    ensures r >= 0.0
    ensures |info| > 0 ==> r * |info| as real == 100.0
  {
    if |info| == 0 then 0.0 else 100.0 / |info| as real
  }

  /** On the last of `count` snippets the bar stands one step short of full:
      completing a location does not move it. */
  lemma ShareAtLast(count: nat)
    requires count > 0
    ensures Share(count - 1, count) == 100.0 - 100.0 / count as real
    ensures Share(count - 1, count) < 100.0
  {
    ShareStep(count - 1, count);
    assert Share(count, count) == 100.0;
  }

  // ---------------------------------------------------------------------
  // Visited cards

  /** `location.card.classList.add("visited")`: the card the carousel bound
      to location `id`, if it built one, gets the `visited` class; no other
      card changes. */
  function MarkVisited(cards: seq<Card>, id: int): (r: seq<Card>)
    ensures |r| == |cards|
    ensures forall k :: 0 <= k < |r| ==> r[k] == cards[k] || (cards[k].locationId == id && r[k] == cards[k].(visited := true))
    ensures (exists k :: 0 <= k < |cards| && cards[k].locationId == id) ==> exists k :: 0 <= k < |r| && r[k].locationId == id && r[k].visited
  {
    match FindCard(cards, id)
    case None => cards
    case Some(k) => cards[k := cards[k].(visited := true)]
  }

  /** Marking the completed location's card keeps the cards in step with the
      locations once the location joins the visited set. */
  lemma MarkVisitedKeepsFit(cards: seq<Card>, locs: seq<Location>, visited: set<int>, id: int)
    requires UniqueIds(locs) && CardsFit(cards, locs, visited)
    ensures CardsFit(MarkVisited(cards, id), locs, visited + {id})
  {
    var r := MarkVisited(cards, id);
    if |cards| > 0 {
      forall k | 0 <= k < |r|
        ensures r[k].visited <==> locs[k].id in visited + {id}
      {
        if locs[k].id == id && r[k] == cards[k] {
          assert FindCard(cards, id).Some?;
          var j := FindCard(cards, id).value;
          assert locs[j].id == id;
          assert j == k;
        }
      }
    }
  }

  /** Completing a location twice marks the same cards as completing it once. */
  lemma MarkVisitedIdempotent(cards: seq<Card>, id: int)
    ensures MarkVisited(MarkVisited(cards, id), id) == MarkVisited(cards, id)
  {
    var r := MarkVisited(cards, id);
    match FindCard(cards, id)
    case None =>
    case Some(k) =>
      assert FindCard(r, id) == Some(k) by {
        assert forall j :: 0 <= j < k ==> r[j] == cards[j];
      }
  }

  // ---------------------------------------------------------------------
  // Disabling cards

  /** One card of `disableCards`: ids from 5 on get `disabled` if they lack it. */
  function DisableCard(c: Card): Card {
    if c.locationId >= 5 && !c.disabled then c.(disabled := true) else c
  }

  /** `disableCards` over the cards in document order. */
  function DisableAll(cards: seq<Card>): (r: seq<Card>)
    ensures |r| == |cards|
    ensures forall k :: 0 <= k < |r| ==> r[k] == DisableCard(cards[k])
    decreases |cards|
  {
    if |cards| == 0 then []
    else DisableAll(cards[..|cards| - 1]) + [DisableCard(cards[|cards| - 1])]
  }

  /** A card is disabled afterwards iff it was or its id is at least 5, and
      nothing but the `disabled` class changes. */
  lemma DisableAllMeaning(cards: seq<Card>)
    ensures forall k :: 0 <= k < |cards| ==>
      && (DisableAll(cards)[k].disabled <==> cards[k].disabled || cards[k].locationId >= 5)
      && DisableAll(cards)[k] == cards[k].(disabled := DisableAll(cards)[k].disabled)
  {
  }

  /** Running `disableCards` again changes nothing. */
  lemma DisableAllIdempotent(cards: seq<Card>)
    ensures DisableAll(DisableAll(cards)) == DisableAll(cards)
  {
    var r := DisableAll(cards);
    assert forall k :: 0 <= k < |r| ==> DisableCard(r[k]) == r[k];
  }

  /** The cards `initCarousel` builds already carry `disabled` from id 5 on,
      so the start-tour button's `disableCards`, which runs after the map
      section was shown, finds nothing to do. */
  lemma DisableAllAfterCarousel(cards: seq<Card>, locs: seq<Location>, visited: set<int>)
    requires CardsFit(cards, locs, visited)
    ensures DisableAll(cards) == cards
  {
    var r := DisableAll(cards);
    assert forall k :: 0 <= k < |r| ==> r[k] == cards[k];
  }

  /** `disableCards`, the `forEach` over the `.location-card` elements. */
  method DisableCards(page: Page)
    modifies page`cards
    ensures page.cards == DisableAll(old(page.cards))
  {
    var i := 0;
    ghost var c0 := page.cards;
    while i < |page.cards|
      invariant 0 <= i <= |page.cards| == |c0|
      invariant forall k :: 0 <= k < |page.cards| ==> page.cards[k] == if k < i then DisableCard(c0[k]) else c0[k]
    {
      var c := page.cards[i];
      if c.locationId >= 5 && !c.disabled {
        page.cards := page.cards[i := c.(disabled := true)];
      }
      i := i + 1;
    }
  }

  // ---------------------------------------------------------------------
  // Highlight areas

  /** The area `highlightImageArea` focuses for snippet `infoIndex`: none if
      the location has no areas, otherwise the areas taken in turn. */
  function HighlightFor(loc: Location, infoIndex: nat): (r: Option<Area>)
    ensures r.None? <==> loc.highlightAreas.None? || |loc.highlightAreas.value| == 0
    ensures r.Some? ==> r.value in loc.highlightAreas.value
  {
    if loc.highlightAreas.None? || |loc.highlightAreas.value| == 0 then None
    else Some(loc.highlightAreas.value[infoIndex % |loc.highlightAreas.value|])
  }

  /** The areas are used in list order and start over after the last one. */
  lemma HighlightCycles(loc: Location, infoIndex: nat)
    requires loc.highlightAreas.Some? && |loc.highlightAreas.value| > 0
    ensures infoIndex < |loc.highlightAreas.value| ==> HighlightFor(loc, infoIndex) == Some(loc.highlightAreas.value[infoIndex])
    ensures HighlightFor(loc, infoIndex + |loc.highlightAreas.value|) == HighlightFor(loc, infoIndex)
  {
    ModAddDivisor(infoIndex, |loc.highlightAreas.value|);
  }

  lemma ModAddDivisor(i: nat, n: nat)
    requires n > 0
    ensures i < n ==> i % n == i
    ensures (i + n) % n == i % n
  {
    if i < n {
      ModUnique(i, n, 0, i);
    }
    ModUnique(i + n, n, i / n + 1, i % n);
  }

  /** Euclidean division has one quotient and one remainder. */
  lemma ModUnique(x: int, n: int, q: int, r: int)
    requires n > 0 && 0 <= r < n && x == q * n + r
    ensures x % n == r
  {
    var q0, r0 := x / n, x % n;
    assert (q - q0) * n == r0 - r;
    if q > q0 {
      MulAtLeast(q - q0, n);
    } else if q < q0 {
      MulAtLeast(q0 - q, n);
    }
  }

  lemma MulAtLeast(a: int, n: int)
    requires a >= 1 && n > 0
    ensures a * n >= n
  {
    assert a * n == n + (a - 1) * n;
  }

  // ---------------------------------------------------------------------
  // Keyboard

  datatype Key = ArrowLeft | ArrowRight | Escape | OtherKey

  /** What the `keydown` listener does with a key. */
  datatype KeyAction = PreviousInfo | NextInfo | MoveCarousel(direction: int) | BackToMap | NoAction

  /** The `keydown` switch, as a function of the `isDetailView` flag it reads. */
  function KeyDispatch(key: Key, isDetailView: bool): (r: KeyAction)
    ensures r.PreviousInfo? || r.NextInfo? || r.BackToMap? ==> isDetailView
    ensures !isDetailView ==> (r.MoveCarousel? <==> key == ArrowLeft || key == ArrowRight)
  {
    match key
    case ArrowLeft => if isDetailView then PreviousInfo else MoveCarousel(-1)
    case ArrowRight => if isDetailView then NextInfo else MoveCarousel(1)
    case Escape => if isDetailView then BackToMap else NoAction
    case OtherKey => NoAction
  }

  /** The listener reads `this.isDetailView`, which nothing in `app` assigns:
      arrow keys always move the carousel and never page the info. */
  lemma ArrowsMoveCarousel(key: Key)
    ensures key == ArrowLeft ==> KeyDispatch(key, false) == MoveCarousel(-1)
    ensures key == ArrowRight ==> KeyDispatch(key, false) == MoveCarousel(1)
    ensures KeyDispatch(key, false) != PreviousInfo && KeyDispatch(key, false) != NextInfo
  {
  }

  // ---------------------------------------------------------------------
  // The app object

  class TourApp {
    const page: Page
    var currentLocationIndex: int
    var currentInfoIndex: int
    /** The progress bar's width in percent. */
    var progress: real

    /** The location index is one of the locations' (0 when there are none)
        and the info index is never negative. */
    ghost predicate Valid()
      reads this
    {
      && (|page.locations| > 0 ==> 0 <= currentLocationIndex < |page.locations|)
      && (|page.locations| == 0 ==> currentLocationIndex == 0)
      && currentInfoIndex >= 0
    }

    /** The current location's snippets, if it has any. */
    function CurrentInfo(): Option<seq<string>>
      reads this
    {
      match LocationAt(page.locations, currentLocationIndex)
      case None => None
      case Some(l) => l.info
    }

    /** The info index points at one of the current location's snippets. */
    ghost predicate InRange()
      reads this
    {
      CurrentInfo().Some? && |CurrentInfo().value| > 0 ==> 0 <= currentInfoIndex < |CurrentInfo().value|
    }

    /** The bar shows the snippets passed so far. */
    ghost predicate Paged()
      reads this
    {
      CurrentInfo().Some? && |CurrentInfo().value| > 0 ==> progress == Share(currentInfoIndex, |CurrentInfo().value|)
    }

    constructor (page: Page)
      ensures this.page == page && currentLocationIndex == 0 && currentInfoIndex == 0 && progress == 0.0
      ensures Valid() && InRange() && Paged()
    {
      this.page := page;
      currentLocationIndex := 0;
      currentInfoIndex := 0;
      progress := 0.0;
    }

    /** What `completeLocation` did to the page for the location with `id`. */
    twostate predicate Completed(id: int)
      reads this, page
    {
      && page.visited == old(page.visited) + {id}
      && page.cards == MarkVisited(old(page.cards), id)
      && page.congratulations == old(page.congratulations) + 1
      && !page.continueShown && page.backToMapShown
      && page.titleText == old(page.titleText)
    }

    /** `completeLocation`: the location counts as visited, its card says so,
        a congratulation is appended, continue gives way to back-to-map. */
    method CompleteLocation()
      requires page.Valid()
      modifies page`visited, page`cards, page`congratulations, page`continueShown, page`backToMapShown
      ensures page.Valid()
      ensures match LocationAt(page.locations, currentLocationIndex)
        case None => unchanged(page)
        case Some(l) => Completed(l.id) && l.id in page.visited
    {
      if !(0 <= currentLocationIndex < |page.locations|) {
        return;
      }
      var l := page.locations[currentLocationIndex];
      MarkVisitedKeepsFit(page.cards, page.locations, page.visited, l.id);
      page.visited := page.visited + {l.id};
      page.cards := MarkVisited(page.cards, l.id);
      page.congratulations := page.congratulations + 1;
      page.continueShown := false;
      page.backToMapShown := true;
    }

    /** `showNextInfo`: the next snippet, one step more progress; on the last
        snippet the location is completed instead. Without a location or
        snippets nothing happens. */
    method ShowNextInfo()
      requires Valid() && page.Valid()
      modifies this`currentInfoIndex, this`progress
      modifies page`visited, page`cards, page`congratulations, page`continueShown, page`backToMapShown
      ensures Valid() && page.Valid()
      ensures old(CurrentInfo()).None? ==>
        unchanged(page) && currentInfoIndex == old(currentInfoIndex) && progress == old(progress)
      ensures old(CurrentInfo()).Some? && old(currentInfoIndex) < |old(CurrentInfo()).value| - 1 ==>
        && currentInfoIndex == old(currentInfoIndex) + 1
        && progress == old(progress) + 100.0 / |old(CurrentInfo()).value| as real
        && page.OnlyMessagesCleared()
      ensures old(CurrentInfo()).Some? && old(currentInfoIndex) >= |old(CurrentInfo()).value| - 1 ==>
        && currentInfoIndex == old(currentInfoIndex) && progress == old(progress)
        && Completed(page.locations[currentLocationIndex].id)
      ensures old(InRange()) ==> InRange()
      ensures old(Paged()) ==> Paged()
    {
      var loc := LocationAt(page.locations, currentLocationIndex);
      if loc.None? || loc.value.info.None? {
        return;
      }
      var info := loc.value.info.value;
      if currentInfoIndex < |info| - 1 {
        ShareStep(currentInfoIndex, |info|);
        currentInfoIndex := currentInfoIndex + 1;
        progress := progress + 100.0 / |info| as real;
        ClearInfo();
      } else {
        CompleteLocation();
      }
    }

    /** `showPreviousInfo`: the previous snippet, one step less progress;
        nothing on the first snippet or without a location or snippets. */
    method ShowPreviousInfo()
      requires Valid()
      modifies this`currentInfoIndex, this`progress, page`congratulations
      ensures Valid()
      ensures old(CurrentInfo()).Some? && old(currentInfoIndex) > 0 ==>
        && currentInfoIndex == old(currentInfoIndex) - 1
        && progress == old(progress) - Step(old(CurrentInfo()).value)
        && page.OnlyMessagesCleared()
      ensures !(old(CurrentInfo()).Some? && old(currentInfoIndex) > 0) ==>
        currentInfoIndex == old(currentInfoIndex) && progress == old(progress) && unchanged(page)
      ensures old(InRange()) ==> InRange()
      ensures old(Paged()) ==> Paged()
    {
      var loc := LocationAt(page.locations, currentLocationIndex);
      if loc.None? || loc.value.info.None? {
        return;
      }
      var info := loc.value.info.value;
      if currentInfoIndex > 0 {
        StepBack(info);
      }
    }

    /** `showNextDetailArea`: like `showNextInfo`, but on the last snippet it
        does nothing; it never completes the location. */
    method ShowNextDetailArea()
      requires Valid()
      modifies this`currentInfoIndex, this`progress, page`congratulations
      ensures Valid()
      ensures old(CurrentInfo()).Some? && old(currentInfoIndex) < |old(CurrentInfo()).value| - 1 ==>
        && currentInfoIndex == old(currentInfoIndex) + 1
        && progress == old(progress) + 100.0 / |old(CurrentInfo()).value| as real
        && page.OnlyMessagesCleared()
      ensures !(old(CurrentInfo()).Some? && old(currentInfoIndex) < |old(CurrentInfo()).value| - 1) ==>
        currentInfoIndex == old(currentInfoIndex) && progress == old(progress) && unchanged(page)
      ensures old(InRange()) ==> InRange()
      ensures old(Paged()) ==> Paged()
    {
      var loc := LocationAt(page.locations, currentLocationIndex);
      if loc.Some? && loc.value.info.Some? && currentInfoIndex < |loc.value.info.value| - 1 {
        var info := loc.value.info.value;
        ShareStep(currentInfoIndex, |info|);
        currentInfoIndex := currentInfoIndex + 1;
        progress := progress + 100.0 / |info| as real;
        ClearInfo();
      }
    }

    /** `showPreviousDetailArea`: the same step back as `showPreviousInfo`. */
    method ShowPreviousDetailArea()
      requires Valid()
      modifies this`currentInfoIndex, this`progress, page`congratulations
      ensures Valid()
      ensures old(CurrentInfo()).Some? && old(currentInfoIndex) > 0 ==>
        && currentInfoIndex == old(currentInfoIndex) - 1
        && progress == old(progress) - Step(old(CurrentInfo()).value)
        && page.OnlyMessagesCleared()
      ensures !(old(CurrentInfo()).Some? && old(currentInfoIndex) > 0) ==>
        currentInfoIndex == old(currentInfoIndex) && progress == old(progress) && unchanged(page)
      ensures old(InRange()) ==> InRange()
      ensures old(Paged()) ==> Paged()
    {
      var loc := LocationAt(page.locations, currentLocationIndex);
      if loc.Some? && loc.value.info.Some? && currentInfoIndex > 0 {
        StepBack(loc.value.info.value);
      }
    }

    /** One snippet back, with the bar one step shorter and the info
        container emptied. */
    method StepBack(info: seq<string>)
      requires Valid() && currentInfoIndex > 0 && CurrentInfo() == Some(info)
      modifies this`currentInfoIndex, this`progress, page`congratulations
      ensures Valid() && page.OnlyMessagesCleared()
      ensures currentInfoIndex == old(currentInfoIndex) - 1 && progress == old(progress) - Step(info)
      ensures old(InRange()) ==> InRange()
      ensures old(Paged()) ==> Paged()
    {
      if |info| > 0 {
        ShareStep(currentInfoIndex, |info|);
      }
      currentInfoIndex := currentInfoIndex - 1;
      progress := progress - Step(info);
      ClearInfo();
    }

    /** `updateInfoText` after a step: it empties the info container, which
        removes the congratulation messages, and then fails on the undefined
        `typewriterEffect`, so the rest of the step's rendering is not reached. */
    method ClearInfo()
      modifies page`congratulations
      ensures page.OnlyMessagesCleared()
    {
      page.congratulations := 0;
    }

    /** The effective `navigateLocation`: the location index wraps around the
        list and the new location's detail page is to be shown (the id it
        returns). Without locations the handler fails on its first line and
        changes nothing. The info index and the progress are kept. */
    method NavigateLocation(direction: int) returns (open: Option<int>)
      requires Valid()
      modifies this`currentLocationIndex
      ensures Valid()
      ensures |page.locations| == 0 ==> open == None && currentLocationIndex == old(currentLocationIndex)
      ensures |page.locations| > 0 ==>
        && currentLocationIndex == TourMap.Wrap(old(currentLocationIndex), direction, |page.locations|)
        && open == Some(page.locations[currentLocationIndex].id)
    {
      open := None;
      if |page.locations| == 0 {
        return;
      }
      currentLocationIndex := TourMap.Wrap(currentLocationIndex, direction, |page.locations|);
      open := Some(page.locations[currentLocationIndex].id);
    }
  }
}
