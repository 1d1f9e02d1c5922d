/** The section coordinator (public/js/sectionManager.js): which content
    section is shown, whether the detail view is up, the detail page of a
    location, and the two ways out of it into a door story (a left swipe and
    the next button). Timer callbacks are methods of their own. */
module Sections {
  import opened Content
  import StoryData
  import StoryNavigation

  /** A `.content-section` element: its id, the `active` class, whether it
      is displayed, and its scroll offset. */
  datatype Panel = Panel(id: string, active: bool, displayed: bool, scrollTop: int)

  /** `document.getElementById`, over the sections in document order. */
  function FindPanel(ps: seq<Panel>, id: string): (r: Option<nat>)
    ensures r.Some? ==> r.value < |ps| && ps[r.value].id == id
    ensures r.Some? ==> forall j :: 0 <= j < r.value ==> ps[j].id != id
    ensures r.None? <==> forall j :: 0 <= j < |ps| ==> ps[j].id != id
  {
    if |ps| == 0 then None
    else if ps[0].id == id then Some(0)
    else match FindPanel(ps[1..], id)
      case None => None
      case Some(k) => Some(k + 1)
  }

  /** One section after the hiding pass: no `active`, not displayed, scrolled up. */
  function Hidden(p: Panel): Panel {
    p.(active := false, displayed := false, scrollTop := 0)
  }

  /** The hiding pass of `showSection`, in document order. */
  function HideAll(ps: seq<Panel>): (r: seq<Panel>)
    ensures |r| == |ps|
    ensures forall k :: 0 <= k < |r| ==> r[k] == Hidden(ps[k])
    decreases |ps|
  {
    if |ps| == 0 then [] else HideAll(ps[..|ps| - 1]) + [Hidden(ps[|ps| - 1])]
  }

  /** The sections after `showSection(id)`: all hidden, then the section
      with that id, if there is one, displayed. */
  function ShowOnly(ps: seq<Panel>, id: string): seq<Panel> {
    Reveal(HideAll(ps), id)
  }

  /** The second half of `showSection`: the section with the id, if any,
      displayed and scrolled to the top. */
  function Reveal(ps: seq<Panel>, id: string): seq<Panel> {
    match FindPanel(ps, id)
    case None => ps
    case Some(j) => ps[j := ps[j].(displayed := true, scrollTop := 0)]
  }

  /** At most the first section with the id is displayed; none is active
      (the class comes 50 ms later) and all are scrolled to the top. */
  lemma ShowOnlyExclusive(ps: seq<Panel>, id: string)
    ensures |ShowOnly(ps, id)| == |ps|
    ensures forall k :: 0 <= k < |ps| ==>
      && ShowOnly(ps, id)[k].id == ps[k].id
      && !ShowOnly(ps, id)[k].active && ShowOnly(ps, id)[k].scrollTop == 0
      && (ShowOnly(ps, id)[k].displayed <==> FindPanel(ps, id) == Some(k))
    ensures (exists k :: 0 <= k < |ps| && ShowOnly(ps, id)[k].displayed) <==> exists k :: 0 <= k < |ps| && ps[k].id == id
  {
    var h := HideAll(ps);
    SameIdsSameFind(ps, h, id);
    var r := ShowOnly(ps, id);
    match FindPanel(ps, id)
    case None =>
    case Some(j) =>
      assert r[j].displayed;
  }

  /** Showing the same section twice leaves the sections as showing it once. */
  lemma ShowOnlyIdempotent(ps: seq<Panel>, id: string)
    ensures ShowOnly(ShowOnly(ps, id), id) == ShowOnly(ps, id)
  {
    var r := ShowOnly(ps, id);
    var h := HideAll(ps);
    SameIdsSameFind(ps, h, id);
    assert |r| == |ps| && forall k :: 0 <= k < |ps| ==> r[k].id == ps[k].id;
    SameIdsSameFind(ps, r, id);
    SameIdsSameFind(r, HideAll(r), id);
    var s := ShowOnly(r, id);
    assert |s| == |r|;
    forall k | 0 <= k < |r|
      ensures s[k] == r[k]
    {
    }
  }

  /** The lookup depends only on the ids. */
  lemma {:induction false} SameIdsSameFind(ps: seq<Panel>, qs: seq<Panel>, id: string)
    requires |ps| == |qs| && forall k :: 0 <= k < |ps| ==> ps[k].id == qs[k].id
    ensures FindPanel(ps, id) == FindPanel(qs, id)
    decreases |ps|
  {
    if |ps| > 0 {
      SameIdsSameFind(ps[1..], qs[1..], id);
    }
  }

  /** The section with `id`, if any, shown or hidden without touching the others. */
  function WithDisplay(ps: seq<Panel>, id: string, shown: bool): (r: seq<Panel>)
    ensures |r| == |ps|
    ensures forall k :: 0 <= k < |r| ==> r[k].id == ps[k].id
  {
    match FindPanel(ps, id)
    case None => ps
    case Some(j) => ps[j := ps[j].(displayed := shown)]
  }

  /** Showing or hiding a section keeps every id where it was, so every
      later lookup finds the same section as before. */
  lemma WithDisplayKeepsLookup(ps: seq<Panel>, id: string, shown: bool, other: string)
    ensures FindPanel(WithDisplay(ps, id, shown), other) == FindPanel(ps, other)
  {
    SameIdsSameFind(ps, WithDisplay(ps, id, shown), other);
  }

  /** Only the display of the section found by the id changes, and it
      becomes `shown`; with no such section nothing changes. */
  lemma WithDisplayTouchesOne(ps: seq<Panel>, id: string, shown: bool)
    ensures FindPanel(ps, id).None? ==> WithDisplay(ps, id, shown) == ps
    ensures FindPanel(ps, id).Some? ==>
      var j := FindPanel(ps, id).value;
      && WithDisplay(ps, id, shown)[j].displayed == shown
      && WithDisplay(ps, id, shown)[j].(displayed := ps[j].displayed) == ps[j]
      && forall k :: 0 <= k < |ps| && k != j ==> WithDisplay(ps, id, shown)[k] == ps[k]
  {
  }

  /** Of two changes to the same section's display the second wins: the
      reveal after a slide-out, or the hide after a reveal, leaves the
      sections as the last call alone would. */
  lemma WithDisplayOverrides(ps: seq<Panel>, id: string, first: bool, second: bool)
    ensures WithDisplay(WithDisplay(ps, id, first), id, second) == WithDisplay(ps, id, second)
  {
    WithDisplayKeepsLookup(ps, id, first, id);
  }

  /** The `switch` on the detail page's title that both the swipe and the
      next button use to pick a story; any other title gives the empty story. */
  function StoryForTitle(title: string): (r: seq<Slide>)
    ensures title == "Linke Rathaustür" ==> r == StoryData.LeftDoor
    ensures title == "Rechte Rathaustür" ==> r == StoryData.RightDoor
    ensures title == "Bauer und Handwerker" ==> r == StoryData.FarmerAndCraftsman
    ensures r != [] <==> title == "Linke Rathaustür" || title == "Rechte Rathaustür" || title == "Bauer und Handwerker"
  {
    if title == "Linke Rathaustür" then StoryData.LeftDoor
    else if title == "Rechte Rathaustür" then StoryData.RightDoor
    else if title == "Bauer und Handwerker" then StoryData.FarmerAndCraftsman
    else []
  }

  /** The module state of the coordinator, the `.content-section` elements,
      the detail page's `data-transitioning` attribute, and the timers
      still pending. */
  class Coordinator {
    const page: Page
    var panels: seq<Panel>
    var currentSection: string
    var isDetailView: bool
    var currentLocationIndex: int
    /** `data-transitioning === "true"` on the detail page. */
    var transitioning: bool
    /** Pending 50 ms timers that add `active`, by section index. */
    var activations: seq<nat>
    /** Pending 300 ms timers after a left swipe started a story. */
    var swipeHides: nat
    /** Pending 300 ms timers after the next button started a story. */
    var nextHides: nat

    ghost predicate Valid()
      reads this
    {
      && (forall i :: 0 <= i < |activations| ==> activations[i] < |panels|)
      && (|page.locations| > 0 ==> 0 <= currentLocationIndex < |page.locations|)
    }

    /** The module as loaded, over the sections of the document. */
    constructor (page: Page, sections: seq<Panel>)
      ensures Valid() && this.page == page && panels == sections
      ensures currentSection == "home" && !isDetailView && currentLocationIndex == 0 && !transitioning
      ensures activations == [] && swipeHides == 0 && nextHides == 0
    {
      this.page := page;
      panels := sections;
      currentSection := "home";
      isDetailView := false;
      currentLocationIndex := 0;
      transitioning := false;
      activations := [];
      swipeHides := 0;
      nextHides := 0;
    }

    /** `showSection`: hides every section, then shows the one with that id
        if it exists, records it, sets the detail-view flag and schedules its
        `active` class. The result says whether `initMap` and `initCarousel`
        are to run, which they are exactly for the map section. */
    method ShowSection(id: string) returns (initMapAndCarousel: bool)
      requires Valid()
      modifies this`panels, this`currentSection, this`isDetailView, this`activations
      ensures Valid() && panels == ShowOnly(old(panels), id)
      ensures FindPanel(old(panels), id).None? ==>
        && currentSection == old(currentSection) && isDetailView == old(isDetailView)
        && activations == old(activations) && !initMapAndCarousel
      ensures FindPanel(old(panels), id).Some? ==>
        && currentSection == id && isDetailView == (id == "location-detail")
        && activations == old(activations) + [FindPanel(old(panels), id).value]
        && initMapAndCarousel == (id == "map")
    {
      SameIdsSameFind(panels, HideAll(panels), id);
      HideSections();
      initMapAndCarousel := false;
      var found := FindPanel(panels, id);
      if found.Some? {
        var j := found.value;
        panels := panels[j := panels[j].(displayed := true, scrollTop := 0)];
        activations := activations + [j];
        currentSection := id;
        initMapAndCarousel := id == "map";
        isDetailView := id == "location-detail";
      }
    }

    /** The `forEach` of `showSection` over the sections. */
    method HideSections()
      modifies this`panels
      ensures panels == HideAll(old(panels))
    {
      var i := 0;
      ghost var ps := panels;
      while i < |panels|
        invariant 0 <= i <= |panels| == |ps|
        invariant forall k :: 0 <= k < |panels| ==> panels[k] == if k < i then Hidden(ps[k]) else ps[k]
      {
        panels := panels[i := Hidden(panels[i])];
        i := i + 1;
      }
    }

    /** A pending 50 ms timer of `showSection`: the section gets `active`. */
    method ActivateDone(k: nat)
      requires Valid() && k < |activations|
      modifies this`panels, this`activations
      ensures Valid() && activations == old(activations[..k] + activations[k + 1..])
      ensures var j := old(activations[k]); panels == old(panels[j := panels[j].(active := true)])
    {
      var j := activations[k];
      activations := activations[..k] + activations[k + 1..];
      panels := panels[j := panels[j].(active := true)];
    }

    /** `updateDetailView` for the current location: the title shows its
        name, the info container is emptied, continue is shown unless it is
        an overview, back-to-map is hidden. */
    method UpdateDetailView()
      requires Valid()
      modifies page`titleText, page`congratulations, page`continueShown, page`backToMapShown
      ensures |page.locations| == 0 ==> unchanged(page)
      ensures |page.locations| > 0 ==>
        var l := page.locations[currentLocationIndex];
        && page.titleText == l.name && page.congratulations == 0
        && page.continueShown == !l.isOverview && !page.backToMapShown
    {
      if !(0 <= currentLocationIndex < |page.locations|) {
        return;
      }
      var l := page.locations[currentLocationIndex];
      page.titleText := l.name;
      page.congratulations := 0;
      page.continueShown := !l.isOverview;
      page.backToMapShown := false;
    }

    /** `showLocationDetail`: an unknown id changes nothing; otherwise the
        location becomes the current one, the detail page is filled in and
        its section is shown. */
    method ShowLocationDetail(locationId: int) returns (found: bool)
      requires Valid()
      modifies this`currentLocationIndex, this`panels, this`currentSection, this`isDetailView, this`activations
      modifies page`titleText, page`congratulations, page`continueShown, page`backToMapShown
      ensures Valid()
      ensures found <==> exists k :: 0 <= k < |page.locations| && page.locations[k].id == locationId
      ensures !found ==> unchanged(this) && unchanged(page)
      ensures found ==>
        && page.locations[currentLocationIndex].id == locationId
        && currentLocationIndex == FindLocation(page.locations, locationId).value
        && page.titleText == page.locations[currentLocationIndex].name && page.congratulations == 0
        && page.continueShown == !page.locations[currentLocationIndex].isOverview && !page.backToMapShown
        && panels == ShowOnly(old(panels), "location-detail")
      ensures found && FindPanel(old(panels), "location-detail").Some? ==>
        && currentSection == "location-detail" && isDetailView
        && activations == old(activations) + [FindPanel(old(panels), "location-detail").value]
      ensures found && FindPanel(old(panels), "location-detail").None? ==>
        currentSection == old(currentSection) && isDetailView == old(isDetailView) && activations == old(activations)
    {
      var k := FindLocation(page.locations, locationId);
      if k.None? {
        found := false;
        return;
      }
      found := true;
      currentLocationIndex := k.value;
      UpdateDetailView();
      var _ := ShowSection("location-detail");
    }

    /** The detail page's `touchend` handler as written: after a left swipe
        it sets the flag and starts the story for the title, but an empty
        story makes `initDoorStory` raise before the flag is cleared. */
    method DetailSwipeEndAsWritten(dx: real, dy: real, host: StoryNavigation.StoryHost) returns (p: StoryNavigation.StoryPlayer?)
      requires host.Valid()
      modifies this`transitioning, this`swipeHides, host
      ensures host.Valid()
      ensures !(StoryNavigation.Classify(dx, dy).Forward? && !old(transitioning)) ==>
        && p == null && transitioning == old(transitioning) && swipeHides == old(swipeHides) && unchanged(host)
      ensures StoryNavigation.Classify(dx, dy).Forward? && !old(transitioning) ==>
        && transitioning && host.Started(p)
        && (p == null <==> StoryForTitle(page.titleText) == [])
        && (p != null ==> fresh(p) && p.Valid() && p.slides == StoryForTitle(page.titleText) && swipeHides == old(swipeHides) + 1)
        && (p == null ==> swipeHides == old(swipeHides))
    {
      p := null;
      if !StoryNavigation.Classify(dx, dy).Forward? || transitioning {
        return;
      }
      transitioning := true;
      p := host.Start(StoryForTitle(page.titleText));
      if p != null {
        swipeHides := swipeHides + 1;
      }
    }

    /** The detail page's `touchend` handler with the flag cleared when no
        story can be started, as the check for a missing container intends:
        a left swipe that starts a story sets the flag until the slide-out
        timer runs; any other left swipe leaves it clear. */
    method DetailSwipeEnd(dx: real, dy: real, host: StoryNavigation.StoryHost) returns (p: StoryNavigation.StoryPlayer?)
      requires host.Valid()
      modifies this`transitioning, this`swipeHides, host
      ensures host.Valid()
      ensures !(StoryNavigation.Classify(dx, dy).Forward? && !old(transitioning)) ==>
        && p == null && transitioning == old(transitioning) && swipeHides == old(swipeHides) && unchanged(host)
      ensures StoryNavigation.Classify(dx, dy).Forward? && !old(transitioning) ==>
        && host.Started(p)
        && (p == null <==> StoryForTitle(page.titleText) == [])
        && (p == null ==> !transitioning && swipeHides == old(swipeHides))
        && (p != null ==> transitioning && fresh(p) && p.Valid() && p.slides == StoryForTitle(page.titleText))
        && (p != null ==> swipeHides == old(swipeHides) + 1)
    {
      p := null;
      if !StoryNavigation.Classify(dx, dy).Forward? || transitioning {
        return;
      }
      transitioning := true;
      p := host.Start(StoryForTitle(page.titleText));
      if p == null {
        transitioning := false;
        return;
      }
      swipeHides := swipeHides + 1;
    }

    /** The 300 ms timer after a swipe started a story: the detail page is
        hidden and the flag cleared. */
    method SwipeHideDone()
      requires Valid() && swipeHides > 0
      modifies this`panels, this`transitioning, this`swipeHides
      ensures Valid() && swipeHides == old(swipeHides) - 1 && !transitioning
      ensures panels == WithDisplay(old(panels), "location-detail", false)
    {
      swipeHides := swipeHides - 1;
      transitioning := false;
      panels := WithDisplay(panels, "location-detail", false);
    }

    /** The next button of the detail page: starts the story for the title
        (an empty story raises inside `initDoorStory`) and, if one started,
        the timer that hides the detail page. */
    method DetailNextClick(host: StoryNavigation.StoryHost) returns (p: StoryNavigation.StoryPlayer?)
      requires host.Valid()
      modifies this`nextHides, host
      ensures host.Valid() && host.Started(p)
      ensures p == null <==> StoryForTitle(page.titleText) == []
      ensures p != null ==> fresh(p) && p.Valid() && p.slides == StoryForTitle(page.titleText)
      ensures nextHides == old(nextHides) + (if p == null then 0 else 1)
    {
      p := host.Start(StoryForTitle(page.titleText));
      if p != null {
        nextHides := nextHides + 1;
      }
    }

    /** The 300 ms timer of the next button: the detail page is hidden. */
    method NextHideDone()
      requires Valid() && nextHides > 0
      modifies this`panels, this`nextHides
      ensures Valid() && nextHides == old(nextHides) - 1
      ensures panels == WithDisplay(old(panels), "location-detail", false)
    {
      nextHides := nextHides - 1;
      panels := WithDisplay(panels, "location-detail", false);
    }

    /** What a story handler asks of the page: the map section, or the
        detail page shown or hidden. The result is `showSection`'s. */
    method Apply(e: StoryNavigation.Effect) returns (initMapAndCarousel: bool)
      requires Valid()
      modifies this`panels, this`currentSection, this`isDetailView, this`activations
      ensures Valid()
      ensures e.ShowMap? ==> panels == ShowOnly(old(panels), "map") && initMapAndCarousel == FindPanel(old(panels), "map").Some?
      ensures e.ShowMap? && FindPanel(old(panels), "map").Some? ==>
        && currentSection == "map" && !isDetailView
        && activations == old(activations) + [FindPanel(old(panels), "map").value]
      ensures e.ShowMap? && FindPanel(old(panels), "map").None? ==>
        currentSection == old(currentSection) && isDetailView == old(isDetailView) && activations == old(activations)
      ensures e.RevealDetail? ==> panels == WithDisplay(old(panels), "location-detail", true) && !initMapAndCarousel
      ensures e.HideDetail? ==> panels == WithDisplay(old(panels), "location-detail", false) && !initMapAndCarousel
      ensures e.Stay? ==> panels == old(panels) && !initMapAndCarousel
      ensures !e.ShowMap? ==> currentSection == old(currentSection) && isDetailView == old(isDetailView) && activations == old(activations)
    {
      initMapAndCarousel := false;
      match e
      case Stay =>
      case ShowMap =>
        initMapAndCarousel := ShowSection("map");
      case RevealDetail =>
        panels := WithDisplay(panels, "location-detail", true);
      case HideDetail =>
        panels := WithDisplay(panels, "location-detail", false);
    }
  }

  /** A left swipe on a detail page whose title has no story, then a left
      swipe once the title is the left door's. As written the first swipe
      leaves `data-transitioning` set, so the second is ignored and no story
      starts; with the flag cleared the second swipe starts the left-door
      story. */
  method StuckSwipeWitness() returns (asWritten: StoryNavigation.StoryPlayer?, corrected: StoryNavigation.StoryPlayer?)
    ensures asWritten == null
    ensures corrected != null && corrected.slides == StoryData.LeftDoor
  {
    var page := new Page([], {});
    var host := new StoryNavigation.StoryHost();
    assert StoryNavigation.Classify(-100.0, 0.0) == StoryNavigation.Forward;

    var c := new Coordinator(page, []);
    page.titleText := "Ein anderer Ort";
    var first := c.DetailSwipeEndAsWritten(-100.0, 0.0, host);
    page.titleText := "Linke Rathaustür";
    asWritten := c.DetailSwipeEndAsWritten(-100.0, 0.0, host);

    var d := new Coordinator(page, []);
    page.titleText := "Ein anderer Ort";
    first := d.DetailSwipeEnd(-100.0, 0.0, host);
    page.titleText := "Linke Rathaustür";
    corrected := d.DetailSwipeEnd(-100.0, 0.0, host);
  }
}
