/** The map and carousel adapter (public/js/map.js): the `markers`
    dictionary kept in step with the map's visible bounds, the marker icon
    class names, and the carousel's selected card. Leaflet itself is not
    modelled: a marker is its icon class name and the kind of click handler
    it was given, and the map's bounds are a predicate the caller passes. */
module TourMap {
  import opened Content

  // ---------------------------------------------------------------------
  // Icon class names

  /** `getMarkerIcon(category, visited, isDisabled)`: the category is not used. */
  function MarkerIcon(visited: bool, disabled: bool): string {
    "location-marker" + (if visited then " visited" else "") + (if disabled then " disabled" else "")
  }

  /** `getHighlightedMarkerIcon(category, visited, isDisabled)`. */
  function HighlightedIcon(visited: bool, disabled: bool): string {
    "location-marker highlighted" + (if visited then " visited" else "") + (if disabled then " disabled" else "")
  }

  /** A non-empty run of characters without a space. */
  predicate IsWord(w: string) {
    |w| > 0 && forall i :: 0 <= i < |w| ==> w[i] != ' '
  }

  /** The position of the first space in `s`, or `|s|`. */
  function FirstSpace(s: string): (r: nat)
    ensures r <= |s|
    ensures r < |s| ==> s[r] == ' '
    ensures forall i :: 0 <= i < r ==> s[i] != ' '
  {
    if |s| == 0 || s[0] == ' ' then 0 else 1 + FirstSpace(s[1..])
  }

  /** The class list a class attribute denotes: its space-separated words. */
  function Tokens(s: string): seq<string>
    decreases |s|
  {
    var k := FirstSpace(s);
    var head := if k == 0 then [] else [s[..k]];
    if k == |s| then head else head + Tokens(s[k + 1..])
  }

  predicate HasClass(className: string, c: string) {
    c in Tokens(className)
  }

  lemma TokensOfWord(w: string)
    requires IsWord(w)
    ensures Tokens(w) == [w]
  {
    assert FirstSpace(w) == |w|;
    assert w[..|w|] == w;
  }

  /** Splitting at the first space. */
  lemma {:induction false} TokensCons(w: string, rest: string)
    requires IsWord(w)
    ensures Tokens(w + " " + rest) == [w] + Tokens(rest)
  {
    var s := w + " " + rest;
    assert s[|w|] == ' ';
    assert forall i :: 0 <= i < |w| ==> s[i] == w[i];
    var k := FirstSpace(s);
    assert k == |w|;
    assert s[..k] == w;
    assert s[k + 1..] == rest;
  }

  /** A base class followed by two optional classes, each after one space. */
  lemma {:induction false} FlagClasses(base: string, a: string, b: string, hasA: bool, hasB: bool)
    requires IsWord(base) && IsWord(a) && IsWord(b)
    ensures Tokens(base + (if hasA then " " + a else "") + (if hasB then " " + b else ""))
         == [base] + (if hasA then [a] else []) + (if hasB then [b] else [])
  {
    var s := base + (if hasA then " " + a else "") + (if hasB then " " + b else "");
    if hasA && hasB {
      assert s == base + " " + (a + " " + b);
      TokensCons(base, a + " " + b);
      TokensCons(a, b);
      TokensOfWord(b);
    } else if hasA {
      assert s == base + " " + a;
      TokensCons(base, a);
      TokensOfWord(a);
    } else if hasB {
      assert s == base + " " + b;
      TokensCons(base, b);
      TokensOfWord(b);
    } else {
      assert s == base;
      TokensOfWord(base);
    }
  }

  /** The class list of a normal marker: `location-marker`, then `visited`
      iff visited, then `disabled` iff disabled. */
  lemma MarkerIconClasses(visited: bool, disabled: bool)
    ensures Tokens(MarkerIcon(visited, disabled))
         == ["location-marker"] + (if visited then ["visited"] else []) + (if disabled then ["disabled"] else [])
  {
    assert MarkerIcon(visited, disabled)
        == "location-marker" + (if visited then " " + "visited" else "") + (if disabled then " " + "disabled" else "");
    FlagClasses("location-marker", "visited", "disabled", visited, disabled);
  }

  /** Concatenation regrouped so that the first word stands alone. */
  lemma Regroup(w: string, base: string, x: string, y: string)
    ensures w + " " + base + x + y == w + " " + (base + x + y)
  {
    calc {
      w + " " + base + x + y;
    ==  { assert w + " " + base == w + (" " + base); }
      w + (" " + base) + x + y;
    ==  { assert w + (" " + base) + x == w + (" " + base + x); }
      w + (" " + base + x) + y;
    ==
      w + (" " + base + x + y);
    ==  { assert " " + base + x + y == " " + (base + x + y); }
      w + " " + (base + x + y);
    }
  }

  /** Two base classes, then the two optional ones. */
  lemma {:induction false} TwoBaseFlagClasses(w: string, base: string, a: string, b: string, hasA: bool, hasB: bool)
    requires IsWord(w) && IsWord(base) && IsWord(a) && IsWord(b)
    ensures Tokens(w + " " + base + (if hasA then " " + a else "") + (if hasB then " " + b else ""))
         == [w, base] + (if hasA then [a] else []) + (if hasB then [b] else [])
  {
    var x := if hasA then " " + a else "";
    var y := if hasB then " " + b else "";
    var rest := base + x + y;
    Regroup(w, base, x, y);
    TokensCons(w, rest);
    FlagClasses(base, a, b, hasA, hasB);
  }

  /** The highlighted variant has `highlighted` right after `location-marker`
      and is otherwise the normal icon. */
  lemma HighlightedIconClasses(visited: bool, disabled: bool)
    ensures Tokens(HighlightedIcon(visited, disabled))
         == ["location-marker", "highlighted"] + (if visited then ["visited"] else []) + (if disabled then ["disabled"] else [])
  {
    assert "location-marker highlighted" == "location-marker" + " " + "highlighted";
    assert HighlightedIcon(visited, disabled)
        == "location-marker" + " " + "highlighted" + (if visited then " " + "visited" else "") + (if disabled then " " + "disabled" else "");
    TwoBaseFlagClasses("location-marker", "highlighted", "visited", "disabled", visited, disabled);
  }

  /** Which of the classes an icon carries. Only a highlighted icon carries
      `highlighted`. */
  lemma IconTells(visited: bool, disabled: bool)
    ensures HasClass(HighlightedIcon(visited, disabled), "highlighted")
    ensures !HasClass(MarkerIcon(visited, disabled), "highlighted")
    ensures HasClass(MarkerIcon(visited, disabled), "visited") <==> visited
    ensures HasClass(MarkerIcon(visited, disabled), "disabled") <==> disabled
    ensures HasClass(HighlightedIcon(visited, disabled), "visited") <==> visited
    ensures HasClass(HighlightedIcon(visited, disabled), "disabled") <==> disabled
  {
    MarkerIconClasses(visited, disabled);
    HighlightedIconClasses(visited, disabled);
  }

  // ---------------------------------------------------------------------
  // Carousel index

  /** `navigateCarousel`'s index step: below 0 goes to the last card, at or
      past the end goes to the first. */
  function Wrap(index: int, direction: int, count: int): (r: int)
    ensures count > 0 ==> 0 <= r < count
    ensures 0 <= index + direction < count ==> r == index + direction
    ensures count > 0 && index + direction < 0 ==> r == count - 1
    ensures count > 0 && index + direction >= count ==> r == 0
  {
    var i := index + direction;
    var j := if i < 0 then count - 1 else i;
    if j >= count then 0 else j
  }

  /** For single steps from a valid index, wrapping is arithmetic modulo
      the number of locations. */
  lemma WrapIsModular(index: int, direction: int, count: int)
    requires 0 <= index < count
    requires direction == 1 || direction == -1
    ensures Wrap(index, direction, count) == (index + direction) % count
  {
    if index + direction == count {
      assert (index + direction) % count == 0;
    } else if index + direction < 0 {
      assert index + direction == -1;
      assert (-1) % count == count - 1;
    }
  }


  // ---------------------------------------------------------------------
  // Markers

  /** What a click on a marker does: nothing (disabled markers of the
      initial map), open the detail page (the other markers of the initial
      map), or select the location and open it once it is selected (markers
      added later by `addMarkerToMap`). Markers with a click handler also
      highlight on hover. */
  datatype Click = NoClick | OpenOnClick | SelectOnClick

  datatype Marker = Marker(uid: nat, className: string, click: Click)

  /** A pending `.then` of `addMarkerToMap`, with the id and whether the
      location was the highlighted card's when it was scheduled. */
  datatype Fixup = Fixup(locationId: int, highlight: bool)

  /** A pending 50 ms timer of `updateCarouselView`, with the marker it captured. */
  datatype Focus = Focus(locationId: int, uid: nat)

  ghost function IdsOf(locs: seq<Location>): set<int> {
    set j | 0 <= j < |locs| :: locs[j].id
  }

  /** The ids of the locations inside the map's current bounds. */
  ghost function VisibleIds(locs: seq<Location>, inBounds: (real, real) -> bool): set<int> {
    set j | 0 <= j < |locs| && inBounds(locs[j].lat, locs[j].lng) :: locs[j].id
  }

  lemma IdsOfSnoc(locs: seq<Location>, inBounds: (real, real) -> bool)
    requires |locs| > 0
    ensures IdsOf(locs) == IdsOf(locs[..|locs| - 1]) + {locs[|locs| - 1].id}
    ensures VisibleIds(locs, inBounds) == VisibleIds(locs[..|locs| - 1], inBounds)
              + (if inBounds(locs[|locs| - 1].lat, locs[|locs| - 1].lng) then {locs[|locs| - 1].id} else {})
  {
    var p := locs[..|locs| - 1];
    assert forall j :: 0 <= j < |p| ==> p[j] == locs[j];
  }

  /** With unique ids, the last location's id does not occur before it. */
  lemma LastIdIsNew(locs: seq<Location>)
    requires UniqueIds(locs) && |locs| > 0
    ensures UniqueIds(locs[..|locs| - 1])
    ensures locs[|locs| - 1].id !in IdsOf(locs[..|locs| - 1])
  {
    var p := locs[..|locs| - 1];
    assert forall j :: 0 <= j < |p| ==> p[j] == locs[j];
  }

  /** The part of the adapter's state that `updateVisibleMarkers` changes. */
  datatype MarkerState = MarkerState(markers: map<int, Marker>, nextUid: nat, fixups: seq<Fixup>)

  /** One step of `updateVisibleMarkers`: an in-bounds location without a
      marker gets one (`addMarkerToMap` stores it at once) and a pending
      fix-up; an out-of-bounds location loses its marker. */
  function Visit(l: Location, s: MarkerState, inBounds: (real, real) -> bool, visited: set<int>, current: Option<int>): MarkerState {
    if inBounds(l.lat, l.lng) then
      if l.id in s.markers then s
      else MarkerState(s.markers[l.id := Marker(s.nextUid, MarkerIcon(l.id in visited, false), SelectOnClick)],
                       s.nextUid + 1,
                       s.fixups + [Fixup(l.id, current == Some(l.id) && l.id < 5)])
    else s.(markers := s.markers - {l.id})
  }

  /** `updateVisibleMarkers`' loop over the locations, in list order. */
  function VisitAll(locs: seq<Location>, s: MarkerState, inBounds: (real, real) -> bool, visited: set<int>, current: Option<int>): MarkerState
    decreases |locs|
  {
    if |locs| == 0 then s
    else Visit(locs[|locs| - 1], VisitAll(locs[..|locs| - 1], s, inBounds, visited, current), inBounds, visited, current)
  }

  /** After the loop a location's id has a marker iff the location is in
      bounds; ids of no location keep what they had. */
  lemma {:induction false} VisitAllPresence(locs: seq<Location>, s: MarkerState, inBounds: (real, real) -> bool, visited: set<int>, current: Option<int>)
    requires UniqueIds(locs)
    ensures forall id :: id in VisitAll(locs, s, inBounds, visited, current).markers <==>
      if id in IdsOf(locs) then id in VisibleIds(locs, inBounds) else id in s.markers
    decreases |locs|
  {
    if |locs| > 0 {
      var p := locs[..|locs| - 1];
      LastIdIsNew(locs);
      IdsOfSnoc(locs, inBounds);
      VisitAllPresence(p, s, inBounds, visited, current);
    }
  }

  /** The keys after `updateVisibleMarkers` are exactly the in-bounds ids. */
  lemma VisitAllKeys(locs: seq<Location>, s: MarkerState, inBounds: (real, real) -> bool, visited: set<int>, current: Option<int>)
    requires UniqueIds(locs) && s.markers.Keys <= IdsOf(locs)
    ensures VisitAll(locs, s, inBounds, visited, current).markers.Keys == VisibleIds(locs, inBounds)
  {
    var r := VisitAll(locs, s, inBounds, visited, current);
    VisitAllPresence(locs, s, inBounds, visited, current);
    forall id | id in VisibleIds(locs, inBounds)
      ensures id in r.markers
    {
      var j :| 0 <= j < |locs| && inBounds(locs[j].lat, locs[j].lng) && locs[j].id == id;
      assert id in IdsOf(locs);
    }
    forall id | id in r.markers
      ensures id in VisibleIds(locs, inBounds)
    {
      if id !in IdsOf(locs) {
        assert false;
      }
    }
  }

  /** Markers that stay are not replaced; new ones have fresh uids, the
      normal icon without `disabled`, and the select-on-click handler. */
  lemma {:induction false} VisitAllEntries(locs: seq<Location>, s: MarkerState, inBounds: (real, real) -> bool, visited: set<int>, current: Option<int>)
    requires UniqueIds(locs)
    ensures var r := VisitAll(locs, s, inBounds, visited, current);
      && s.nextUid <= r.nextUid
      && (forall id :: id in r.markers && id in s.markers ==> r.markers[id] == s.markers[id])
      && (forall id :: id in r.markers && id !in s.markers ==>
            && s.nextUid <= r.markers[id].uid < r.nextUid
            && r.markers[id].className == MarkerIcon(id in visited, false)
            && r.markers[id].click == SelectOnClick)
    decreases |locs|
  {
    if |locs| > 0 {
      var p := locs[..|locs| - 1];
      LastIdIsNew(locs);
      VisitAllEntries(p, s, inBounds, visited, current);
      VisitAllPresence(p, s, inBounds, visited, current);
    }
  }

  /** The fix-ups the loop schedules. */
  lemma {:induction false} VisitAllFixups(locs: seq<Location>, s: MarkerState, inBounds: (real, real) -> bool, visited: set<int>, current: Option<int>)
    requires UniqueIds(locs)
    ensures VisitAll(locs, s, inBounds, visited, current).fixups == s.fixups + NewFixups(locs, s.markers, inBounds, current)
    decreases |locs|
  {
    if |locs| > 0 {
      var p := locs[..|locs| - 1];
      LastIdIsNew(locs);
      VisitAllFixups(p, s, inBounds, visited, current);
      VisitAllPresence(p, s, inBounds, visited, current);
    }
  }

  /** The loop keeps the adapter's bookkeeping: markers belong to locations
      and carry uids below the next one. */
  lemma {:induction false} VisitAllBounded(locs: seq<Location>, s: MarkerState, inBounds: (real, real) -> bool, visited: set<int>, current: Option<int>)
    requires forall id :: id in s.markers ==> s.markers[id].uid < s.nextUid
    ensures var r := VisitAll(locs, s, inBounds, visited, current);
      && s.nextUid <= r.nextUid
      && r.markers.Keys <= s.markers.Keys + IdsOf(locs)
      && (forall id :: id in r.markers ==> r.markers[id].uid < r.nextUid)
    decreases |locs|
  {
    if |locs| > 0 {
      IdsOfSnoc(locs, inBounds);
      VisitAllBounded(locs[..|locs| - 1], s, inBounds, visited, current);
    }
  }

  /** When every location already has a marker, as right after `initMap`
      placed them, the loop only removes the out-of-bounds ones: no marker
      is added or replaced and nothing is scheduled. */
  lemma {:induction false} VisitAllPlaced(locs: seq<Location>, s: MarkerState, inBounds: (real, real) -> bool, visited: set<int>, current: Option<int>)
    requires UniqueIds(locs)
    requires forall j :: 0 <= j < |locs| ==> locs[j].id in s.markers
    ensures var r := VisitAll(locs, s, inBounds, visited, current);
      && r.nextUid == s.nextUid && r.fixups == s.fixups
      && (forall id :: id in r.markers ==> id in s.markers && r.markers[id] == s.markers[id])
    decreases |locs|
  {
    if |locs| > 0 {
      var p := locs[..|locs| - 1];
      LastIdIsNew(locs);
      assert forall j :: 0 <= j < |p| ==> p[j] == locs[j];
      VisitAllPlaced(p, s, inBounds, visited, current);
      VisitAllPresence(p, s, inBounds, visited, current);
    }
  }

  /** The `.then` callbacks `updateVisibleMarkers` schedules, in list order:
      one for every in-bounds location that had no marker. */
  function NewFixups(locs: seq<Location>, m: map<int, Marker>, inBounds: (real, real) -> bool, current: Option<int>): seq<Fixup>
    decreases |locs|
  {
    if |locs| == 0 then []
    else
      var l := locs[|locs| - 1];
      NewFixups(locs[..|locs| - 1], m, inBounds, current)
        + (if inBounds(l.lat, l.lng) && l.id !in m then [Fixup(l.id, current == Some(l.id) && l.id < 5)] else [])
  }

  /** If every location has a marker, nothing is added. */
  lemma {:induction false} NewFixupsNone(locs: seq<Location>, m: map<int, Marker>, inBounds: (real, real) -> bool, current: Option<int>)
    requires forall j :: 0 <= j < |locs| ==> locs[j].id in m
    ensures NewFixups(locs, m, inBounds, current) == []
    decreases |locs|
  {
    if |locs| > 0 {
      NewFixupsNone(locs[..|locs| - 1], m, inBounds, current);
    }
  }

  /** The marker `initMap` creates for a location: disabled from id 5 on,
      without handlers then. */
  function InitialMarker(l: Location, uid: nat, visited: set<int>): Marker {
    Marker(uid, MarkerIcon(l.id in visited, l.id >= 5), if l.id >= 5 then NoClick else OpenOnClick)
  }

  /** `initMap`'s loop: location `k` gets the marker with uid `uid + k`. */
  function PlaceAll(locs: seq<Location>, m: map<int, Marker>, uid: nat, visited: set<int>): map<int, Marker>
    decreases |locs|
  {
    if |locs| == 0 then m
    else PlaceAll(locs[..|locs| - 1], m, uid, visited)[locs[|locs| - 1].id := InitialMarker(locs[|locs| - 1], uid + |locs| - 1, visited)]
  }

  /** Every location ends up with an initial marker with a uid from the new range. */
  lemma {:induction false} PlaceAllFacts(locs: seq<Location>, m: map<int, Marker>, uid: nat, visited: set<int>)
    ensures var r := PlaceAll(locs, m, uid, visited);
      && r.Keys == m.Keys + IdsOf(locs)
      && (forall id :: id in IdsOf(locs) ==>
            && uid <= r[id].uid < uid + |locs|
            && r[id].className == MarkerIcon(id in visited, id >= 5)
            && r[id].click == (if id >= 5 then NoClick else OpenOnClick))
      && (forall id :: id in r && id !in IdsOf(locs) ==> r[id] == m[id])
    decreases |locs|
  {
    if |locs| > 0 {
      IdsOfSnoc(locs, (x: real, y: real) => true);
      PlaceAllFacts(locs[..|locs| - 1], m, uid, visited);
    }
  }

  /** The icons after `highlightMarker(t)`: the target's highlighted, every
      other normal without `disabled`. */
  ghost predicate HighlightedOnly(m0: map<int, Marker>, m1: map<int, Marker>, visited: set<int>, t: int) {
    && m1.Keys == m0.Keys
    && forall id :: id in m0 ==>
         m1[id] == m0[id].(className := if id == t then HighlightedIcon(id in visited, false) else MarkerIcon(id in visited, false))
  }

  /** The icons after `unhighlightMarker(t)`: only the target's marker,
      if it has one and its id is below 5, gets its normal icon back. */
  ghost predicate Unhighlighted(m0: map<int, Marker>, m1: map<int, Marker>, visited: set<int>, t: int) {
    if t in m0 && t < 5 then m1 == m0[t := m0[t].(className := MarkerIcon(t in visited, false))]
    else m1 == m0
  }

  /** Every icon (or only the icons of locations below id 5) set back to the
      normal icon without `disabled`; nothing else about the markers changes. */
  ghost predicate IconsReset(m0: map<int, Marker>, m1: map<int, Marker>, visited: set<int>, enabledOnly: bool) {
    && m1.Keys == m0.Keys
    && forall id :: id in m0 ==>
         m1[id] == if !enabledOnly || id < 5 then m0[id].(className := MarkerIcon(id in visited, false)) else m0[id]
  }

  /** `highlightMarker(t)` followed by the carousel's reset of the markers
      below id 5: the highlight survives only for an id of 5 or more. */
  lemma HighlightThenReset(m0: map<int, Marker>, m1: map<int, Marker>, m2: map<int, Marker>, visited: set<int>, t: int)
    requires HighlightedOnly(m0, m1, visited, t) && IconsReset(m1, m2, visited, true)
    ensures m2.Keys == m0.Keys
    ensures forall id :: id in m0 ==>
      m2[id] == m0[id].(className := if id == t && t >= 5 then HighlightedIcon(id in visited, false) else MarkerIcon(id in visited, false))
    ensures t < 5 ==> IconsReset(m0, m2, visited, false)
    ensures t >= 5 ==> HighlightedOnly(m0, m2, visited, t)
  {
  }

  /** Highlighting changes no marker's identity, so the 50 ms highlight
      scheduled afterwards captures the same marker. */
  lemma FocusSurvivesHighlight(m0: map<int, Marker>, m1: map<int, Marker>, visited: set<int>, t: int, id: int)
    requires HighlightedOnly(m0, m1, visited, t)
    ensures FocusFor(m1, id) == FocusFor(m0, id)
  {
    if id in m0 {
      assert m1[id].uid == m0[id].uid;
    }
  }

  /** Resetting icons changes no marker's identity either. */
  lemma FocusSurvivesReset(m0: map<int, Marker>, m1: map<int, Marker>, visited: set<int>, enabledOnly: bool, id: int)
    requires IconsReset(m0, m1, visited, enabledOnly)
    ensures FocusFor(m1, id) == FocusFor(m0, id)
  {
    if id in m0 {
      assert m1[id].uid == m0[id].uid;
    }
  }

  /** The 50 ms highlight `updateCarouselView` schedules for the current card. */
  function FocusFor(m: map<int, Marker>, id: int): (r: seq<Focus>)
    ensures |r| <= 1
    ensures r != [] <==> id < 5 && id in m
    ensures r != [] ==> r[0] == Focus(id, m[id].uid)
  {
    if id < 5 && id in m then [Focus(id, m[id].uid)] else []
  }

  /** The first card carrying `highlighted`, as `querySelector` finds it. */
  function FirstHighlighted(cards: seq<Card>): (r: Option<nat>)
    ensures r.Some? ==> r.value < |cards| && cards[r.value].highlighted
    ensures r.Some? ==> forall j :: 0 <= j < r.value ==> !cards[j].highlighted
    ensures r.None? <==> forall j :: 0 <= j < |cards| ==> !cards[j].highlighted
  {
    if |cards| == 0 then None
    else if cards[0].highlighted then Some(0)
    else match FirstHighlighted(cards[1..])
      case None => None
      case Some(k) => Some(k + 1)
  }

  /** The id of the highlighted card; `None` stands for `parseInt(undefined)`. */
  function HighlightedId(cards: seq<Card>): Option<int> {
    match FirstHighlighted(cards)
    case None => None
    case Some(k) => Some(cards[k].locationId)
  }

  /** Moving the `highlighted` class keeps the cards in step with the locations. */
  lemma HighlightKeepsFit(c0: seq<Card>, c1: seq<Card>, locs: seq<Location>, visited: set<int>)
    requires CardsFit(c0, locs, visited) && |c1| == |c0|
    requires forall k :: 0 <= k < |c1| ==> c1[k] == c0[k].(highlighted := c1[k].highlighted)
    ensures CardsFit(c1, locs, visited)
  {
  }

  /** The map's module state (`map`, `markers`, `currentCardIndex`), the
      carousel nav buttons, and the callbacks still pending. */
  class MapAdapter {
    const page: Page
    /** `map !== null`. */
    var mapLive: bool
    var markers: map<int, Marker>
    var nextUid: nat
    var cardIndex: int
    var prevDisabled: bool
    var nextDisabled: bool
    var fixups: seq<Fixup>
    var focuses: seq<Focus>

    ghost predicate Valid()
      reads this
    {
      && markers.Keys <= IdsOf(page.locations)
      && (forall id :: id in markers ==> markers[id].uid < nextUid)
      && (|page.locations| > 0 ==> 0 <= cardIndex < |page.locations|)
    }

    constructor (page: Page)
      ensures Valid() && this.page == page && !mapLive && markers == map[] && cardIndex == 0
      ensures fixups == [] && focuses == []
    {
      this.page := page;
      mapLive := false;
      markers := map[];
      nextUid := 0;
      cardIndex := 0;
      prevDisabled := false;
      nextDisabled := false;
      fixups := [];
      focuses := [];
    }

    /** The `locations.forEach` that sets every present marker (or those
        below id 5) back to its normal icon. */
    method ResetIcons(enabledOnly: bool)
      requires Valid()
      modifies this`markers
      ensures Valid() && IconsReset(old(markers), markers, page.visited, enabledOnly)
    {
      var locs := page.locations;
      var vis := page.visited;
      ghost var m0 := markers;
      var i := 0;
      ghost var done: set<int> := {};
      while i < |locs|
        invariant 0 <= i <= |locs|
        invariant done == IdsOf(locs[..i])
        invariant markers.Keys == m0.Keys
        invariant forall id :: id in m0 ==>
          markers[id] == if (!enabledOnly || id < 5) && id in done
                         then m0[id].(className := MarkerIcon(id in vis, false))
                         else m0[id]
      {
        var l := locs[i];
        IdsOfSnoc(locs[..i + 1], (x: real, y: real) => true);
        assert locs[..i + 1][..i] == locs[..i];
        if l.id in markers && (!enabledOnly || l.id < 5) {
          markers := markers[l.id := markers[l.id].(className := MarkerIcon(l.id in vis, false))];
        }
        done := done + {l.id};
        i := i + 1;
      }
      assert locs[..i] == locs;
    }

    /** `highlightMarker`: resets every marker, then highlights the target's
        marker if it has one. Afterwards at most the target is highlighted. */
    method HighlightMarker(locationId: int)
      requires Valid()
      modifies this`markers
      ensures Valid() && HighlightedOnly(old(markers), markers, page.visited, locationId)
      ensures forall id :: id in markers ==> (HasClass(markers[id].className, "highlighted") <==> id == locationId)
    {
      ResetIcons(false);
      if locationId in markers && FindLocation(page.locations, locationId).Some? {
        markers := markers[locationId := markers[locationId].(className := HighlightedIcon(locationId in page.visited, false))];
      }
      forall id | id in markers
        ensures HasClass(markers[id].className, "highlighted") <==> id == locationId
      {
        IconTells(id in page.visited, false);
      }
    }

    /** `unhighlightMarker`: `lastActiveLocationId` is never set, so every
        marker below id 5 gets its normal icon back. */
    method UnhighlightMarker(locationId: int)
      requires Valid()
      modifies this`markers
      ensures Valid() && Unhighlighted(old(markers), markers, page.visited, locationId)
    {
      if locationId in markers && FindLocation(page.locations, locationId).Some? && locationId < 5 {
        markers := markers[locationId := markers[locationId].(className := MarkerIcon(locationId in page.visited, false))];
      }
    }

    /** `updateVisibleMarkers`: afterwards there is a marker exactly for the
        in-bounds locations; markers that stay are not replaced, new ones get
        a select-on-click handler and a pending icon fix-up. */
    method UpdateVisibleMarkers(inBounds: (real, real) -> bool)
      requires Valid() && page.Valid()
      modifies this`markers, this`nextUid, this`fixups
      ensures Valid()
      ensures !mapLive ==> markers == old(markers) && fixups == old(fixups)
      ensures mapLive ==>
        MarkerState(markers, nextUid, fixups)
          == VisitAll(page.locations, MarkerState(old(markers), old(nextUid), old(fixups)), inBounds, page.visited, HighlightedId(page.cards))
    {
      if !mapLive {
        return;
      }
      var locs := page.locations;
      var current := HighlightedId(page.cards);
      ghost var s0 := MarkerState(markers, nextUid, fixups);
      var i := 0;
      while i < |locs|
        invariant 0 <= i <= |locs|
        invariant MarkerState(markers, nextUid, fixups) == VisitAll(locs[..i], s0, inBounds, page.visited, current)
      {
        assert locs[..i + 1][..i] == locs[..i];
        var l := locs[i];
        if inBounds(l.lat, l.lng) {
          if l.id !in markers {
            markers := markers[l.id := Marker(nextUid, MarkerIcon(l.id in page.visited, false), SelectOnClick)];
            nextUid := nextUid + 1;
            fixups := fixups + [Fixup(l.id, current == Some(l.id) && l.id < 5)];
          }
        } else if l.id in markers {
          markers := markers - {l.id};
        }
        i := i + 1;
      }
      assert locs[..i] == locs;
      VisitAllBounded(locs, s0, inBounds, page.visited, current);
    }

    /** A pending `.then` of `addMarkerToMap`: sets the icon of whatever
        marker the location has by then. */
    method FixupDone(k: nat)
      requires Valid() && k < |fixups|
      modifies this`markers, this`fixups
      ensures Valid()
      ensures fixups == old(fixups[..k] + fixups[k + 1..])
      ensures var f := old(fixups[k]);
        if f.locationId in old(markers) then
          markers == old(markers)[f.locationId := old(markers)[f.locationId].(className :=
            if f.highlight then HighlightedIcon(f.locationId in page.visited, f.locationId >= 5)
            else MarkerIcon(f.locationId in page.visited, f.locationId >= 5))]
        else markers == old(markers)
    {
      var f := fixups[k];
      fixups := fixups[..k] + fixups[k + 1..];
      if f.locationId in markers {
        var icon := if f.highlight then HighlightedIcon(f.locationId in page.visited, f.locationId >= 5)
                    else MarkerIcon(f.locationId in page.visited, f.locationId >= 5);
        markers := markers[f.locationId := markers[f.locationId].(className := icon)];
      }
    }

    /** A pending 50 ms highlight: it acts on the marker it captured, which is
        only visible if it is still the location's marker. */
    method FocusDone(k: nat)
      requires Valid() && k < |focuses|
      modifies this`markers, this`focuses
      ensures Valid()
      ensures focuses == old(focuses[..k] + focuses[k + 1..])
      ensures var f := old(focuses[k]);
        if f.locationId in old(markers) && old(markers)[f.locationId].uid == f.uid then
          markers == old(markers)[f.locationId := old(markers)[f.locationId].(className := HighlightedIcon(f.locationId in page.visited, false))]
        else markers == old(markers)
    {
      var f := focuses[k];
      focuses := focuses[..k] + focuses[k + 1..];
      if f.locationId in markers && markers[f.locationId].uid == f.uid {
        markers := markers[f.locationId := markers[f.locationId].(className := HighlightedIcon(f.locationId in page.visited, false))];
      }
    }

    /** The state `updateCarouselView` leaves, from the state before it:
        nothing when there are no cards; otherwise icons below id 5 reset,
        exactly the current card highlighted, the nav buttons set, and the
        current marker's highlight scheduled. */
    twostate predicate Rendered()
      reads this, page
    {
      if |old(page.cards)| == 0 then
        && page.cards == old(page.cards) && markers == old(markers) && focuses == old(focuses)
        && prevDisabled == old(prevDisabled) && nextDisabled == old(nextDisabled)
      else
        && IconsReset(old(markers), markers, page.visited, true)
        && |page.cards| == |old(page.cards)|
        && 0 <= cardIndex < |page.cards|
        && (forall k :: 0 <= k < |page.cards| ==> page.cards[k] == old(page.cards)[k].(highlighted := k == cardIndex))
        && prevDisabled == (cardIndex == 0)
        && nextDisabled == (cardIndex == |page.locations| - 1)
        && focuses == old(focuses) + FocusFor(old(markers), page.cards[cardIndex].locationId)
    }

    /** The `cards.forEach` that gives `highlighted` to card `k` only. */
    method SpotlightCard(k: int)
      requires page.Valid()
      modifies page`cards
      ensures page.Valid() && |page.cards| == |old(page.cards)|
      ensures forall j :: 0 <= j < |page.cards| ==> page.cards[j] == old(page.cards)[j].(highlighted := j == k)
    {
      var i := 0;
      while i < |page.cards|
        invariant 0 <= i <= |page.cards| == |old(page.cards)|
        invariant forall j :: 0 <= j < |page.cards| ==>
          page.cards[j] == if j < i then old(page.cards)[j].(highlighted := j == k) else old(page.cards)[j]
      {
        page.cards := page.cards[i := page.cards[i].(highlighted := i == k)];
        i := i + 1;
      }
      HighlightKeepsFit(old(page.cards), page.cards, page.locations, page.visited);
    }

    /** The 50 ms highlight of the current card's marker, if it is below id 5
        and has a marker. */
    method ScheduleFocus(id: int)
      modifies this`focuses
      ensures focuses == old(focuses) + FocusFor(markers, id)
    {
      if id < 5 && id in markers {
        focuses := focuses + [Focus(id, markers[id].uid)];
      }
    }

    /** The animation-frame body of `updateCarouselView`. */
    method UpdateCarouselView()
      requires Valid() && page.Valid()
      modifies this`markers, this`focuses, this`prevDisabled, this`nextDisabled, page`cards
      ensures Valid() && page.Valid() && Rendered()
    {
      if |page.cards| == 0 {
        return;
      }
      ResetIcons(true);
      var id := page.cards[cardIndex].locationId;
      FocusSurvivesReset(old(markers), markers, page.visited, true, id);
      ScheduleFocus(id);
      SpotlightCard(cardIndex);
      prevDisabled := cardIndex == 0;
      nextDisabled := cardIndex == |page.locations| - 1;
    }

    /** `initMap` when the container exists: a fresh marker for every
        location (disabled ones without handlers), then
        `updateVisibleMarkers`. No fix-up is scheduled because every
        location already has a marker. */
    method InitMap(containerFound: bool, inBounds: (real, real) -> bool)
      requires Valid() && page.Valid()
      modifies this`mapLive, this`markers, this`nextUid, this`fixups
      ensures Valid() && fixups == old(fixups)
      ensures !containerFound ==> mapLive == old(mapLive) && markers == old(markers)
      ensures containerFound ==> mapLive && markers.Keys == VisibleIds(page.locations, inBounds)
      ensures containerFound ==> forall id :: id in markers ==>
        && old(nextUid) <= markers[id].uid
        && markers[id].className == MarkerIcon(id in page.visited, id >= 5)
        && markers[id].click == (if id >= 5 then NoClick else OpenOnClick)
    {
      if !containerFound {
        return;
      }
      mapLive := true;
      var locs := page.locations;
      PlaceMarkers();
      PlaceAllFacts(locs, old(markers), old(nextUid), page.visited);
      ghost var s1 := MarkerState(markers, nextUid, fixups);
      forall j | 0 <= j < |locs|
        ensures locs[j].id in s1.markers
      {
        assert locs[j].id in IdsOf(locs);
      }
      UpdateVisibleMarkers(inBounds);
      VisitAllPlaced(locs, s1, inBounds, page.visited, HighlightedId(page.cards));
      VisitAllKeys(locs, s1, inBounds, page.visited, HighlightedId(page.cards));
    }

    /** The `locations.forEach` of `initMap` that creates the markers. */
    method PlaceMarkers()
      modifies this`markers, this`nextUid
      ensures markers == PlaceAll(page.locations, old(markers), old(nextUid), page.visited)
      ensures nextUid == old(nextUid) + |page.locations|
    {
      var locs := page.locations;
      var i := 0;
      while i < |locs|
        invariant 0 <= i <= |locs|
        invariant markers == PlaceAll(locs[..i], old(markers), old(nextUid), page.visited)
        invariant nextUid == old(nextUid) + i
      {
        assert locs[..i + 1][..i] == locs[..i];
        var l := locs[i];
        markers := markers[l.id := InitialMarker(l, nextUid, page.visited)];
        nextUid := nextUid + 1;
        i := i + 1;
      }
      assert locs[..i] == locs;
    }

    /** `initCarousel`: one card per location (disabled from id 5 on, click
        handlers only on the others), the first card selected. */
    method InitCarousel()
      requires Valid() && page.Valid()
      modifies this`cardIndex, this`markers, this`focuses, this`prevDisabled, this`nextDisabled, page`cards
      ensures Valid() && page.Valid() && cardIndex == 0
      ensures |page.cards| == |page.locations|
      ensures forall k :: 0 <= k < |page.cards| ==>
        page.cards[k] == Card(page.locations[k].id, page.locations[k].id in page.visited,
                              page.locations[k].id >= 5, k == 0, page.locations[k].id < 5)
      ensures |page.locations| > 0 ==>
        && IconsReset(old(markers), markers, page.visited, true)
        && prevDisabled && nextDisabled == (|page.locations| == 1)
        && focuses == old(focuses) + FocusFor(old(markers), page.locations[0].id)
      ensures |page.locations| == 0 ==>
        && markers == old(markers) && focuses == old(focuses)
        && prevDisabled == old(prevDisabled) && nextDisabled == old(nextDisabled)
    {
      var locs := page.locations;
      var built: seq<Card> := [];
      var i := 0;
      while i < |locs|
        invariant 0 <= i <= |locs| && |built| == i
        invariant forall k :: 0 <= k < i ==>
          built[k] == Card(locs[k].id, locs[k].id in page.visited, locs[k].id >= 5, false, locs[k].id < 5)
      {
        var l := locs[i];
        built := built + [Card(l.id, l.id in page.visited, l.id >= 5, false, l.id < 5)];
        i := i + 1;
      }
      page.cards := built;
      cardIndex := 0;
      UpdateCarouselView();
    }

    /** `navigateCarousel`: the index wraps, then the carousel re-renders. */
    method NavigateCarousel(direction: int)
      requires Valid() && page.Valid()
      modifies this`cardIndex, this`markers, this`focuses, this`prevDisabled, this`nextDisabled, page`cards
      ensures Valid() && page.Valid() && Rendered()
      ensures cardIndex == Wrap(old(cardIndex), direction, |page.locations|)
    {
      cardIndex := Wrap(cardIndex, direction, |page.locations|);
      UpdateCarouselView();
    }

    /** A click on carousel card `k`. Only cards below id 5 have a handler.
        The highlighted card opens the detail page (the result); any other
        card becomes the selected one and its marker is highlighted, then
        the carousel re-renders. */
    method CardClick(k: int) returns (open: Option<int>)
      requires Valid() && page.Valid() && 0 <= k < |page.cards|
      modifies this`cardIndex, this`markers, this`focuses, this`prevDisabled, this`nextDisabled, page`cards
      ensures Valid() && page.Valid()
      ensures !old(page.cards[k].clickable) ==>
        && open == None && cardIndex == old(cardIndex) && page.cards == old(page.cards)
        && markers == old(markers) && focuses == old(focuses)
        && prevDisabled == old(prevDisabled) && nextDisabled == old(nextDisabled)
      ensures old(page.cards[k].clickable) ==>
        && cardIndex == k
        && open == (if old(page.cards[k].highlighted) then Some(page.locations[k].id) else None)
        && |page.cards| == |old(page.cards)|
        && (forall j :: 0 <= j < |page.cards| ==> page.cards[j] == old(page.cards)[j].(highlighted := j == k))
        && IconsReset(old(markers), markers, page.visited, old(page.cards[k].highlighted))
        && prevDisabled == (k == 0) && nextDisabled == (k == |page.locations| - 1)
        && focuses == old(focuses) + FocusFor(old(markers), page.locations[k].id)
    {
      open := None;
      if !page.cards[k].clickable {
        return;
      }
      var wasHighlighted := page.cards[k].highlighted;
      var id := page.cards[k].locationId;
      open := SelectCard(k);
      ghost var m1 := markers;
      UpdateCarouselView();
      if !wasHighlighted {
        HighlightThenReset(old(markers), m1, markers, page.visited, id);
        FocusSurvivesHighlight(old(markers), m1, page.visited, id, id);
      }
    }

    /** The synchronous part of the click handler of a card with a handler:
        the highlight moves to card `k` and, unless it was already there,
        the card's marker is highlighted; the highlighted card instead yields
        its location to open. */
    method SelectCard(k: int) returns (open: Option<int>)
      requires Valid() && page.Valid() && 0 <= k < |page.cards|
      modifies this`cardIndex, this`markers, page`cards
      ensures Valid() && page.Valid() && cardIndex == k
      ensures open == (if old(page.cards[k].highlighted) then Some(page.locations[k].id) else None)
      ensures |page.cards| == |old(page.cards)|
      ensures forall j :: 0 <= j < |page.cards| ==> page.cards[j] == old(page.cards)[j].(highlighted := page.cards[j].highlighted)
      ensures old(page.cards[k].highlighted) ==> markers == old(markers)
      ensures !old(page.cards[k].highlighted) ==> HighlightedOnly(old(markers), markers, page.visited, page.locations[k].id)
    {
      var wasHighlighted := page.cards[k].highlighted;
      var id := page.cards[k].locationId;
      var other := FirstHighlighted(page.cards);
      if other.Some? && other.value != k {
        page.cards := page.cards[other.value := page.cards[other.value].(highlighted := false)];
      }
      cardIndex := k;
      open := None;
      if wasHighlighted {
        open := Some(id);
      } else {
        page.cards := page.cards[k := page.cards[k].(highlighted := true)];
        HighlightMarker(id);
      }
      HighlightKeepsFit(old(page.cards), page.cards, page.locations, page.visited);
    }

    /** A click on the marker of location `locationId`, as the handler it was
        given decides. A select-on-click marker of a location that is not the
        selected one selects it and highlights the marker; the re-render then
        takes the highlight away again unless the id is 5 or more or there is
        no carousel. */
    method MarkerClick(locationId: int) returns (open: Option<int>)
      requires Valid() && page.Valid() && locationId in markers
      modifies this`cardIndex, this`markers, this`focuses, this`prevDisabled, this`nextDisabled, page`cards
      ensures Valid() && page.Valid()
      ensures old(markers[locationId].click) == NoClick ==>
        open == None && cardIndex == old(cardIndex) && markers == old(markers) && page.cards == old(page.cards)
      ensures old(markers[locationId].click) == OpenOnClick ==>
        open == Some(locationId) && cardIndex == old(cardIndex) && markers == old(markers) && page.cards == old(page.cards)
      ensures old(markers[locationId].click) != SelectOnClick || old(cardIndex) == FindLocation(page.locations, locationId).value ==>
        focuses == old(focuses) && prevDisabled == old(prevDisabled) && nextDisabled == old(nextDisabled)
      ensures old(markers[locationId].click) == SelectOnClick && old(cardIndex) != FindLocation(page.locations, locationId).value ==>
        var index := FindLocation(page.locations, locationId).value;
        if |old(page.cards)| == 0 then
          focuses == old(focuses) && prevDisabled == old(prevDisabled) && nextDisabled == old(nextDisabled)
        else
          && prevDisabled == (index == 0) && nextDisabled == (index == |page.locations| - 1)
          && focuses == old(focuses) + FocusFor(old(markers), locationId)
      ensures old(markers[locationId].click) == SelectOnClick ==>
        var index := FindLocation(page.locations, locationId).value;
        if old(cardIndex) == index then
          open == Some(locationId) && cardIndex == old(cardIndex) && markers == old(markers) && page.cards == old(page.cards)
        else
          && open == None && cardIndex == index
          && (if locationId >= 5 || |old(page.cards)| == 0
              then HighlightedOnly(old(markers), markers, page.visited, locationId)
              else IconsReset(old(markers), markers, page.visited, false))
          && (|old(page.cards)| == 0 ==> page.cards == old(page.cards))
          && (|old(page.cards)| > 0 ==> forall j :: 0 <= j < |page.cards| ==> page.cards[j] == old(page.cards)[j].(highlighted := j == index))
    {
      open := None;
      assert FindLocation(page.locations, locationId).Some? by {
        var j :| 0 <= j < |page.locations| && page.locations[j].id == locationId;
      }
      match markers[locationId].click
      case NoClick =>
      case OpenOnClick =>
        open := Some(locationId);
      case SelectOnClick =>
        var index := FindLocation(page.locations, locationId).value;
        if cardIndex == index {
          open := Some(locationId);
        } else {
          SelectFromMarker(locationId, index);
        }
    }

    /** The selecting branch of a marker click: location `index` becomes the
        selected card, its marker is highlighted and the carousel re-renders. */
    method SelectFromMarker(locationId: int, index: nat)
      requires Valid() && page.Valid() && locationId in markers
      requires FindLocation(page.locations, locationId) == Some(index) && cardIndex != index
      modifies this`cardIndex, this`markers, this`focuses, this`prevDisabled, this`nextDisabled, page`cards
      ensures Valid() && page.Valid()
      ensures cardIndex == index
      ensures if locationId >= 5 || |old(page.cards)| == 0
        then HighlightedOnly(old(markers), markers, page.visited, locationId)
        else IconsReset(old(markers), markers, page.visited, false)
      ensures |old(page.cards)| == 0 ==>
        && page.cards == old(page.cards)
        && focuses == old(focuses) && prevDisabled == old(prevDisabled) && nextDisabled == old(nextDisabled)
      ensures |old(page.cards)| > 0 ==>
        && (forall j :: 0 <= j < |page.cards| ==> page.cards[j] == old(page.cards)[j].(highlighted := j == index))
        && prevDisabled == (index == 0) && nextDisabled == (index == |page.locations| - 1)
        && focuses == old(focuses) + FocusFor(old(markers), locationId)
    {
      cardIndex := index;
      ghost var m0, f0 := markers, focuses;
      HighlightMarker(locationId);
      ghost var m1 := markers;
      UpdateCarouselView();
      if |old(page.cards)| > 0 {
        HighlightThenReset(m0, m1, markers, page.visited, locationId);
        FocusSurvivesHighlight(m0, m1, page.visited, locationId, locationId);
        assert page.cards[index].locationId == locationId;
        assert focuses == f0 + FocusFor(m1, locationId);
      } else {
        assert markers == m1;
      }
    }

    /** Hovering over or leaving card `k`: only cards with handlers react,
        and only while they are not the highlighted card. */
    method CardHover(k: int, entering: bool)
      requires Valid() && 0 <= k < |page.cards|
      modifies this`markers
      ensures Valid()
      ensures !page.cards[k].clickable || page.cards[k].highlighted ==> markers == old(markers)
      ensures page.cards[k].clickable && !page.cards[k].highlighted && entering ==>
        HighlightedOnly(old(markers), markers, page.visited, page.cards[k].locationId)
      ensures page.cards[k].clickable && !page.cards[k].highlighted && !entering ==>
        Unhighlighted(old(markers), markers, page.visited, page.cards[k].locationId)
    {
      if page.cards[k].clickable && !page.cards[k].highlighted {
        if entering {
          HighlightMarker(page.cards[k].locationId);
        } else {
          UnhighlightMarker(page.cards[k].locationId);
        }
      }
    }

    /** Hovering over or leaving a marker: markers without handlers do not react. */
    method MarkerHover(locationId: int, entering: bool)
      requires Valid() && locationId in markers
      modifies this`markers
      ensures Valid()
      ensures old(markers[locationId].click) == NoClick ==> markers == old(markers)
      ensures old(markers[locationId].click) != NoClick && entering ==> HighlightedOnly(old(markers), markers, page.visited, locationId)
      ensures old(markers[locationId].click) != NoClick && !entering ==> Unhighlighted(old(markers), markers, page.visited, locationId)
    {
      if markers[locationId].click != NoClick {
        if entering {
          HighlightMarker(locationId);
        } else {
          UnhighlightMarker(locationId);
        }
      }
    }
  }
}
