/** The static content of the tour (locations, stories) and the page state that
    several parts of the front end write to: the carousel cards, the detail
    page's title, its continue and back-to-map buttons, and the messages in its
    info container. */
module Content {

  datatype Option<T> = None | Some(value: T)

  /** A percentage rectangle over a location's detail image, as CSS strings. */
  datatype Area = Area(top: string, left: string, width: string, height: string)

  /** A point of interest, as loaded from the location records. A record may
      lack its info snippets or its highlight areas. Whether a location was
      visited is the only thing that changes at run time; it lives on the Page. */
  datatype Location = Location(
    id: int,
    name: string,
    description: string,
    category: string,
    lat: real,
    lng: real,
    info: Option<seq<string>>,
    highlightAreas: Option<seq<Area>>,
    isOverview: bool)

  /** One step of a story. Zoom and height only style the slide and are not kept. */
  datatype Slide = Slide(title: string, description: string, image: string)

  /** A carousel card: the location it shows, its `visited`, `disabled` and
      `highlighted` classes, and whether a click handler was bound to it. */
  datatype Card = Card(locationId: int, visited: bool, disabled: bool, highlighted: bool, clickable: bool)

  /** Location ids identify locations: no two records share one. */
  ghost predicate UniqueIds(locs: seq<Location>) {
    forall i, j :: 0 <= i < |locs| && 0 <= j < |locs| && i != j ==> locs[i].id != locs[j].id
  }

  /** `locations.find(l => l.id === id)` together with its index. */
  function FindLocation(locs: seq<Location>, id: int): (r: Option<nat>)
    ensures r.Some? ==> r.value < |locs| && locs[r.value].id == id
    ensures r.Some? ==> forall j :: 0 <= j < r.value ==> locs[j].id != id
    ensures r.None? <==> forall j :: 0 <= j < |locs| ==> locs[j].id != id
  {
    if |locs| == 0 then None
    else if locs[0].id == id then Some(0)
    else match FindLocation(locs[1..], id)
      case None => None
      case Some(k) => Some(k + 1)
  }

  /** The card bound to location `id`: `carouselCards[id]`, the latest card
      the carousel built for it. */
  function FindCard(cards: seq<Card>, id: int): (r: Option<nat>)
    ensures r.Some? ==> r.value < |cards| && cards[r.value].locationId == id
    ensures r.Some? ==> forall j :: 0 <= j < r.value ==> cards[j].locationId != id
    ensures r.None? <==> forall j :: 0 <= j < |cards| ==> cards[j].locationId != id
  {
    if |cards| == 0 then None
    else if cards[0].locationId == id then Some(0)
    else match FindCard(cards[1..], id)
      case None => None
      case Some(k) => Some(k + 1)
  }

  /** The cards as `initCarousel` builds them and every later operation keeps
      them: card `k` shows location `k`; it carries `visited` iff the location
      is visited and `disabled` iff its id is at least 5, and only the other
      cards got a click handler. */
  ghost predicate CardsFit(cards: seq<Card>, locs: seq<Location>, visited: set<int>) {
    |cards| == 0 ||
    (&& |cards| == |locs|
     && forall k :: 0 <= k < |cards| ==>
          && cards[k].locationId == locs[k].id
          && (cards[k].visited <==> locs[k].id in visited)
          && (cards[k].disabled <==> locs[k].id >= 5)
          && (cards[k].clickable <==> locs[k].id < 5))
  }

  /** The location records (shared by every module) and the parts of the
      document that more than one module writes. */
  class Page {
    const locations: seq<Location>
    /** Ids of the locations whose `visited` flag is set. */
    var visited: set<int>
    /** The carousel cards in document order (empty until the carousel is built). */
    var cards: seq<Card>
    /** Text of the detail page's title element. */
    var titleText: string
    var continueShown: bool
    var backToMapShown: bool
    /** Number of congratulation messages appended to the info container. */
    var congratulations: nat

    /** Location ids are unique, and the carousel, once built, has one card
        per location in list order whose classes agree with the location. */
    ghost predicate Valid()
      reads this
    {
      UniqueIds(locations) && CardsFit(cards, locations, visited)
    }

    /** Of the page's variable parts, at most the cards changed. */
    twostate predicate OnlyCardsChanged()
      reads this
    {
      && visited == old(visited) && titleText == old(titleText)
      && continueShown == old(continueShown) && backToMapShown == old(backToMapShown)
      && congratulations == old(congratulations)
    }

    /** `updateInfoText` emptied the info container, so the messages are
        gone; nothing else on the page changed. */
    twostate predicate OnlyMessagesCleared()
      reads this
    {
      && visited == old(visited) && cards == old(cards) && titleText == old(titleText)
      && continueShown == old(continueShown) && backToMapShown == old(backToMapShown)
      && congratulations == 0
    }

    /** The page as the application starts it: the continue button is hidden
        while events are bound. */
    constructor (locs: seq<Location>, visitedAtLoad: set<int>)
      requires UniqueIds(locs)
      ensures Valid() && locations == locs && visited == visitedAtLoad && cards == []
      ensures titleText == "" && !continueShown && !backToMapShown && congratulations == 0
    {
      locations := locs;
      visited := visitedAtLoad;
      cards := [];
      titleText := "";
      continueShown := false;
      backToMapShown := false;
      congratulations := 0;
    }
  }
}
