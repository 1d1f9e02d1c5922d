/** The door-story player (public/js/storyNavigation.js): a slideshow with a
    transition lock, a two-phase slide change and a single active story
    container per page. Every timer and image callback of the source that
    changes modelled state is a method of its own that the environment may
    call while that callback is pending; no time is modelled. */
module StoryNavigation {
  import opened Content
  import StoryData

  /** The width given to the progress bar: a percentage, or NaN when the
      story has a single slide (`0 / 0`). */
  datatype Percent = Width(value: real) | NotANumber

  /** `currentStoryIndex / (storyStates.length - 1) * 100`. */
  function Progress(index: int, count: int): (p: Percent)
    requires 0 <= index < count
    ensures p.NotANumber? <==> count == 1
    ensures p.Width? ==> 0.0 <= p.value <= 100.0
    ensures p.Width? ==> (p.value == 0.0 <==> index == 0)
    ensures p.Width? ==> (p.value == 100.0 <==> index == count - 1)
  {
    if count == 1 then NotANumber else Width(index as real / (count - 1) as real * 100.0)
  }

  /** Progress grows strictly with the slide index. */
  lemma ProgressIncreasing(i: int, j: int, count: int)
    requires 0 <= i < j < count
    ensures Progress(i, count).Width? && Progress(j, count).Width?
    ensures Progress(i, count).value < Progress(j, count).value
  {
    var d := (count - 1) as real;
    assert i as real / d < j as real / d;
  }

  datatype Swipe = Backward | Forward | NoSwipe

  function Abs(x: real): real {
    if x < 0.0 then -x else x
  }

  /** The touch-end classifier: a mostly horizontal movement of more than 50
      pixels to the right goes back, to the left goes forward. */
  function Classify(dx: real, dy: real): Swipe {
    if Abs(dx) > Abs(dy) then
      if dx > 50.0 then Backward else if dx < -50.0 then Forward else NoSwipe
    else NoSwipe
  }

  /** The direction a swipe goes the other way round. */
  function Reversed(s: Swipe): Swipe {
    match s
    case Backward => Forward
    case Forward => Backward
    case NoSwipe => NoSwipe
  }

  /** The classifier is symmetric: mirroring a movement left to right swaps
      back and forward, and a swipe needs more than 50 pixels and more
      horizontal than vertical movement in either direction. */
  lemma ClassifyMirror(dx: real, dy: real)
    ensures Classify(-dx, dy) == Reversed(Classify(dx, dy))
    ensures Classify(dx, -dy) == Classify(dx, dy)
    ensures Classify(dx, dy) != NoSwipe ==> Abs(dx) > 50.0 && Abs(dx) > Abs(dy)
  {
  }

  /** How a slide change is rendered: by moving the existing image, or by
      preloading the next image and cross-fading to a new slide. */
  datatype Transition = InPlace | CrossFade

  function TransitionBetween(prev: Slide, next: Slide): Transition {
    if prev.image == next.image then InPlace else CrossFade
  }

  /** Of the left-door story, the first six slides share one image; the last
      one needs a preload. */
  lemma LeftDoorTransitions()
    ensures forall i :: 1 <= i < 6 ==> TransitionBetween(StoryData.LeftDoor[i - 1], StoryData.LeftDoor[i]) == InPlace
    ensures TransitionBetween(StoryData.LeftDoor[5], StoryData.LeftDoor[6]) == CrossFade
  {
  }

  /** Of the right-door story, the change to the second slide and the change
      to the last need a preload; the three in between share one image. */
  lemma RightDoorTransitions()
    ensures TransitionBetween(StoryData.RightDoor[0], StoryData.RightDoor[1]) == CrossFade
    ensures forall i :: 2 <= i < 5 ==> TransitionBetween(StoryData.RightDoor[i - 1], StoryData.RightDoor[i]) == InPlace
    ensures TransitionBetween(StoryData.RightDoor[4], StoryData.RightDoor[5]) == CrossFade
  {
  }

  /** The farmer-and-craftsman story never needs a preload. */
  lemma FarmerTransitions()
    ensures TransitionBetween(StoryData.FarmerAndCraftsman[0], StoryData.FarmerAndCraftsman[1]) == InPlace
  {
  }

  /** Going back over a slide change renders it the same way as going forward. */
  lemma TransitionSymmetric(a: Slide, b: Slide)
    ensures TransitionBetween(a, b) == TransitionBetween(b, a)
  {
  }

  /** The back-to-map button of the shown slide: absent, bound to the
      immediate exit (slide rebuilt in place), or bound to the exit that fades
      the container out first (slide built with its listeners). */
  datatype BackButton = NoButton | ExitNow | ExitAfterFade

  /** What a handler asks of the rest of the page: nothing, `showSection("map")`,
      or setting the display of the location detail page. */
  datatype Effect = Stay | ShowMap | RevealDetail | HideDetail

  /** A pending settle step of `navigateStory`, with the values its closure captured. */
  datatype Settle = Settle(newIndex: int, direction: int)

  /** The callbacks that have been scheduled and not yet run. */
  datatype Pending = Pending(
    settles: multiset<Settle>,  // 300 ms after navigateStory: commit the index and render
    releases: nat,              // 800 ms after a settle: release the lock
    loads: multiset<int>,       // preloads awaiting onload or onerror, by slide index
    swipeBacks: nat,            // 300 ms after a right swipe at slide 0
    prevExits: nat,             // 300 ms after prev at slide 0
    forwardHides: nat,          // 300 ms after next while the detail page shows
    mapExits: nat,              // 300 ms after the fading back-to-map button
    cleanups: nat)              // 800 ms after a preloaded slide was added: drop the old slide

  const NoPending := Pending(multiset{}, 0, multiset{}, 0, 0, 0, 0, 0)

  /** What the container shows: the progress width, whether next is disabled,
      the image and title on screen, the back-to-map button, and whether the
      buttons of the slide on top have their click listeners. A slide added
      by a preload gets them only when the old slide is dropped. */
  datatype View = View(progress: Percent, nextDisabled: bool, image: string, title: string,
                       backToMap: BackButton, buttonsLive: bool)

  /** The container the page keeps the active story in, with its own id, and
      the set of containers in the document. */
  function Detach(attached: set<nat>, active: Option<nat>): (r: set<nat>)
    ensures r <= attached
    ensures active.Some? ==> active.value !in r
    ensures forall c :: c in attached && Some(c) != active ==> c in r
  {
    if active.Some? then attached - {active.value} else attached
  }

  /** The module-level reference to the active story container, and which
      containers are in the document. Containers are named by the id of the
      player that created them. */
  class StoryHost {
    var active: Option<nat>
    var attached: set<nat>
    var nextId: nat

    ghost predicate Valid()
      reads this
    {
      && (forall c :: c in attached ==> c < nextId)
      && (active.Some? ==> active.value < nextId)
    }

    /** What `initDoorStory` did to the page, on the state before: the
        previously active container is gone, a new container is the active
        one, and it is attached exactly when its player `p` was built. */
    twostate predicate Started(new p: StoryPlayer?)
      reads this
    {
      && nextId == old(nextId) + 1 && active == Some(old(nextId))
      && attached == Detach(old(attached), old(active)) + (if p == null then {} else {p.id})
    }

    constructor ()
      ensures Valid() && active == None && attached == {} && nextId == 0
    {
      active := None;
      attached := {};
      nextId := 0;
    }

    /** `initDoorStory`: disposes the active container, makes a new one the
        active one, and shows its first slide. For an empty story the source
        raises when it reads the first slide, after the new container was made
        active and before it is added to the document; `null` stands for that. */
    method Start(slides: seq<Slide>) returns (p: StoryPlayer?)
      requires Valid()
      modifies this
      ensures Valid()
      ensures nextId == old(nextId) + 1 && active == Some(old(nextId))
      ensures old(active).Some? ==> old(active).value !in attached
      ensures p == null <==> |slides| == 0
      ensures p == null ==> attached == Detach(old(attached), old(active))
      ensures p != null ==> attached == Detach(old(attached), old(active)) + {p.id}
      ensures p != null ==> fresh(p) && p.Valid() && p.id == old(nextId) && p.slides == slides
      ensures p != null ==> p.index == 0 && !p.transitioning && p.pending == NoPending
      ensures p != null ==> p.view == p.FirstView()
    {
      if active.Some? {
        attached := attached - {active.value};
        active := None;
      }
      var id := nextId;
      nextId := nextId + 1;
      active := Some(id);
      if |slides| == 0 {
        p := null;
        return;
      }
      p := new StoryPlayer(id, slides);
      attached := attached + {id};
    }
  }

  /** One story container and the closure state of its handlers. */
  class StoryPlayer {
    const id: nat
    const slides: seq<Slide>
    var index: int
    var transitioning: bool
    var pending: Pending
    var view: View

    ghost predicate Valid()
      reads this
    {
      && 0 <= index < |slides|
      && view.progress == Progress(index, |slides|)
      && view.nextDisabled == (index == |slides| - 1)
      && (forall s :: s in pending.settles ==> 0 <= s.newIndex < |slides| && 0 <= s.newIndex - s.direction < |slides|)
      && (forall k :: k in pending.loads ==> 0 <= k < |slides|)
    }

    /** The first slide as `createStorySlide` renders it. */
    function FirstView(): View
      requires |slides| > 0
    {
      View(Progress(0, |slides|), |slides| == 1, slides[0].image, slides[0].title,
           if |slides| == 1 then ExitAfterFade else NoButton, true)
    }

    constructor (id: nat, slides: seq<Slide>)
      requires |slides| > 0
      ensures Valid() && this.id == id && this.slides == slides
      ensures index == 0 && !transitioning && pending == NoPending && view == FirstView()
    {
      this.id := id;
      this.slides := slides;
      index := 0;
      transitioning := false;
      pending := NoPending;
      view := View(Progress(0, |slides|), |slides| == 1, slides[0].image, slides[0].title,
                   if |slides| == 1 then ExitAfterFade else NoButton, true);
    }

    /** `navigateStory(direction)` would take the lock now. */
    predicate CanNavigate(direction: int)
      reads this
    {
      !transitioning && 0 <= index + direction < |slides|
    }

    /** The outcome of `navigateStory(direction)` on the state before. */
    twostate predicate Navigated(direction: int)
      reads this
    {
      && index == old(index) && view == old(view)
      && if old(CanNavigate(direction)) then
           && transitioning
           && pending == old(pending).(settles := old(pending).settles + multiset{Settle(old(index) + direction, direction)})
         else
           transitioning == old(transitioning) && pending == old(pending)
    }

    /** `navigateStory`, first phase: ignored while a transition runs or when
        the target is outside the story; otherwise takes the lock and
        schedules the settle step. */
    method NavigateStory(direction: int)
      requires Valid()
      modifies this
      ensures Valid() && Navigated(direction)
    {
      if transitioning {
        return;
      }
      var newIndex := index + direction;
      if 0 <= newIndex < |slides| {
        transitioning := true;
        pending := pending.(settles := pending.settles + multiset{Settle(newIndex, direction)});
      }
    }

    /** The 300 ms settle step: commits the index, updates the buttons and
        the text, then renders in place when the image is unchanged and
        otherwise starts a preload; always schedules the 800 ms release. */
    method SettleStep(s: Settle)
      requires Valid() && s in pending.settles
      modifies this
      ensures Valid()
      ensures index == s.newIndex && transitioning == old(transitioning)
      ensures var last := s.newIndex == |slides| - 1;
              var next := slides[s.newIndex];
              var settled := old(pending).(settles := old(pending).settles - multiset{s}, releases := old(pending).releases + 1);
              var shown := old(view).(progress := Progress(s.newIndex, |slides|), nextDisabled := last, title := next.title);
              match TransitionBetween(slides[s.newIndex - s.direction], next)
              case InPlace =>
                view == shown.(backToMap := if last then ExitNow else NoButton) && pending == settled
              case CrossFade =>
                view == shown.(backToMap := NoButton) && pending == settled.(loads := settled.loads + multiset{s.newIndex})
    {
      index := s.newIndex;
      var next := slides[s.newIndex];
      var prev := slides[index - s.direction];
      var last := s.newIndex == |slides| - 1;
      var settled := pending.(settles := pending.settles - multiset{s});
      if prev.image == next.image {
        view := view.(nextDisabled := last, title := next.title, backToMap := if last then ExitNow else NoButton);
      } else {
        view := view.(nextDisabled := last, title := next.title, backToMap := NoButton);
        settled := settled.(loads := settled.loads + multiset{s.newIndex});
      }
      view := view.(progress := Progress(index, |slides|));
      pending := settled.(releases := settled.releases + 1);
    }

    /** The 800 ms timer of a settle step: releases the lock. */
    method Release()
      requires Valid() && pending.releases > 0
      modifies this
      ensures Valid() && index == old(index) && view == old(view) && !transitioning
      ensures pending == old(pending).(releases := old(pending).releases - 1)
    {
      transitioning := false;
      pending := pending.(releases := pending.releases - 1);
    }

    /** `onload` of the preload for slide `k`: the new slide is put on top of
        the shown one, with a back-to-map button on the last slide but no
        listeners yet, and (in the animation frame) the 800 ms removal of the
        old slide is scheduled. */
    method ImageLoaded(k: int)
      requires Valid() && k in pending.loads
      modifies this
      ensures Valid() && index == old(index) && transitioning == old(transitioning)
      ensures pending == old(pending).(loads := old(pending).loads - multiset{k}, cleanups := old(pending).cleanups + 1)
      ensures view == old(view).(image := slides[k].image, title := slides[k].title,
                                 backToMap := if k == |slides| - 1 then ExitAfterFade else NoButton,
                                 buttonsLive := false)
    {
      pending := pending.(loads := pending.loads - multiset{k}, cleanups := pending.cleanups + 1);
      view := view.(image := slides[k].image, title := slides[k].title,
                    backToMap := if k == |slides| - 1 then ExitAfterFade else NoButton,
                    buttonsLive := false);
    }

    /** The 800 ms timer after a preloaded slide was added: the old slide is
        removed and `setupEventListeners` binds the buttons on screen. */
    method CleanupDone()
      requires Valid() && pending.cleanups > 0
      modifies this
      ensures Valid() && index == old(index) && transitioning == old(transitioning)
      ensures pending == old(pending).(cleanups := old(pending).cleanups - 1)
      ensures view == old(view).(buttonsLive := true)
    {
      pending := pending.(cleanups := pending.cleanups - 1);
      view := view.(buttonsLive := true);
    }

    /** `onerror` of the preload for slide `k`: releases the lock; the index
        stays committed and the old image stays on screen. */
    method ImageError(k: int)
      requires Valid() && k in pending.loads
      modifies this
      ensures Valid() && index == old(index) && view == old(view) && !transitioning
      ensures pending == old(pending).(loads := old(pending).loads - multiset{k})
    {
      pending := pending.(loads := pending.loads - multiset{k});
      transitioning := false;
    }

    /** The touch-end handler bound when the story starts. */
    method TouchEnd(dx: real, dy: real) returns (e: Effect)
      requires Valid()
      modifies this
      ensures Valid() && index == old(index) && view == old(view)
      ensures old(transitioning) ==> e == Stay && transitioning && pending == old(pending)
      ensures !old(transitioning) ==>
        match Classify(dx, dy)
        case NoSwipe => e == Stay && !transitioning && pending == old(pending)
        case Backward =>
          if old(index) == 0 then
            e == RevealDetail && transitioning && pending == old(pending).(swipeBacks := old(pending).swipeBacks + 1)
          else e == Stay && Navigated(-1)
        case Forward => e == Stay && Navigated(1)
    {
      e := Stay;
      if transitioning {
        return;
      }
      match Classify(dx, dy)
      case NoSwipe =>
      case Backward =>
        if index == 0 {
          transitioning := true;
          pending := pending.(swipeBacks := pending.swipeBacks + 1);
          e := RevealDetail;
        } else {
          NavigateStory(-1);
        }
      case Forward =>
        NavigateStory(1);
    }

    /** The 300 ms timer after a right swipe at slide 0: removes the
        container, clears the active reference and releases the lock. */
    method SwipeBackDone(host: StoryHost)
      requires Valid() && host.Valid() && pending.swipeBacks > 0
      modifies this, host
      ensures Valid() && host.Valid() && index == old(index) && view == old(view) && !transitioning
      ensures pending == old(pending).(swipeBacks := old(pending).swipeBacks - 1)
      ensures host.attached == old(host.attached) - {id} && host.active == None && host.nextId == old(host.nextId)
    {
      pending := pending.(swipeBacks := pending.swipeBacks - 1);
      host.attached := host.attached - {id};
      host.active := None;
      transitioning := false;
    }

    /** The outcome of a click on prev, on the state before. */
    twostate predicate PrevClicked(e: Effect)
      reads this
    {
      if old(index) == 0 then
        && e == RevealDetail && index == old(index) && view == old(view)
        && transitioning == old(transitioning)
        && pending == old(pending).(prevExits := old(pending).prevExits + 1)
      else e == Stay && Navigated(-1)
    }

    /** A click on prev: the button on screen reacts only once it has its
        listener. */
    method PrevButtonClick() returns (e: Effect)
      requires Valid()
      modifies this
      ensures Valid()
      ensures !old(view.buttonsLive) ==>
        e == Stay && index == old(index) && transitioning == old(transitioning) && view == old(view) && pending == old(pending)
      ensures old(view.buttonsLive) ==> PrevClicked(e)
    {
      e := Stay;
      if view.buttonsLive {
        e := PrevListener();
      }
    }

    /** The click listener of prev, which the second touch-end listener also
        triggers through `prevBtn.click()`: at slide 0 it shows the detail
        page again and schedules the container's removal, without taking the
        lock; elsewhere it navigates back. */
    method PrevListener() returns (e: Effect)
      requires Valid()
      modifies this
      ensures Valid() && PrevClicked(e)
    {
      if index == 0 {
        pending := pending.(prevExits := pending.prevExits + 1);
        e := RevealDetail;
      } else {
        NavigateStory(-1);
        e := Stay;
      }
    }

    /** The 300 ms timer after prev at slide 0. */
    method PrevExitDone(host: StoryHost)
      requires Valid() && host.Valid() && pending.prevExits > 0
      modifies this, host
      ensures Valid() && index == old(index) && view == old(view) && transitioning == old(transitioning)
      ensures pending == old(pending).(prevExits := old(pending).prevExits - 1)
      ensures host.Valid() && host.attached == old(host.attached) - {id} && host.active == None && host.nextId == old(host.nextId)
    {
      pending := pending.(prevExits := pending.prevExits - 1);
      host.attached := host.attached - {id};
      host.active := None;
    }

    /** The outcome of `handleForwardNavigation`, on the state before. */
    twostate predicate ForwardHandled(detailShown: bool)
      reads this
    {
      if old(transitioning) then
        transitioning && index == old(index) && view == old(view) && pending == old(pending)
      else if detailShown then
        && transitioning && index == old(index) && view == old(view)
        && pending == old(pending).(forwardHides := old(pending).forwardHides + 1)
      else Navigated(1)
    }

    /** `handleForwardNavigation`: ignored while locked; while the detail page
        is still displayed it takes the lock and schedules hiding it;
        otherwise it navigates forward. */
    method HandleForwardNavigation(detailShown: bool)
      requires Valid()
      modifies this
      ensures Valid() && ForwardHandled(detailShown)
    {
      if transitioning {
        return;
      }
      if detailShown {
        transitioning := true;
        pending := pending.(forwardHides := pending.forwardHides + 1);
      } else {
        NavigateStory(1);
      }
    }

    /** The 300 ms timer of `handleForwardNavigation`: hides the detail page
        and releases the lock. */
    method ForwardHideDone() returns (e: Effect)
      requires Valid() && pending.forwardHides > 0
      modifies this
      ensures Valid() && index == old(index) && view == old(view) && !transitioning
      ensures pending == old(pending).(forwardHides := old(pending).forwardHides - 1)
      ensures e == HideDetail
    {
      pending := pending.(forwardHides := pending.forwardHides - 1);
      transitioning := false;
      e := HideDetail;
    }

    /** A click on next. A disabled button dispatches no click, and a button
        without its listener does nothing. */
    method NextButtonClick(detailShown: bool)
      requires Valid()
      modifies this
      ensures Valid()
      ensures old(view.nextDisabled) || !old(view.buttonsLive) ==>
        index == old(index) && transitioning == old(transitioning) && view == old(view) && pending == old(pending)
      ensures !old(view.nextDisabled) && old(view.buttonsLive) ==> ForwardHandled(detailShown)
    {
      if !view.nextDisabled && view.buttonsLive {
        HandleForwardNavigation(detailShown);
      }
    }

    /** The home button: removes the container, clears the active reference
        and shows the map, once it has its listener. */
    method HomeClick(host: StoryHost) returns (e: Effect)
      requires Valid() && host.Valid()
      modifies host
      ensures host.Valid()
      ensures !view.buttonsLive ==> e == Stay && unchanged(host)
      ensures view.buttonsLive ==>
        && host.attached == old(host.attached) - {id} && host.active == None && host.nextId == old(host.nextId)
        && e == ShowMap
    {
      e := Stay;
      if !view.buttonsLive {
        return;
      }
      host.attached := host.attached - {id};
      host.active := None;
      e := ShowMap;
    }

    /** A click on the back-to-map button of the shown slide, if it has one
        and the slide's buttons have their listeners. */
    method BackToMapClick(host: StoryHost) returns (e: Effect)
      requires Valid() && host.Valid()
      modifies this, host
      ensures Valid() && index == old(index) && view == old(view) && transitioning == old(transitioning)
      ensures host.Valid() && host.nextId == old(host.nextId)
      ensures old(view.backToMap) == NoButton || !old(view.buttonsLive) ==> e == Stay && pending == old(pending) && unchanged(host)
      ensures old(view.backToMap) == ExitNow && old(view.buttonsLive) ==>
        e == ShowMap && pending == old(pending) && host.attached == old(host.attached) - {id} && host.active == None
      ensures old(view.backToMap) == ExitAfterFade && old(view.buttonsLive) ==>
        e == Stay && pending == old(pending).(mapExits := old(pending).mapExits + 1) && unchanged(host)
    {
      e := Stay;
      if !view.buttonsLive {
        return;
      }
      match view.backToMap
      case NoButton =>
      case ExitNow =>
        host.attached := host.attached - {id};
        host.active := None;
        e := ShowMap;
      case ExitAfterFade =>
        pending := pending.(mapExits := pending.mapExits + 1);
    }

    /** The 300 ms timer of the fading back-to-map button. */
    method BackToMapDone(host: StoryHost) returns (e: Effect)
      requires Valid() && host.Valid() && pending.mapExits > 0
      modifies this, host
      ensures Valid() && index == old(index) && view == old(view) && transitioning == old(transitioning)
      ensures pending == old(pending).(mapExits := old(pending).mapExits - 1)
      ensures host.Valid() && host.attached == old(host.attached) - {id} && host.active == None && host.nextId == old(host.nextId)
      ensures e == ShowMap
    {
      pending := pending.(mapExits := pending.mapExits - 1);
      host.attached := host.attached - {id};
      host.active := None;
      e := ShowMap;
    }

    /** The touch-end handler that every `setupEventListeners` binds: at
        slide 0 a right swipe clicks prev, a left swipe goes through
        `handleForwardNavigation`. */
    method ReboundTouchEnd(dx: real, dy: real, detailShown: bool) returns (e: Effect)
      requires Valid()
      modifies this
      ensures Valid()
      ensures old(transitioning) ==> e == Stay && transitioning && index == old(index) && view == old(view) && pending == old(pending)
      ensures !old(transitioning) ==>
        match Classify(dx, dy)
        case NoSwipe => e == Stay && !transitioning && index == old(index) && view == old(view) && pending == old(pending)
        case Backward => PrevClicked(e)
        case Forward => e == Stay && ForwardHandled(detailShown)
    {
      e := Stay;
      if transitioning {
        return;
      }
      match Classify(dx, dy)
      case NoSwipe =>
      case Backward =>
        e := PrevListener();
      case Forward =>
        HandleForwardNavigation(detailShown);
    }
  }
}
