/**
 * The community gallery: the published creations, the like toggle (applied
 * to the local list before the request and never rolled back), and the
 * lightbox that shows one creation enlarged and is driven by the arrow and
 * Escape keys, its buttons, clicks on the grid and the image's load event.
 */
module Community {
  import opened Api
  import JsArray

  /** The test `uid !== user.id`. */
  function NotUser(user: UserId): UserId -> bool
  {
    (u: UserId) => u != user
  }

  /**
   * The new `likes` of a toggled creation: every occurrence of the user
   * removed if they were among the likers, otherwise the user appended once.
   */
  function ToggleMember(likes: seq<UserId>, user: UserId): (r: seq<UserId>)
    ensures user in r <==> user !in likes
    ensures forall u :: u != user ==> (u in r <==> u in likes)
    ensures user !in likes ==> r == likes + [user]
  {
    if user in likes then JsArray.Filter(likes, NotUser(user)) else likes + [user]
  }

  /** A toggle leaves the other likers as they were, in the same order. */
  lemma ToggleKeepsOtherLikers(likes: seq<UserId>, user: UserId)
    ensures JsArray.Filter(ToggleMember(likes, user), NotUser(user)) == JsArray.Filter(likes, NotUser(user))
  {
    if user in likes {
      JsArray.FilterIdempotent(likes, NotUser(user));
    } else {
      JsArray.FilterConcat(likes, [user], NotUser(user));
      assert JsArray.Filter([user], NotUser(user)) == [];
    }
  }

  /** Liking and then unliking restores a `likes` list that did not hold the user. */
  lemma ToggleTwiceRestores(likes: seq<UserId>, user: UserId)
    requires user !in likes
    ensures ToggleMember(ToggleMember(likes, user), user) == likes
  {
    JsArray.FilterConcat(likes, [user], NotUser(user));
    JsArray.FilterKeepsAll(likes, NotUser(user));
    assert JsArray.Filter([user], NotUser(user)) == [];
  }

  /**
   * Unliking and then liking a list that held the user drops the user's
   * duplicates and moves the user to the end.
   */
  lemma ToggleTwiceFromLiked(likes: seq<UserId>, user: UserId)
    requires user in likes
    ensures ToggleMember(ToggleMember(likes, user), user) == JsArray.Filter(likes, NotUser(user)) + [user]
  {
  }

  /**
   * `imageLikeToggle(id)`'s update of the list: same length and order; every
   * creation with another id is untouched; a creation with the id keeps all
   * its fields except `likes`, which is toggled for the user.
   */
  function ToggleLike(items: seq<Creation>, id: CreationId, user: UserId): (r: seq<Creation>)
    ensures |r| == |items|
    ensures forall i :: 0 <= i < |items| ==>
      && r[i] == items[i].(likes := r[i].likes)
      && (items[i].id != id ==> r[i] == items[i])
      && (items[i].id == id ==> r[i].likes == ToggleMember(items[i].likes, user))
      && (items[i].id == id ==> (user in r[i].likes <==> user !in items[i].likes))
  {
    seq(|items|, i requires 0 <= i < |items| =>
      if items[i].id == id then items[i].(likes := ToggleMember(items[i].likes, user)) else items[i])
  }

  /** Toggling the same creation twice for a user who had not liked it restores the list. */
  lemma ToggleLikeTwice(items: seq<Creation>, id: CreationId, user: UserId)
    requires forall c :: c in items && c.id == id ==> user !in c.likes
    ensures ToggleLike(ToggleLike(items, id, user), id, user) == items
  {
    var once := ToggleLike(items, id, user);
    var twice := ToggleLike(once, id, user);
    forall i | 0 <= i < |items| ensures twice[i] == items[i] {
      if items[i].id == id {
        assert items[i] in items;
        ToggleTwiceRestores(items[i].likes, user);
      }
    }
  }

  /** The lightbox cells `expandedIndex` (null when closed) and `isImageLoaded`. */
  datatype Lightbox = Lightbox(expandedIndex: Option<int>, imageLoaded: bool)

  const Closed: Lightbox := Lightbox(None, false)

  /** What drives the lightbox: a key press, a click on a grid item, its buttons, the image's load event. */
  datatype LightboxEvent =
    | KeyDown(key: string)
    | ItemClick(index: int)
    | CloseClick
    | PrevClick
    | NextClick
    | ImageLoad

  /** The expanded view is rendered: the index addresses an existing creation. */
  predicate Shown(lb: Lightbox, count: nat)
  {
    lb.expandedIndex.Some? && 0 <= lb.expandedIndex.value < count
  }

  /**
   * Whether the page can deliver the event: keys always reach the window
   * listener; an item click names an existing creation; the close button and
   * the image exist only while the view is shown; the previous and next
   * buttons are rendered only when there is a neighbour in that direction.
   * Clicks and loads on the view while it fades out after closing are not
   * admitted.
   */
  predicate CanOccur(lb: Lightbox, ev: LightboxEvent, count: nat)
  {
    match ev
    case KeyDown(_) => true
    case ItemClick(i) => 0 <= i < count
    case CloseClick => Shown(lb, count)
    case ImageLoad => Shown(lb, count)
    case PrevClick => Shown(lb, count) && lb.expandedIndex.value > 0
    case NextClick => Shown(lb, count) && lb.expandedIndex.value < count - 1
  }

  /**
   * `handleKeyDown`: while closed every key is ignored; ArrowLeft and
   * ArrowRight move to a neighbour that exists and mark the image as not yet
   * loaded; Escape closes; any other key, and an arrow with no neighbour,
   * changes nothing.
   */
  function KeyTransition(lb: Lightbox, key: string, count: nat): (r: Lightbox)
    ensures lb.expandedIndex.None? ==> r == lb
    ensures lb.expandedIndex.Some? && key == "Escape" ==> r == Closed
    ensures key != "ArrowLeft" && key != "ArrowRight" && key != "Escape" ==> r == lb
    ensures lb.expandedIndex.Some? && key == "ArrowLeft" ==>
      r == (if lb.expandedIndex.value > 0 then Lightbox(Some(lb.expandedIndex.value - 1), false) else lb)
    ensures lb.expandedIndex.Some? && key == "ArrowRight" ==>
      r == (if lb.expandedIndex.value < count - 1 then Lightbox(Some(lb.expandedIndex.value + 1), false) else lb)
  {
    match lb.expandedIndex
    case None => lb
    case Some(i) =>
      if key == "ArrowLeft" && i > 0 then Lightbox(Some(i - 1), false)
      else if key == "ArrowRight" && i < count - 1 then Lightbox(Some(i + 1), false)
      else if key == "Escape" then Closed
      else lb
  }

  /** ArrowLeft on the first creation and ArrowRight on the last one are ignored. */
  lemma ArrowsStopAtEnds(loaded: bool, count: nat)
    requires count > 0
    ensures KeyTransition(Lightbox(Some(0), loaded), "ArrowLeft", count) == Lightbox(Some(0), loaded)
    ensures KeyTransition(Lightbox(Some(count - 1), loaded), "ArrowRight", count)
            == Lightbox(Some(count - 1), loaded)
  {
  }

  /**
   * ArrowLeft and ArrowRight undo each other: moving back from a creation
   * that has a previous one and then forward again (or the reverse) returns
   * to it, with the image waiting to load.
   */
  lemma ArrowsUndoEachOther(lb: Lightbox, count: nat)
    requires Shown(lb, count)
    ensures lb.expandedIndex.value > 0 ==>
      KeyTransition(KeyTransition(lb, "ArrowLeft", count), "ArrowRight", count) == lb.(imageLoaded := false)
    ensures lb.expandedIndex.value < count - 1 ==>
      KeyTransition(KeyTransition(lb, "ArrowRight", count), "ArrowLeft", count) == lb.(imageLoaded := false)
  {
  }

  /** The effect of one deliverable event on the lightbox. */
  function Step(lb: Lightbox, ev: LightboxEvent, count: nat): Lightbox
    requires CanOccur(lb, ev, count)
  {
    match ev
    case KeyDown(key) => KeyTransition(lb, key, count)
    case ItemClick(i) => Lightbox(Some(i), false)
    case CloseClick => Closed
    case PrevClick => Lightbox(Some(lb.expandedIndex.value - 1), false)
    case NextClick => Lightbox(Some(lb.expandedIndex.value + 1), false)
    case ImageLoad => lb.(imageLoaded := true)
  }

  /** The lightbox is closed and not loaded, or shows an existing creation. */
  predicate InRange(lb: Lightbox, count: nat)
  {
    (lb == Closed) || Shown(lb, count)
  }

  /**
   * Every deliverable event keeps an in-range lightbox in range; opening or
   * moving always starts with the image not loaded, and closing always
   * yields the closed state.
   */
  lemma {:induction false} StepStaysInRange(lb: Lightbox, ev: LightboxEvent, count: nat)
    requires InRange(lb, count) && CanOccur(lb, ev, count)
    ensures InRange(Step(lb, ev, count), count)
    ensures (ev.ItemClick? || ev.PrevClick? || ev.NextClick?) ==>
      Step(lb, ev, count) == Lightbox(Some(if ev.ItemClick? then ev.index
                                           else if ev.PrevClick? then lb.expandedIndex.value - 1
                                           else lb.expandedIndex.value + 1), false)
    ensures ev.CloseClick? ==> Step(lb, ev, count) == Closed
    ensures ev.ImageLoad? ==> Step(lb, ev, count).imageLoaded
  {
    match ev
    case KeyDown(key) =>
      var r := KeyTransition(lb, key, count);
      assert r == lb || r == Closed || Shown(r, count);
    case _ =>
  }

  /** A sequence of events each of which `CanOccur` admits when it comes. */
  ghost predicate Deliverable(lb: Lightbox, evs: seq<LightboxEvent>, count: nat)
    decreases |evs|
  {
    evs == [] || (CanOccur(lb, evs[0], count) && Deliverable(Step(lb, evs[0], count), evs[1..], count))
  }

  /** The lightbox after a sequence of deliverable events. */
  ghost function Run(lb: Lightbox, evs: seq<LightboxEvent>, count: nat): Lightbox
    requires Deliverable(lb, evs, count)
    decreases |evs|
  {
    if evs == [] then lb else Run(Step(lb, evs[0], count), evs[1..], count)
  }

  /** Whatever the user does, an index opened in range stays in range. */
  lemma {:induction false} RunStaysInRange(lb: Lightbox, evs: seq<LightboxEvent>, count: nat)
    requires InRange(lb, count) && Deliverable(lb, evs, count)
    ensures InRange(Run(lb, evs, count), count)
    decreases |evs|
  {
    if evs != [] {
      StepStaysInRange(lb, evs[0], count);
      RunStaysInRange(Step(lb, evs[0], count), evs[1..], count);
    }
  }

  /**
   * Opened on the first of five creations: no previous button, a next
   * button, and Escape closes the lightbox.
   */
  lemma OpenFirstOfFive()
    ensures var lb := Step(Closed, ItemClick(0), 5);
      && lb == Lightbox(Some(0), false)
      && !CanOccur(lb, PrevClick, 5) && CanOccur(lb, NextClick, 5)
      && Step(lb, KeyDown("Escape"), 5) == Closed
  {
  }

  /** The gallery's state cells and their handlers. */
  class CommunityPage {
    var creations: seq<Creation>
    var loading: bool
    var expandedIndex: Option<int>
    var isImageLoaded: bool

    /** A closed lightbox has no loaded image, and an open one has a non-negative index. */
    ghost predicate Valid()
      reads this
    {
      && (expandedIndex.None? ==> !isImageLoaded)
      && (expandedIndex.Some? ==> expandedIndex.value >= 0)
    }

    /** The lightbox cells as one value. */
    function State(): Lightbox
      reads this
    {
      Lightbox(expandedIndex, isImageLoaded)
    }

    /**
     * The creation the expanded view renders: present exactly when the index
     * addresses an existing creation, and otherwise nothing is rendered.
     */
    function ExpandedItem(): (r: Option<Creation>)
      reads this
      ensures r.Some? <==> Shown(State(), |creations|)
      ensures r.Some? ==> r.value == creations[expandedIndex.value]
    {
      if expandedIndex.Some? && 0 <= expandedIndex.value < |creations|
      then Some(creations[expandedIndex.value])
      else None
    }

    /** The state on mount: nothing fetched yet and the lightbox closed. */
    constructor ()
      ensures Valid() && creations == [] && loading && State() == Closed
    {
      creations, loading := [], true;
      expandedIndex, isImageLoaded := None, false;
    }

    /**
     * `fetchCreations` once its request settles: a successful reply replaces
     * the list; otherwise the list stays and a toast is raised. Loading is
     * over on every path and the lightbox cells are not touched.
     */
    method FetchCreations(reply: Reply<seq<Creation>>) returns (notice: Notice)
      requires Valid()
      modifies this
      ensures Valid() && !loading && State() == old(State())
      ensures creations == (if reply.Success? then reply.value else old(creations))
      ensures notice == ErrorNotice(reply)
    {
      loading := true;
      if reply.Success? {
        creations := reply.value;
        notice := Quiet;
      } else {
        notice := ErrorToast(reply.message);
      }
      loading := false;
    }

    /**
     * `imageLikeToggle(id)`: the list is updated before the request and the
     * update stays whatever the reply; a failed reply or an exception only
     * raises a toast.
     */
    method ImageLikeToggle(id: CreationId, user: UserId, reply: Reply<()>) returns (notice: Notice)
      requires Valid()
      modifies this`creations
      ensures Valid() && creations == ToggleLike(old(creations), id, user)
      ensures notice == ErrorNotice(reply)
    {
      creations := ToggleLike(creations, id, user);
      notice := ErrorNotice(reply);
    }

    /** `handleKeyDown(e)` for a key press anywhere in the window. */
    method HandleKeyDown(key: string)
      requires Valid()
      modifies this`expandedIndex, this`isImageLoaded
      ensures Valid() && State() == Step(old(State()), KeyDown(key), |creations|)
    {
      if expandedIndex.None? {
        return;
      }
      if key == "ArrowLeft" && expandedIndex.value > 0 {
        expandedIndex := Some(expandedIndex.value - 1);
        isImageLoaded := false;
      } else if key == "ArrowRight" && expandedIndex.value < |creations| - 1 {
        expandedIndex := Some(expandedIndex.value + 1);
        isImageLoaded := false;
      } else if key == "Escape" {
        expandedIndex := None;
        isImageLoaded := false;
      }
    }

    /** A click on a grid item, which is rendered once loading is over. */
    method OpenItem(index: int)
      requires Valid() && !loading && 0 <= index < |creations|
      modifies this`expandedIndex, this`isImageLoaded
      ensures Valid() && State() == Step(old(State()), ItemClick(index), |creations|)
    {
      expandedIndex := Some(index);
      isImageLoaded := false;
    }

    /** The close button of the expanded view. */
    method CloseExpanded()
      requires Valid() && Shown(State(), |creations|)
      modifies this`expandedIndex, this`isImageLoaded
      ensures Valid() && State() == Step(old(State()), CloseClick, |creations|)
    {
      expandedIndex := None;
      isImageLoaded := false;
    }

    /** The previous button, rendered only when the index is above 0. */
    method ShowPrevious()
      requires Valid() && CanOccur(State(), PrevClick, |creations|)
      modifies this`expandedIndex, this`isImageLoaded
      ensures Valid() && State() == Step(old(State()), PrevClick, |creations|)
    {
      expandedIndex := Some(expandedIndex.value - 1);
      isImageLoaded := false;
    }

    /** The next button, rendered only when a later creation exists. */
    method ShowNext()
      requires Valid() && CanOccur(State(), NextClick, |creations|)
      modifies this`expandedIndex, this`isImageLoaded
      ensures Valid() && State() == Step(old(State()), NextClick, |creations|)
    {
      expandedIndex := Some(expandedIndex.value + 1);
      isImageLoaded := false;
    }

    /** The expanded image's `onLoad`. */
    method ImageLoaded()
      requires Valid() && Shown(State(), |creations|)
      modifies this`isImageLoaded
      ensures Valid() && State() == Step(old(State()), ImageLoad, |creations|)
    {
      isImageLoaded := true;
    }
  }
}
