/** The browsing state: the thread list, grown page by page as the selection moves down it,
    the comment pages fetched for the selected thread, and the scroll position of the viewer.
    The two network calls are parameters: `getThreads` answers the thread list page of a
    given number, `getThread` the comment page of a given list entry. */
module Navigation {
  import opened Overview
  import opened Thread

  datatype FetchError = FetchError(reason: string)

  /** The answer of a network call. */
  datatype Fetch<T> = Fetched(value: T) | Failed(error: FetchError)

  /** The result of an action. */
  datatype Outcome = Ok | Err(error: FetchError)

  datatype Action = NextThread | PrevThread | NextComment | PrevComment | ScrollDown | ScrollUp | Quit | Nothing

  /** The thread list pages `lo + 1` to `hi`, concatenated in order (a failed page adds nothing). */
  function PagesAfter(getThreads: nat -> Fetch<seq<ThreadOverview>>, lo: nat, hi: nat): seq<ThreadOverview>
    decreases hi
  {
    if hi <= lo then []
    else PagesAfter(getThreads, lo, hi - 1) + (match getThreads(hi) case Fetched(p) => p case Failed(_) => [])
  }

  /** Every thread list page that arrives holds at least one entry; the coverage loop relies on it to end. */
  ghost predicate NonEmptyPages(getThreads: nat -> Fetch<seq<ThreadOverview>>) {
    forall p: nat :: getThreads(p).Fetched? ==> getThreads(p).value != []
  }

  /** Every page that arrives adds at least one entry, so `hi - lo` fetched pages add at least `hi - lo` entries. */
  lemma {:induction false} PagesAfterGrows(getThreads: nat -> Fetch<seq<ThreadOverview>>, lo: nat, hi: nat)
    requires NonEmptyPages(getThreads)
    requires forall p :: lo < p <= hi ==> getThreads(p).Fetched?
    ensures |PagesAfter(getThreads, lo, hi)| >= hi - lo
    decreases hi
  {
    if hi > lo {
      PagesAfterGrows(getThreads, lo, hi - 1);
    }
  }

  function Copies<T>(t: T, n: nat): (s: seq<T>)
    ensures |s| == n && forall i :: 0 <= i < n ==> s[i] == t
  {
    seq(n, _ => t)
  }

  function Max(a: nat, b: nat): nat {
    if a <= b then b else a
  }

  /** The fetched comment pages, their selection and their page counter. */
  class ThreadsModel {
    var data: seq<ThreadData>
    var selected: nat
    var page: nat

    constructor ()
      ensures data == [] && selected == 0 && page == 0
    {
      data, selected, page := [], 0, 0;
    }
  }

  class Model {
    var overview: seq<ThreadOverview>
    var selected: nat
    var page: nat
    const data: ThreadsModel
    var viewerScroll: nat

    /** Both selections point into the collections they select from. */
    ghost predicate Valid()
      reads this, data
    {
      selected < |overview| && data.selected < |data.data|
    }

    /** What the comment coverage loop leaves behind, starting from the list `before` and the
        counter `pageBefore`: nothing is fetched when the selection is already covered; otherwise
        the selected thread is fetched and appended, one counter step per fetch, exactly until the
        selection is covered, or the first failed fetch stops it with the list as it was. */
    ghost predicate CommentsCoveredFrom(getThread: ThreadOverview -> Fetch<ThreadData>,
                                        before: seq<ThreadData>, pageBefore: nat, r: Outcome)
      reads this, data
    {
      if data.selected < |before| then
        data.data == before && data.page == pageBefore && r == Ok
      else
        selected < |overview| &&
        match getThread(overview[selected])
        case Fetched(t) =>
          var n := data.selected + 1 - |before|;
          data.data == before + Copies(t, n) && data.page == pageBefore + n && r == Ok
        case Failed(e) =>
          data.data == before && data.page == pageBefore + 1 && r == Err(e)
    }

    /** Model::new: the first thread list page, and the first thread's comments. */
    constructor (getThreads: nat -> Fetch<seq<ThreadOverview>>, getThread: ThreadOverview -> Fetch<ThreadData>)
      requires getThreads(1).Fetched? && getThreads(1).value != []
      requires getThread(getThreads(1).value[0]).Fetched?
      ensures Valid() && fresh(data)
      ensures overview == getThreads(1).value && selected == 0 && page == 1 && viewerScroll == 0
      ensures data.data == [getThread(overview[0]).value] && data.selected == 0 && data.page == 1
    {
      var first := getThreads(1).value;
      var d := new ThreadsModel();
      d.page := 1;
      d.data := d.data + [getThread(first[0]).value];
      overview, selected, page, data, viewerScroll := first, 0, 1, d, 0;
    }

    /** Fetches comment pages of the selected thread until `data.selected` is covered. */
    method CoverSelectedComment(getThread: ThreadOverview -> Fetch<ThreadData>) returns (r: Outcome)
      requires data.selected >= |data.data| ==> selected < |overview|
      modifies data`data, data`page
      ensures CommentsCoveredFrom(getThread, old(data.data), old(data.page), r)
      ensures old(data.data) <= data.data && old(data.page) <= data.page
      ensures r.Ok? ==> data.selected < |data.data|
    {
      ghost var before, pageBefore := data.data, data.page;
      r := Ok;
      while data.selected >= |data.data|
        invariant before <= data.data && |data.data| <= Max(|before|, data.selected + 1)
        invariant data.page == pageBefore + (|data.data| - |before|)
        invariant |data.data| > |before| ==>
                    selected < |overview| && getThread(overview[selected]).Fetched? &&
                    data.data == before + Copies(getThread(overview[selected]).value, |data.data| - |before|)
        decreases data.selected - |data.data|
      {
        data.page := data.page + 1;
        var t := getThread(overview[selected]);
        if t.Failed? {
          return Err(t.error);
        }
        data.data := data.data + [t.value];
        assert Copies(t.value, |data.data| - |before|) == Copies(t.value, |data.data| - 1 - |before|) + [t.value];
      }
    }

    /** next_thread: move the selection one thread down, fetching thread list pages until it is
        covered, then select the first comment and make sure it is covered. */
    method NextThread(getThreads: nat -> Fetch<seq<ThreadOverview>>, getThread: ThreadOverview -> Fetch<ThreadData>)
      returns (r: Outcome)
      requires NonEmptyPages(getThreads)
      modifies this, data
      ensures selected == old(selected) + 1
      // the thread list only grows, by the pages fetched, one counter step per page
      ensures old(page) <= page
      ensures overview == old(overview) + PagesAfter(getThreads, old(page), page)
      ensures forall p :: old(page) < p < page ==> getThreads(p).Fetched?
      // no page is fetched once the selection is covered
      ensures old(selected) + 1 < |old(overview)| ==> page == old(page)
      ensures page > old(page) ==> |old(overview) + PagesAfter(getThreads, old(page), page - 1)| <= selected
      ensures page > old(page) ==> page - old(page) <= selected + 1 - |old(overview)|
      ensures old(data.data) <= data.data && old(data.page) <= data.page
      // a failed thread list page ends the action before anything else changes
      ensures selected >= |overview| ==>
                page > old(page) && getThreads(page).Failed? && r == Err(getThreads(page).error) &&
                viewerScroll == old(viewerScroll) && data.selected == old(data.selected) &&
                data.data == old(data.data) && data.page == old(data.page)
      ensures selected < |overview| ==>
                viewerScroll == 0 && data.selected == 0 &&
                CommentsCoveredFrom(getThread, old(data.data), old(data.page), r)
      ensures r.Ok? ==> Valid()
    {
      selected := selected + 1;
      while selected >= |overview|
        invariant selected == old(selected) + 1
        invariant old(page) <= page
        invariant overview == old(overview) + PagesAfter(getThreads, old(page), page)
        invariant forall p :: old(page) < p <= page ==> getThreads(p).Fetched?
        invariant page > old(page) ==> |old(overview) + PagesAfter(getThreads, old(page), page - 1)| <= selected
        invariant page > old(page) ==> page - old(page) <= selected + 1 - |old(overview)|
        invariant viewerScroll == old(viewerScroll)
        invariant data.selected == old(data.selected) && data.data == old(data.data) && data.page == old(data.page)
        decreases selected - |overview|
      {
        PagesAfterGrows(getThreads, old(page), page);
        page := page + 1;
        var fetched := getThreads(page);
        if fetched.Failed? {
          return Err(fetched.error);
        }
        overview := overview + fetched.value;
      }
      viewerScroll := 0;
      data.selected := 0;
      r := CoverSelectedComment(getThread);
    }

    /** prev_thread: move the selection one thread up, unless it is at the top. */
    method PrevThread()
      modifies this`selected, this`viewerScroll, data`selected
      ensures old(selected) == 0 ==>
                selected == 0 && viewerScroll == old(viewerScroll) && data.selected == old(data.selected)
      ensures old(selected) > 0 ==>
                selected == old(selected) - 1 && viewerScroll == 0 && data.selected == 0
      ensures old(Valid()) ==> Valid()
    {
      if selected == 0 {
        return;
      }
      selected := selected - 1;
      viewerScroll := 0;
      data.selected := 0;
    }

    /** next_comment: move the comment selection one down, fetching until it is covered. */
    method NextComment(getThread: ThreadOverview -> Fetch<ThreadData>) returns (r: Outcome)
      requires data.selected + 1 >= |data.data| ==> selected < |overview|
      modifies this`viewerScroll, data
      ensures data.selected == old(data.selected) + 1 && viewerScroll == 0
      ensures CommentsCoveredFrom(getThread, old(data.data), old(data.page), r)
      ensures old(data.data) <= data.data && old(data.page) <= data.page
      ensures r.Ok? ==> data.selected < |data.data|
      ensures old(Valid()) && r.Ok? ==> Valid()
    {
      data.selected := data.selected + 1;
      viewerScroll := 0;
      r := CoverSelectedComment(getThread);
    }

    /** prev_comment: move the comment selection one up, unless it is at the top. */
    method PrevComment()
      modifies this`viewerScroll, data`selected
      ensures old(data.selected) == 0 ==> data.selected == 0 && viewerScroll == old(viewerScroll)
      ensures old(data.selected) > 0 ==> data.selected == old(data.selected) - 1 && viewerScroll == 0
      ensures old(Valid()) ==> Valid()
    {
      if data.selected == 0 {
        return;
      }
      data.selected := data.selected - 1;
      viewerScroll := 0;
    }

    /** scroll_down: scroll the comment viewer one line down. */
    method ScrollDown()
      modifies this`viewerScroll
      ensures viewerScroll == old(viewerScroll) + 1
    {
      viewerScroll := viewerScroll + 1;
    }

    /** scroll_up: scroll the comment viewer one line up, stopping at the top. */
    method ScrollUp()
      modifies this`viewerScroll
      ensures old(viewerScroll) == 0 ==> viewerScroll == 0
      ensures old(viewerScroll) > 0 ==> viewerScroll == old(viewerScroll) - 1
    {
      if viewerScroll > 0 {
        viewerScroll := viewerScroll - 1;
      }
    }
  }

  /** update: apply one action to the model. Quit panics in the source and is excluded. */
  method Update(model: Model, action: Action,
                getThreads: nat -> Fetch<seq<ThreadOverview>>, getThread: ThreadOverview -> Fetch<ThreadData>)
    returns (r: Outcome)
    requires action != Quit
    requires action == NextThread ==> NonEmptyPages(getThreads)
    requires action == NextComment ==> (model.data.selected + 1 >= |model.data.data| ==> model.selected < |model.overview|)
    modifies model, model.data
    // each action has the effect of its own operation
    ensures action == NextThread ==>
              model.selected == old(model.selected) + 1 &&
              model.overview == old(model.overview) + PagesAfter(getThreads, old(model.page), model.page) &&
              (forall p :: old(model.page) < p < model.page ==> getThreads(p).Fetched?) &&
              (old(model.selected) + 1 < |old(model.overview)| ==> model.page == old(model.page)) &&
              (model.page > old(model.page) ==>
                 |old(model.overview) + PagesAfter(getThreads, old(model.page), model.page - 1)| <= model.selected) &&
              (model.selected >= |model.overview| ==>
                 model.page > old(model.page) && getThreads(model.page).Failed? &&
                 r == Err(getThreads(model.page).error) &&
                 model.viewerScroll == old(model.viewerScroll) && model.data.selected == old(model.data.selected) &&
                 model.data.data == old(model.data.data) && model.data.page == old(model.data.page)) &&
              (model.selected < |model.overview| ==>
                 model.viewerScroll == 0 && model.data.selected == 0 &&
                 model.CommentsCoveredFrom(getThread, old(model.data.data), old(model.data.page), r))
    ensures action == PrevThread ==>
              model.overview == old(model.overview) && model.page == old(model.page) &&
              model.data.data == old(model.data.data) && model.data.page == old(model.data.page) &&
              if old(model.selected) == 0 then unchanged(model, model.data)
              else model.selected == old(model.selected) - 1 && model.viewerScroll == 0 && model.data.selected == 0
    ensures action == NextComment ==>
              model.data.selected == old(model.data.selected) + 1 && model.viewerScroll == 0 &&
              model.selected == old(model.selected) && model.overview == old(model.overview) &&
              model.page == old(model.page) &&
              model.CommentsCoveredFrom(getThread, old(model.data.data), old(model.data.page), r)
    ensures action == PrevComment ==>
              if old(model.data.selected) == 0 then unchanged(model, model.data)
              else model.data.selected == old(model.data.selected) - 1 && model.viewerScroll == 0 &&
                   model.selected == old(model.selected) && model.overview == old(model.overview) &&
                   model.page == old(model.page) && model.data.data == old(model.data.data) &&
                   model.data.page == old(model.data.page)
    ensures action == ScrollDown ==>
              model.viewerScroll == old(model.viewerScroll) + 1 && unchanged(model.data) &&
              model.selected == old(model.selected) && model.overview == old(model.overview) &&
              model.page == old(model.page)
    ensures action == ScrollUp ==>
              model.viewerScroll == (if old(model.viewerScroll) == 0 then 0 else old(model.viewerScroll) - 1) &&
              unchanged(model.data) && model.selected == old(model.selected) &&
              model.overview == old(model.overview) && model.page == old(model.page)
    ensures action == Nothing ==> unchanged(model, model.data)
    ensures action != NextThread && action != NextComment ==> r == Ok
    // the collections only grow and the page counters never go back
    ensures old(model.overview) <= model.overview && old(model.page) <= model.page
    ensures old(model.data.data) <= model.data.data && old(model.data.page) <= model.data.page
    ensures old(model.Valid()) && r.Ok? ==> model.Valid()
  {
    match action
    case NextThread =>
      r := model.NextThread(getThreads, getThread);
    case PrevThread =>
      model.PrevThread();
      r := Ok;
    case NextComment =>
      r := model.NextComment(getThread);
    case PrevComment =>
      model.PrevComment();
      r := Ok;
    case ScrollDown =>
      model.ScrollDown();
      r := Ok;
    case ScrollUp =>
      model.ScrollUp();
      r := Ok;
    case Nothing =>
      r := Ok;
  }
}
