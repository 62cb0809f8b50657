/** Generation-guarded paging of a timeline (TimelineControl.tsx): the code between awaits, as atomic steps. */
module TimelineControl {

  datatype Post = Post(id: nat, timeMillis: int)

  type Key = nat

  datatype Kind = Initial | More

  /** A call of get_more: when and for which timeline it was issued, and whether it is still awaited. */
  datatype Request = Request(generation: nat, kind: Kind, key: Key, effectKey: Key, inFlight: bool)

  /** A page on the screen and the request it answers. */
  datatype Page = Page(request: nat, posts: seq<Post>)

  /** An awaited reset, with the generation its effect started. */
  datatype Reset = Reset(generation: nat, inFlight: bool)

  datatype State = State(
    generation: nat, loading: bool, moreAvailable: bool, pages: seq<Page>,
    rendered: Key, effectKey: Key, resets: seq<Reset>, requests: seq<Request>)

  const START := State(0, false, true, [], 0, 0, [], [])

  datatype Event =
    | Render(key: Key)                              // the latest get_more and reset enter their refs
    | Effect                                        // the timeline_key effect runs
    | ResetDone(reset: nat) | ResetFailed(reset: nat)
    | FetchMore | EndReached
    | Response(request: nat, posts: seq<Post>) | Failure(request: nat)

  // ---------------------------------------------------------------------------------------------
  // Sorting a page, newest first (a stable sort)

  function InsertByTime(p: Post, sorted: seq<Post>): seq<Post> {
    if sorted == [] || sorted[0].timeMillis < p.timeMillis then [p] + sorted
    else [sorted[0]] + InsertByTime(p, sorted[1..])
  }

  function NewestFirst(posts: seq<Post>): seq<Post> {
    if posts == [] then [] else InsertByTime(posts[|posts| - 1], NewestFirst(posts[..|posts| - 1]))
  }

  ghost predicate Descending(posts: seq<Post>) {
    forall i, j :: 0 <= i < j < |posts| ==> posts[i].timeMillis >= posts[j].timeMillis
  }

  lemma {:induction false} InsertAdds(p: Post, sorted: seq<Post>)
    ensures multiset(InsertByTime(p, sorted)) == multiset(sorted) + multiset{p}
  {
    if sorted != [] && sorted[0].timeMillis >= p.timeMillis {
      InsertAdds(p, sorted[1..]);
      assert sorted == [sorted[0]] + sorted[1..];
    }
  }

  predicate NoneNewer(posts: seq<Post>, timeMillis: int) {
    forall i :: 0 <= i < |posts| ==> posts[i].timeMillis <= timeMillis
  }

  lemma {:induction false} InsertIsBounded(p: Post, sorted: seq<Post>, timeMillis: int)
    requires NoneNewer(sorted, timeMillis) && p.timeMillis <= timeMillis
    ensures NoneNewer(InsertByTime(p, sorted), timeMillis)
  {
    if sorted != [] && sorted[0].timeMillis >= p.timeMillis {
      InsertIsBounded(p, sorted[1..], timeMillis);
    }
  }

  lemma NewestInFront(p: Post, rest: seq<Post>)
    requires Descending(rest) && NoneNewer(rest, p.timeMillis)
    ensures Descending([p] + rest)
  {
  }

  lemma {:induction false} InsertKeepsOrder(p: Post, sorted: seq<Post>)
    requires Descending(sorted)
    ensures Descending(InsertByTime(p, sorted))
  {
    if sorted != [] && sorted[0].timeMillis >= p.timeMillis {
      var rest := InsertByTime(p, sorted[1..]);
      assert InsertByTime(p, sorted) == [sorted[0]] + rest;
      InsertKeepsOrder(p, sorted[1..]);
      InsertIsBounded(p, sorted[1..], sorted[0].timeMillis);
      hide InsertByTime, Descending, NoneNewer;
      NewestInFront(sorted[0], rest);
    } else {
      NewestInFront(p, sorted);
    }
  }

  lemma {:induction false} PageIsSorted(posts: seq<Post>)
    ensures Descending(NewestFirst(posts)) && multiset(NewestFirst(posts)) == multiset(posts)
  {
    if posts != [] {
      var n := |posts| - 1;
      PageIsSorted(posts[..n]);
      InsertKeepsOrder(posts[n], NewestFirst(posts[..n]));
      InsertAdds(posts[n], NewestFirst(posts[..n]));
      assert posts == posts[..n] + [posts[n]];
    }
  }

  /** The posts of one instant, in their order. */
  function At(posts: seq<Post>, timeMillis: int): seq<Post> {
    if posts == [] then []
    else if posts[0].timeMillis == timeMillis then [posts[0]] + At(posts[1..], timeMillis)
    else At(posts[1..], timeMillis)
  }

  lemma {:induction false} AtPush(posts: seq<Post>, p: Post, timeMillis: int)
    ensures At(posts + [p], timeMillis) == if p.timeMillis == timeMillis then At(posts, timeMillis) + [p] else At(posts, timeMillis)
  {
    if posts != [] {
      AtPush(posts[1..], p, timeMillis);
      assert (posts + [p])[1..] == posts[1..] + [p];
    }
  }

  lemma {:induction false} NoneAt(posts: seq<Post>, timeMillis: int)
    requires forall i :: 0 <= i < |posts| ==> posts[i].timeMillis < timeMillis
    ensures At(posts, timeMillis) == []
  {
    if posts != [] {
      NoneAt(posts[1..], timeMillis);
    }
  }

  lemma {:induction false} InsertIsLast(p: Post, sorted: seq<Post>, timeMillis: int)
    requires Descending(sorted)
    ensures At(InsertByTime(p, sorted), timeMillis)
         == if p.timeMillis == timeMillis then At(sorted, timeMillis) + [p] else At(sorted, timeMillis)
  {
    if sorted == [] || sorted[0].timeMillis < p.timeMillis {
      assert ([p] + sorted)[1..] == sorted;
      if p.timeMillis == timeMillis {
        NoneAt(sorted, timeMillis);
      }
    } else {
      InsertIsLast(p, sorted[1..], timeMillis);
      assert InsertByTime(p, sorted)[1..] == InsertByTime(p, sorted[1..]);
    }
  }

  /** The sort is stable: posts of the same instant keep their order. */
  lemma {:induction false} PageKeepsTies(posts: seq<Post>, timeMillis: int)
    ensures At(NewestFirst(posts), timeMillis) == At(posts, timeMillis)
  {
    if posts != [] {
      var n := |posts| - 1;
      PageKeepsTies(posts[..n], timeMillis);
      PageIsSorted(posts[..n]);
      InsertIsLast(posts[n], NewestFirst(posts[..n]), timeMillis);
      AtPush(posts[..n], posts[n], timeMillis);
      assert posts == posts[..n] + [posts[n]];
    }
  }

  // ---------------------------------------------------------------------------------------------
  // The steps

  function Issue(s: State, kind: Kind): State {
    s.(loading := true,
       requests := s.requests + [Request(s.generation, kind, s.rendered, s.effectKey, true)])
  }

  function Settle(s: State, r: nat): State
    requires r < |s.requests|
  {
    s.(requests := s.requests[r := s.requests[r].(inFlight := false)])
  }

  function Step(s: State, e: Event): State {
    match e
    case Render(key) => s.(rendered := key)
    case Effect =>
      s.(generation := s.generation + 1, pages := [], loading := false, moreAvailable := true,
         effectKey := s.rendered, resets := s.resets + [Reset(s.generation + 1, true)])
    case ResetDone(i) =>
      if i >= |s.resets| || !s.resets[i].inFlight then s
      else
        var t := s.(resets := s.resets[i := s.resets[i].(inFlight := false)]);
        if s.resets[i].generation != s.generation then t else Issue(t, Initial)
    case ResetFailed(i) =>
      if i >= |s.resets| || !s.resets[i].inFlight then s
      else s.(resets := s.resets[i := s.resets[i].(inFlight := false)])
    case FetchMore => if s.loading then s else Issue(s, More)
    case EndReached => if !s.moreAvailable || s.loading then s else Issue(s, More)
    case Response(r, posts) =>
      if r >= |s.requests| || !s.requests[r].inFlight then s
      else
        var t := Settle(s, r);
        if s.requests[r].generation != s.generation then t
        else
          var page := Page(r, NewestFirst(posts));
          t.(moreAvailable := posts != [], loading := false,
             pages := if s.requests[r].kind == Initial then [page] else s.pages + [page])
    case Failure(r) =>
      if r >= |s.requests| || !s.requests[r].inFlight then s
      else if s.requests[r].generation != s.generation then Settle(s, r)
      else Settle(s, r).(loading := false)
  }

  function Run(events: seq<Event>): State {
    if events == [] then START else Step(Run(events[..|events| - 1]), events[|events| - 1])
  }

  // ---------------------------------------------------------------------------------------------
  // The component: its refs and state, with the awaited calls recorded beside them

  class Timeline {
    var generation: nat
    var loading: bool
    var moreAvailable: bool
    var pages: seq<Page>
    var rendered: Key
    var effectKey: Key
    var resets: seq<Reset>
    var requests: seq<Request>

    function Abstract(): State
      reads this
    {
      State(generation, loading, moreAvailable, pages, rendered, effectKey, resets, requests)
    }

    constructor ()
      ensures Abstract() == START
    {
      generation, loading, moreAvailable, pages := 0, false, true, [];
      rendered, effectKey, resets, requests := 0, 0, [], [];
    }

    method OnRender(key: Key)
      modifies this
      ensures Abstract() == Step(old(Abstract()), Render(key))
    {
      rendered := key;
    }

    method OnEffect()
      modifies this
      ensures Abstract() == Step(old(Abstract()), Effect)
    {
      generation := generation + 1;
      pages := [];
      loading := false;
      moreAvailable := true;
      effectKey := rendered;
      resets := resets + [Reset(generation, true)];
    }

    method GetMore(kind: Kind)
      modifies this
      ensures Abstract() == Issue(old(Abstract()), kind)
    {
      loading := true;
      requests := requests + [Request(generation, kind, rendered, effectKey, true)];
    }

    method AfterReset(i: nat)
      requires i < |resets| && resets[i].inFlight
      modifies this
      ensures Abstract() == Step(old(Abstract()), ResetDone(i))
    {
      var current := resets[i].generation;
      resets := resets[i := resets[i].(inFlight := false)];
      if generation != current {
        return;
      }
      GetMore(Initial);
    }

    method FetchMorePosts()
      modifies this
      ensures Abstract() == Step(old(Abstract()), FetchMore)
    {
      if loading {
        return;
      }
      GetMore(More);
    }

    method OnEndReached()
      modifies this
      ensures Abstract() == Step(old(Abstract()), EndReached)
    {
      if !moreAvailable {
        return;
      }
      FetchMorePosts();
    }

    /** After get_more resolves: show the page if the generation still matches, then the finally block. */
    method AfterResponse(r: nat, posts: seq<Post>)
      requires r < |requests| && requests[r].inFlight
      modifies this
      ensures Abstract() == Step(old(Abstract()), Response(r, posts))
    {
      var request := requests[r];
      requests := requests[r := request.(inFlight := false)];
      if generation == request.generation {
        moreAvailable := |posts| > 0;
        var page := Page(r, NewestFirst(posts));
        pages := if request.kind == Initial then [page] else pages + [page];
      }
      Finally(request.generation);
    }

    /** After get_more rejects: only the finally block. */
    method AfterFailure(r: nat)
      requires r < |requests| && requests[r].inFlight
      modifies this
      ensures Abstract() == Step(old(Abstract()), Failure(r))
    {
      var request := requests[r];
      requests := requests[r := request.(inFlight := false)];
      Finally(request.generation);
    }

    method Finally(current: nat)
      modifies this
      ensures Abstract() == if generation == current then old(Abstract()).(loading := false) else old(Abstract())
    {
      if generation == current {
        loading := false;
      }
    }
  }

  // ---------------------------------------------------------------------------------------------
  // What every run keeps

  /** Visible pages answer settled requests of the current generation, each request at most once. */
  ghost predicate PagesAreCurrent(s: State) {
    && (forall i :: 0 <= i < |s.pages| ==>
          && s.pages[i].request < |s.requests|
          && s.requests[s.pages[i].request].generation == s.generation
          && !s.requests[s.pages[i].request].inFlight)
    && (forall i, j :: 0 <= i < j < |s.pages| ==> s.pages[i].request != s.pages[j].request)
  }

  /** While loading, the request issued last is of this generation and still awaited. */
  ghost predicate LoadingIsAwaited(s: State) {
    s.loading ==> s.requests != [] && s.requests[|s.requests| - 1].inFlight
                  && s.requests[|s.requests| - 1].generation == s.generation
  }

  /** Requests of this generation were issued under this generation's effect. */
  ghost predicate RequestsAreRecorded(s: State) {
    && (forall r :: 0 <= r < |s.requests| ==> s.requests[r].generation <= s.generation)
    && (forall i :: 0 <= i < |s.resets| ==> s.resets[i].generation <= s.generation)
    && (forall r :: 0 <= r < |s.requests| && s.requests[r].generation == s.generation ==>
          s.requests[r].effectKey == s.effectKey)
  }

  ghost predicate Inv(s: State) {
    PagesAreCurrent(s) && LoadingIsAwaited(s) && RequestsAreRecorded(s)
  }

  lemma StepKeepsPages(s: State, e: Event)
    requires PagesAreCurrent(s)
    ensures PagesAreCurrent(Step(s, e))
  {
    hide NewestFirst;
    if e.Response? && e.request < |s.requests| && s.requests[e.request].inFlight {
      assert forall i :: 0 <= i < |s.pages| ==> s.pages[i].request != e.request;
    }
  }

  lemma StepKeepsLoading(s: State, e: Event)
    requires LoadingIsAwaited(s)
    ensures LoadingIsAwaited(Step(s, e))
  {
    hide NewestFirst;
  }

  lemma StepKeepsRecords(s: State, e: Event)
    requires RequestsAreRecorded(s)
    ensures RequestsAreRecorded(Step(s, e))
  {
    hide NewestFirst;
  }

  lemma StepKeepsInv(s: State, e: Event)
    requires Inv(s)
    ensures Inv(Step(s, e))
  {
    hide Step;
    StepKeepsPages(s, e);
    StepKeepsLoading(s, e);
    StepKeepsRecords(s, e);
  }

  lemma {:induction false} RunKeepsInv(events: seq<Event>)
    ensures Inv(Run(events))
  {
    if events != [] {
      RunKeepsInv(events[..|events| - 1]);
      StepKeepsInv(Run(events[..|events| - 1]), events[|events| - 1]);
    }
  }

  /** In every run: only this generation's pages, each once; and loading ends when the requests settle. */
  lemma PagingIsSafe(events: seq<Event>)
    ensures var s := Run(events);
            && (forall i :: 0 <= i < |s.pages| ==>
                  s.pages[i].request < |s.requests| && s.requests[s.pages[i].request].generation == s.generation)
            && (forall i, j :: 0 <= i < j < |s.pages| ==> s.pages[i].request != s.pages[j].request)
            && (s.loading ==> exists r :: 0 <= r < |s.requests| && s.requests[r].inFlight
                                          && s.requests[r].generation == s.generation)
            && ((forall r :: 0 <= r < |s.requests| ==> !s.requests[r].inFlight) ==> !s.loading)
  {
    RunKeepsInv(events);
  }

  // ---------------------------------------------------------------------------------------------
  // When a request goes out, and what a response puts on the screen

  predicate SettlesCurrent(s: State, r: nat) {
    r < |s.requests| && s.requests[r].inFlight && s.requests[r].generation == s.generation
  }

  /** The event starts a generation or settles a request of the current one. */
  predicate EndsWait(s: State, e: Event) {
    match e
    case Effect => true
    case Response(r, _) => SettlesCurrent(s, r)
    case Failure(r) => SettlesCurrent(s, r)
    case _ => false
  }

  predicate EndsWaiting(events: seq<Event>, n: nat) {
    n < |events| && EndsWait(Run(events[..n]), events[n])
  }

  /** Step n of the run issues request r. */
  predicate Issues(events: seq<Event>, n: nat, r: nat) {
    n < |events| && |Run(events[..n]).requests| <= r < |Run(events[..n + 1]).requests|
  }

  predicate SendsRequest(events: seq<Event>, n: nat) {
    n < |events| && |Run(events[..n]).requests| < |Run(events[..n + 1]).requests|
  }

  /** A request went out, and nothing has ended the wait for it since. */
  ghost predicate Waiting(events: seq<Event>) {
    exists n: nat :: SendsRequest(events, n) && forall k: nat :: n < k ==> !EndsWaiting(events, k)
  }

  /** The last page received is on the screen and holds nothing. */
  predicate LastPageIsEmpty(s: State) {
    s.pages != [] && s.pages[|s.pages| - 1].posts == []
  }

  lemma {:induction false} RunPush(events: seq<Event>, e: Event)
    ensures Run(events + [e]) == Step(Run(events), e)
    ensures forall n: nat :: n < |events| ==> (SendsRequest(events + [e], n) <==> SendsRequest(events, n))
    ensures forall n: nat :: n < |events| ==> (EndsWaiting(events + [e], n) <==> EndsWaiting(events, n))
    ensures SendsRequest(events + [e], |events|) <==> |Run(events).requests| < |Step(Run(events), e).requests|
    ensures EndsWaiting(events + [e], |events|) <==> EndsWait(Run(events), e)
  {
    var all := events + [e];
    assert all[..|events|] == events && all[..|all|] == all;
    forall n: nat | n < |events|
      ensures (SendsRequest(all, n) <==> SendsRequest(events, n)) && (EndsWaiting(all, n) <==> EndsWaiting(events, n))
    {
      assert all[..n] == events[..n] && all[..n + 1] == events[..n + 1];
    }
  }

  lemma WaitingPush(events: seq<Event>, e: Event)
    ensures Waiting(events + [e]) <==>
              |Run(events).requests| < |Step(Run(events), e).requests| || (Waiting(events) && !EndsWait(Run(events), e))
  {
    RunPush(events, e);
    var all := events + [e];
    hide Run, Step, EndsWait;
    if SendsRequest(all, |events|) {
      assert forall k: nat :: |events| < k ==> !EndsWaiting(all, k);
    } else if Waiting(events) && !EndsWaiting(all, |events|) {
      var n: nat :| SendsRequest(events, n) && forall k: nat :: n < k ==> !EndsWaiting(events, k);
      assert forall k: nat :: n < k ==> !EndsWaiting(all, k);
      assert SendsRequest(all, n);
    }
  }

  lemma PageIsEmpty(posts: seq<Post>)
    ensures NewestFirst(posts) == [] <==> posts == []
  {
  }

  lemma LoadingStep(s: State, e: Event)
    ensures Step(s, e).loading <==> |s.requests| < |Step(s, e).requests| || (s.loading && !EndsWait(s, e))
  {
    hide NewestFirst;
  }

  lemma MoreStep(s: State, e: Event)
    requires s.moreAvailable <==> !LastPageIsEmpty(s)
    ensures Step(s, e).moreAvailable <==> !LastPageIsEmpty(Step(s, e))
  {
    if e.Response? {
      PageIsEmpty(e.posts);
    }
    hide NewestFirst;
  }

  /** The two flags, read off the history. */
  lemma {:induction false} FlagsAreHistory(events: seq<Event>)
    ensures Run(events).loading <==> Waiting(events)
    ensures Run(events).moreAvailable <==> !LastPageIsEmpty(Run(events))
  {
    if events != [] {
      var (before, e) := (events[..|events| - 1], events[|events| - 1]);
      assert events == before + [e];
      FlagsAreHistory(before);
      LoadingStep(Run(before), e);
      MoreStep(Run(before), e);
      WaitingPush(before, e);
      RunPush(before, e);
    }
  }

  /** How many requests the next event sends: at most one, and exactly when. */
  lemma {:induction false} RequestsGoOutExactly(events: seq<Event>, e: Event)
    ensures var s := Run(events);
            |Run(events + [e]).requests| == |s.requests| +
              match e
              case FetchMore => if Waiting(events) then 0 else 1
              case EndReached => if Waiting(events) || LastPageIsEmpty(s) then 0 else 1
              case ResetDone(i) =>
                if i < |s.resets| && s.resets[i].inFlight && s.resets[i].generation == s.generation then 1 else 0
              case _ => 0
  {
    FlagsAreHistory(events);
    RunPush(events, e);
    hide Run, Waiting, LastPageIsEmpty, NewestFirst;
  }

  /** After a page the end of the list asks for the next one if and only if the page held something. */
  lemma PagingGoesOn(events: seq<Event>, r: nat, posts: seq<Post>)
    requires SettlesCurrent(Run(events), r)
    ensures var answered := events + [Response(r, posts)];
            |Run(answered + [EndReached]).requests| == |Run(answered).requests| + if posts != [] then 1 else 0
  {
    var answered := events + [Response(r, posts)];
    RunPush(events, Response(r, posts));
    WaitingPush(events, Response(r, posts));
    RequestsGoOutExactly(answered, EndReached);
    PageIsEmpty(posts);
    hide Run, Waiting, NewestFirst;
  }

  /**
   * A new generation can always fetch: right after its effect, reaching the end sends a request, and so does the end
   * of its own reset, but of no earlier one.
   */
  lemma {:induction false} EffectAllowsFetching(events: seq<Event>)
    ensures var (started, n) := (events + [Effect], |Run(events).resets|);
            && |Run(started + [EndReached]).requests| == |Run(started).requests| + 1
            && |Run(started + [ResetDone(n)]).requests| == |Run(started).requests| + 1
            && forall i :: 0 <= i < n ==> |Run(started + [ResetDone(i)]).requests| == |Run(started).requests|
  {
    var (started, n) := (events + [Effect], |Run(events).resets|);
    RunKeepsInv(events);
    RunPush(events, Effect);
    WaitingPush(events, Effect);
    RequestsGoOutExactly(started, EndReached);
    RequestsGoOutExactly(started, ResetDone(n));
    hide Run, Waiting, PagesAreCurrent, LoadingIsAwaited;
    forall i | 0 <= i < n ensures |Run(started + [ResetDone(i)]).requests| == |Run(started).requests| {
      RequestsGoOutExactly(started, ResetDone(i));
    }
  }

  /** All posts on the screen, top to bottom. */
  function Screen(pages: seq<Page>): seq<Post> {
    if pages == [] then [] else Screen(pages[..|pages| - 1]) + pages[|pages| - 1].posts
  }

  /**
   * What a response shows: the answer to a request sent after a reset replaces the list, any other one extends it,
   * and a response of an earlier generation changes nothing.
   */
  lemma {:induction false} ResponseShows(events: seq<Event>, n: nat, r: nat, posts: seq<Post>)
    requires Issues(events, n, r) && r < |Run(events).requests| && Run(events).requests[r].inFlight
    ensures var (before, after) := (Screen(Run(events).pages), Screen(Run(events + [Response(r, posts)]).pages));
            && (SettlesCurrent(Run(events), r) && events[n].ResetDone? ==> after == NewestFirst(posts))
            && (SettlesCurrent(Run(events), r) && !events[n].ResetDone? ==> after == before + NewestFirst(posts))
            && (!SettlesCurrent(Run(events), r) ==> after == before)
  {
    RunPush(events, Response(r, posts));
    IssuedKind(events, n, r);
    hide Run, NewestFirst, Issues;
    var (s, page) := (Run(events), Page(r, NewestFirst(posts)));
    assert (s.pages + [page])[..|s.pages|] == s.pages;
    assert [page][..0] == [];
  }

  lemma KindStep(s: State, e: Event)
    ensures |Step(s, e).requests| == |s.requests| + 1 ==>
              (Step(s, e).requests[|s.requests|].kind == Initial <==> e.ResetDone?)
  {
    hide NewestFirst;
  }

  lemma {:induction false} IssuedKind(events: seq<Event>, n: nat, r: nat)
    requires Issues(events, n, r)
    ensures r < |Run(events).requests| && (Run(events).requests[r].kind == Initial <==> events[n].ResetDone?)
  {
    hide Step;
    var (prefix, e) := (events[..|events| - 1], events[|events| - 1]);
    assert events == prefix + [e];
    RunPush(prefix, e);
    StepKeepsRequests(Run(prefix), e);
    KindStep(Run(prefix), e);
    if n == |events| - 1 {
      assert events[..n + 1] == events;
    } else {
      assert prefix[..n] == events[..n] && prefix[..n + 1] == events[..n + 1];
      IssuedKind(prefix, n, r);
    }
  }

  // ---------------------------------------------------------------------------------------------
  // Which timeline the visible posts belong to

  /** Between a render with another timeline_key and the effect of that render. */
  predicate InGap(s: State) {
    s.rendered != s.effectKey
  }

  /** The step that issues request r is taken in a gap. */
  ghost predicate IssuedInGap(events: seq<Event>, r: nat) {
    exists n: nat :: Issues(events, n, r) && InGap(Run(events[..n]))
  }

  /** A post is on the screen, on a page that was fetched for a timeline. */
  ghost predicate Shows(s: State, p: Post, key: Key) {
    exists i :: 0 <= i < |s.pages| && p in s.pages[i].posts && s.pages[i].request < |s.requests|
                && s.requests[s.pages[i].request].key == key
  }

  lemma StepKeepsRequests(s: State, e: Event)
    ensures |Step(s, e).requests| <= |s.requests| + 1
    ensures forall r :: 0 <= r < |s.requests| ==>
              r < |Step(s, e).requests| && Step(s, e).requests[r].(inFlight := s.requests[r].inFlight) == s.requests[r]
    ensures |Step(s, e).requests| == |s.requests| + 1 ==>
              exists kind :: Step(s, e).requests[|s.requests|] == Request(s.generation, kind, s.rendered, s.effectKey, true)
  {
    hide NewestFirst;
    if |Step(s, e).requests| == |s.requests| + 1 {
      var q := Step(s, e).requests[|s.requests|];
      assert q == Request(s.generation, q.kind, s.rendered, s.effectKey, true);
    }
  }

  /** A request carries the timeline rendered, the effect's timeline and the generation of the step that issued it. */
  lemma {:induction false} RequestOrigin(events: seq<Event>, n: nat, r: nat)
    requires Issues(events, n, r)
    ensures r < |Run(events).requests|
    ensures var (q, s) := (Run(events).requests[r], Run(events[..n]));
            q.key == s.rendered && q.effectKey == s.effectKey && q.generation == s.generation
  {
    hide Step;
    var prefix := events[..|events| - 1];
    StepKeepsRequests(Run(prefix), events[|events| - 1]);
    if n == |events| - 1 {
      assert events[..n + 1] == events;
    } else {
      assert prefix[..n] == events[..n] && prefix[..n + 1] == events[..n + 1];
      RequestOrigin(prefix, n, r);
    }
  }

  lemma {:induction false} EveryRequestIsIssued(events: seq<Event>, r: nat)
    requires r < |Run(events).requests|
    ensures exists n: nat :: Issues(events, n, r)
  {
    if events != [] {
      var n := |events| - 1;
      var prefix := events[..n];
      if r < |Run(prefix).requests| {
        EveryRequestIsIssued(prefix, r);
        var m: nat :| Issues(prefix, m, r);
        assert prefix[..m] == events[..m] && prefix[..m + 1] == events[..m + 1];
        assert Issues(events, m, r);
      } else {
        assert events[..n + 1] == events;
        assert Issues(events, n, r);
      }
    }
  }

  /** A visible page is of another timeline than the effect's exactly when its request was issued in a gap. */
  lemma {:induction false} VisibleTimeline(events: seq<Event>, i: nat)
    requires i < |Run(events).pages|
    ensures var s := Run(events);
            var r := s.pages[i].request;
            r < |s.requests| && (s.requests[r].key != s.effectKey <==> IssuedInGap(events, r))
  {
    RunKeepsInv(events);
    var r := Run(events).pages[i].request;
    assert Run(events).requests[r].effectKey == Run(events).effectKey;
    EveryRequestIsIssued(events, r);
    hide Run, Issues, PagesAreCurrent, LoadingIsAwaited;
    forall n: nat | Issues(events, n, r)
      ensures InGap(Run(events[..n])) <==> Run(events).requests[r].key != Run(events).effectKey
    {
      RequestOrigin(events, n, r);
    }
  }

  /** A page with something on it, whose request was issued in a gap. */
  ghost predicate PageFromGap(events: seq<Event>, i: nat) {
    i < |Run(events).pages| && Run(events).pages[i].posts != [] && IssuedInGap(events, Run(events).pages[i].request)
  }

  ghost predicate ShowsForeign(s: State, p: Post, key: Key) {
    Shows(s, p, key) && key != s.effectKey
  }

  /** The list holds a post of another timeline exactly when it holds a page whose request was issued in a gap. */
  lemma ListMixesExactlyFromGaps(events: seq<Event>)
    ensures (exists p, key :: ShowsForeign(Run(events), p, key)) <==> (exists i: nat :: PageFromGap(events, i))
  {
    var s := Run(events);
    hide Run, IssuedInGap;
    if p, key :| ShowsForeign(s, p, key) {
      var i :| 0 <= i < |s.pages| && p in s.pages[i].posts && s.pages[i].request < |s.requests|
               && s.requests[s.pages[i].request].key == key;
      VisibleTimeline(events, i);
      assert PageFromGap(events, i);
    }
    if i: nat :| PageFromGap(events, i) {
      VisibleTimeline(events, i);
      var p, q := s.pages[i].posts[0], s.requests[s.pages[i].request];
      assert Shows(s, p, q.key);
      assert ShowsForeign(s, p, q.key);
    }
  }

  /** While no request is issued in a gap, every post on the screen is of the effect's timeline. */
  lemma InSyncNeverMixes(events: seq<Event>, p: Post, key: Key)
    requires forall n: nat, r: nat :: Issues(events, n, r) ==> !InGap(Run(events[..n]))
    requires Shows(Run(events), p, key)
    ensures key == Run(events).effectKey
  {
    var s := Run(events);
    var i :| 0 <= i < |s.pages| && p in s.pages[i].posts && s.pages[i].request < |s.requests|
             && s.requests[s.pages[i].request].key == key;
    VisibleTimeline(events, i);
  }

  /** Conversely, a request issued in a gap puts posts of another timeline on the screen if it is answered at once. */
  lemma GapSurfaces(events: seq<Event>, n: nat, r: nat, posts: seq<Post>, p: Post)
    requires Issues(events, n, r) && InGap(Run(events[..n])) && p in posts
    ensures var s := Run(events[..n + 1] + [Response(r, posts)]);
            Shows(s, p, Run(events[..n]).rendered) && Run(events[..n]).rendered != s.effectKey
  {
    var before := Run(events[..n]);
    assert events[..n + 1][..n] == events[..n];
    var issued := Run(events[..n + 1]);
    assert issued == Step(before, events[n]);
    StepKeepsRequests(before, events[n]);
    var all := events[..n + 1] + [Response(r, posts)];
    assert all[..n + 1] == events[..n + 1];
    var s := Step(issued, Response(r, posts));
    IssuingKeepsKeys(before, events[n]);
    PageIsSorted(posts);
    assert p in multiset(NewestFirst(posts));
    hide NewestFirst;
    var i := |s.pages| - 1;
    assert s.pages[i].request == r && p in s.pages[i].posts;
  }

  lemma IssuingKeepsKeys(s: State, e: Event)
    requires |Step(s, e).requests| > |s.requests|
    ensures Step(s, e).effectKey == s.effectKey && Step(s, e).generation == s.generation
  {
    hide NewestFirst;
  }

  /** A render, its effect delayed, and a load-more in between: posts of two timelines side by side. */
  lemma GapMixesTimelines(a: Key, b: Key, p: seq<Post>, q: seq<Post>)
    requires a != b
    ensures var s := Run([Render(a), Effect, ResetDone(0), Response(0, p), Render(b), FetchMore, Response(1, q)]);
            (forall x :: x in p ==> Shows(s, x, a)) && (forall y :: y in q ==> Shows(s, y, b))
  {
    hide NewestFirst;
    var first, second := Request(1, Initial, a, a, true), Request(1, More, b, a, true);
    var s1 := State(0, false, true, [], a, 0, [], []);
    var s2 := State(1, false, true, [], a, a, [Reset(1, true)], []);
    var s3 := State(1, true, true, [], a, a, [Reset(1, false)], [first]);
    var s4 := State(1, false, p != [], [Page(0, NewestFirst(p))], a, a, [Reset(1, false)], [first.(inFlight := false)]);
    var s5 := s4.(rendered := b);
    var s6 := s5.(loading := true, requests := [first.(inFlight := false), second]);
    var s7 := s6.(loading := false, moreAvailable := q != [], pages := [Page(0, NewestFirst(p)), Page(1, NewestFirst(q))],
                  requests := [first.(inFlight := false), second.(inFlight := false)]);
    var run: seq<Event> := [];
    run := Extend(run, START, Render(a), s1);
    run := Extend(run, s1, Effect, s2);
    run := Extend(run, s2, ResetDone(0), s3);
    run := Extend(run, s3, Response(0, p), s4);
    run := Extend(run, s4, Render(b), s5);
    run := Extend(run, s5, FetchMore, s6);
    run := Extend(run, s6, Response(1, q), s7);
    assert run == [Render(a), Effect, ResetDone(0), Response(0, p), Render(b), FetchMore, Response(1, q)];
    PageIsSorted(p);
    PageIsSorted(q);
    forall x | x in p ensures Shows(s7, x, a) {
      assert x in multiset(NewestFirst(p)) && x in s7.pages[0].posts;
    }
    forall y | y in q ensures Shows(s7, y, b) {
      assert y in multiset(NewestFirst(q)) && y in s7.pages[1].posts;
    }
  }

  lemma Extend(events: seq<Event>, s: State, e: Event, t: State) returns (longer: seq<Event>)
    requires Run(events) == s && Step(s, e) == t
    ensures longer == events + [e] && Run(longer) == t
  {
    longer := events + [e];
    assert longer[..|events|] == events;
  }

  /** The generation never goes back, a new one starts with nothing on the screen, and settled requests stay settled. */
  lemma GenerationGrows(s: State, e: Event)
    requires Inv(s)
    ensures Step(s, e).generation >= s.generation
    ensures Step(s, e).generation > s.generation ==> Step(s, e).pages == []
    ensures forall r :: 0 <= r < |s.requests| && !s.requests[r].inFlight ==> Step(s, e).requests[r] == s.requests[r]
  {
  }
}
