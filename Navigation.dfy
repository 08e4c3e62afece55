/**
 * The `beforeEach` / `afterEach` navigation guards and the one shared timer
 * slot `timer` (0 means "no timer").
 *
 * Host timers are replaced by a logical clock `now`, a map `pending` from
 * live timer handles to their deadlines, and an explicit `Timeout(h)` event
 * that runs the reveal callback of a due handle.  Handles are drawn from a
 * counter that starts at 1, so every handle is a non-zero integer, as the
 * `if (timer)` tests take for granted.  The page is reduced to its title
 * and to whether the loading indicator is shown; the two stores are plain
 * fields; `next()` is counted.
 */
module Navigation {
  import opened Routes
  import opened RouteTree
  import RouteBuilder

  /** The delay of the reveal callback, in clock units (milliseconds). */
  const Delay: nat := 500

  datatype GuardState = GuardState(
    declared: seq<Route>,        // `routes[0].children`, sorted in place by the first build
    routes: seq<Route>,          // the routes store
    keepaliveList: seq<string>,  // the global keep-alive list
    title: string,               // the document title
    start: nat,                  // when the last navigation started
    timer: nat,                  // the shared timer slot, 0 when none
    pending: map<nat, nat>,      // live timer handles and their deadlines
    nextHandle: nat,             // the next handle the host hands out
    now: nat,                    // the logical clock
    indicatorVisible: bool,      // whether `#index-loading` is displayed
    navTags: seq<Location>,      // the nav tags recorded by `afterEach`
    nextCalls: nat,              // how often `next()` was called
    dev: bool)                   // `env.dev()`

  /** The state before the first navigation. */
  function Init(declared: seq<Route>, dev: bool, title: string, shown: bool): (s: GuardState)
    ensures Valid(s) && s.routes == [] && s.timer == 0 && s.pending == map[]
  {
    GuardState(declared, [], [], title, 0, 0, map[], 1, 0, shown, [], 0, dev)
  }

  /**
   * What every reachable state satisfies: handles are non-zero and below the
   * counter, no deadline lies more than `Delay` ahead, and the store is either
   * empty or the normalised declared tree with its keep-alive names.
   */
  ghost predicate Valid(s: GuardState)
  {
    && s.nextHandle >= 1
    && s.timer < s.nextHandle
    && (forall h :: h in s.pending ==> 0 < h < s.nextHandle && s.pending[h] <= s.now + Delay)
    && Normalized(s.routes)
    && s.keepaliveList == KeepAliveNames(s.routes)
    && (|s.routes| > 0 ==> s.declared == s.routes)
  }

  /** `if (!piniaRoutes().routes.length) initRoute();` */
  function Rebuild(s: GuardState): (r: GuardState)
    ensures |s.routes| > 0 ==> r == s
    ensures |s.routes| == 0 ==> r.routes == r.declared && Normalized(r.routes) && |r.routes| == |s.declared|
    ensures r.keepaliveList == KeepAliveNames(r.routes) || r == s
  {
    if |s.routes| == 0 then
      SetRoutesNormalized(s.declared);
      var r := RouteTree.SetRoutes(s.declared);
      s.(declared := r, routes := r, keepaliveList := KeepAliveNames(r))
    else s
  }

  /** The `beforeEach` guard for a navigation to `to`. */
  function Before(s: GuardState, to: Location): (r: GuardState)
    ensures r.timer == s.nextHandle && r.nextHandle == s.nextHandle + 1
    ensures r.pending == s.pending[s.nextHandle := s.now + Delay]
    ensures r.title == TitleOf(to) && r.nextCalls == s.nextCalls + 1
    ensures r.indicatorVisible == s.indicatorVisible && r.navTags == s.navTags && r.now == s.now
  {
    var b := Rebuild(s);
    b.(title := TitleOf(to),
       start := b.now,
       timer := b.nextHandle,
       pending := b.pending[b.nextHandle := b.now + Delay],
       nextHandle := b.nextHandle + 1,
       nextCalls := b.nextCalls + 1)
  }

  /** The `afterEach` guard for a navigation that reached `to`. */
  function After(s: GuardState, to: Location): (r: GuardState)
    ensures r.timer == 0 && !r.indicatorVisible
    ensures r.pending.Keys == s.pending.Keys - {s.timer} || (s.timer == 0 && r.pending == s.pending)
    ensures r.navTags == s.navTags + [to] && r.routes == s.routes && r.now == s.now
  {
    s.(timer := 0,
       pending := if s.timer != 0 then s.pending - {s.timer} else s.pending,
       indicatorVisible := false,
       navTags := s.navTags + [to])
  }

  /** Timer `h` may run: it is live and its deadline has passed. */
  predicate Due(s: GuardState, h: nat)
  {
    h in s.pending && s.pending[h] <= s.now
  }

  /** The host runs the reveal callback of timer `h`. */
  function Reveal(s: GuardState, h: nat): (r: GuardState)
    requires Due(s, h)
    ensures h !in r.pending && r.pending.Keys == s.pending.Keys - {h}
    ensures r.timer == s.timer && r.now == s.now
  {
    s.(pending := s.pending - {h},
       indicatorVisible := s.indicatorVisible || (s.timer != 0 && s.dev))
  }

  /** The clock moves on by `dt`. */
  function Advance(s: GuardState, dt: nat): (r: GuardState)
    ensures r.now == s.now + dt && r.pending == s.pending && r.timer == s.timer
  {
    s.(now := s.now + dt)
  }

  datatype Event =
    | NavStart(to: Location)  // the router calls `beforeEach`
    | NavEnd(to: Location)    // the router calls `afterEach`
    | Timeout(h: nat)         // the host runs the callback of timer `h`
    | Elapse(dt: nat)         // time passes

  /** One event; a `Timeout` of a handle that is not due cannot happen and changes nothing. */
  function Step(s: GuardState, e: Event): (r: GuardState)
    ensures r.dev == s.dev && r.now >= s.now && r.nextHandle >= s.nextHandle
    ensures r.pending.Keys <= s.pending.Keys + {s.nextHandle}
  {
    match e
    case NavStart(to) => Before(s, to)
    case NavEnd(to) => After(s, to)
    case Timeout(h) => if Due(s, h) then Reveal(s, h) else s
    case Elapse(dt) => Advance(s, dt)
  }

  /** The state after the events, in order; the clock and the handle counter never go back. */
  function Run(s: GuardState, evs: seq<Event>): (r: GuardState)
    decreases |evs|
    ensures r.dev == s.dev && r.now >= s.now && r.nextHandle >= s.nextHandle
    ensures forall h :: h in r.pending && h < s.nextHandle ==> h in s.pending
  {
    if evs == [] then s else Run(Step(s, evs[0]), evs[1..])
  }

  // ---------------------------------------------------------------------
  // One step at a time

  lemma BeforeValid(s: GuardState, to: Location)
    requires Valid(s)
    ensures Valid(Before(s, to))
  {
    if |s.routes| == 0 {
      SetRoutesNormalized(s.declared);
    }
  }

  lemma StepValid(s: GuardState, e: Event)
    requires Valid(s)
    ensures Valid(Step(s, e))
  {
    if e.NavStart? {
      BeforeValid(s, e.to);
    }
  }

  /**
   * `beforeEach` stores a fresh non-zero handle, pending for exactly `Delay`,
   * sets the title from `meta.title` and calls `next()` once.
   */
  lemma BeforeArmsTimer(s: GuardState, to: Location)
    requires Valid(s)
    ensures var t := Before(s, to);
      && t.timer != 0
      && t.timer !in s.pending
      && t.pending.Keys == s.pending.Keys + {t.timer}
      && t.pending[t.timer] == s.now + Delay
      && (forall h :: h in s.pending ==> t.pending[h] == s.pending[h])
      && t.title == (if to.meta.title.Some? then to.meta.title.value else "")
      && t.start == s.now
      && t.nextCalls == s.nextCalls + 1
  {
    assert s.nextHandle !in s.pending;
  }

  /**
   * `beforeEach` builds the store only when it is empty; the build leaves the
   * normalised tree in the store and in the declared array, and its names in
   * the keep-alive list.
   */
  lemma BeforeBuildsOnce(s: GuardState, to: Location)
    requires Valid(s)
    ensures var t := Before(s, to);
      && (|s.routes| > 0 ==> t.routes == s.routes && t.keepaliveList == s.keepaliveList && t.declared == s.declared)
      && (|s.routes| == 0 ==> t.routes == RouteTree.SetRoutes(s.declared) == t.declared)
      && Normalized(t.routes)
      && t.keepaliveList == KeepAliveNames(t.routes)
      && |t.routes| == |s.declared|
  {
    if |s.routes| == 0 {
      SetRoutesNormalized(s.declared);
    }
  }

  /**
   * `afterEach` cancels the armed handle, if any, and clears the slot; other
   * timers stay live; the indicator is hidden and one nav tag is recorded.
   */
  lemma AfterCancels(s: GuardState, to: Location)
    requires Valid(s)
    ensures var t := After(s, to);
      && t.timer == 0
      && s.timer !in t.pending
      && (forall h :: h in t.pending <==> h in s.pending && h != s.timer)
      && (forall h :: h in t.pending ==> t.pending[h] == s.pending[h])
      && !t.indicatorVisible
      && t.navTags == s.navTags + [to]
      && t.nextCalls == s.nextCalls
  {
    assert 0 !in s.pending;
  }

  /** A second `afterEach` changes the timers and the indicator no further. */
  lemma AfterIdempotentOnTimers(s: GuardState, to: Location, to2: Location)
    ensures var t := After(s, to); var u := After(t, to2);
      u.pending == t.pending && u.timer == 0 && u.indicatorVisible == t.indicatorVisible == false
  {
  }

  /** The callback shows the indicator exactly when the slot is non-zero in a dev build. */
  lemma RevealGate(s: GuardState, h: nat)
    requires Due(s, h)
    ensures var t := Reveal(s, h);
      && h !in t.pending
      && (!s.indicatorVisible ==> (t.indicatorVisible <==> s.timer != 0 && s.dev))
      && (s.indicatorVisible ==> t.indicatorVisible)
  {
  }

  // ---------------------------------------------------------------------
  // Whole runs

  lemma {:induction false} RunValid(s: GuardState, evs: seq<Event>)
    requires Valid(s)
    ensures Valid(Run(s, evs))
    decreases |evs|
  {
    if evs != [] {
      StepValid(s, evs[0]);
      RunValid(Step(s, evs[0]), evs[1..]);
    }
  }

  /** In a production build (`dev` false) no event ever shows the indicator. */
  lemma {:induction false} ProductionNeverReveals(s: GuardState, evs: seq<Event>)
    requires !s.dev
    ensures Run(s, evs).indicatorVisible ==> s.indicatorVisible
    ensures !Run(s, evs).dev
    decreases |evs|
  {
    if evs != [] {
      ProductionNeverReveals(Step(s, evs[0]), evs[1..]);
    }
  }

  /** A handle that has been cancelled or has fired never becomes live again. */
  lemma {:induction false} CancelledStaysCancelled(s: GuardState, evs: seq<Event>, h: nat)
    requires Valid(s)
    requires h < s.nextHandle && h !in s.pending
    ensures h !in Run(s, evs).pending
    ensures h < Run(s, evs).nextHandle
    decreases |evs|
  {
    if evs != [] {
      StepValid(s, evs[0]);
      CancelledStaysCancelled(Step(s, evs[0]), evs[1..], h);
    }
  }

  /** Once the store holds routes, no later navigation rebuilds or re-sorts anything. */
  lemma {:induction false} StoreWrittenOnce(s: GuardState, evs: seq<Event>)
    requires |s.routes| > 0
    ensures Run(s, evs).routes == s.routes
    ensures Run(s, evs).keepaliveList == s.keepaliveList
    ensures Run(s, evs).declared == s.declared
    decreases |evs|
  {
    if evs != [] {
      StoreWrittenOnce(Step(s, evs[0]), evs[1..]);
    }
  }

  /** The navigations an event sequence starts. */
  function Starts(evs: seq<Event>): nat
  {
    if evs == [] then 0 else (if evs[0].NavStart? then 1 else 0) + Starts(evs[1..])
  }

  /** The targets an event sequence's `afterEach` calls reach, in order. */
  function Arrivals(evs: seq<Event>): seq<Location>
  {
    if evs == [] then [] else (if evs[0].NavEnd? then [evs[0].to] else []) + Arrivals(evs[1..])
  }

  /** What one event adds to the `next()` count and to the nav tags. */
  lemma StepCounts(s: GuardState, e: Event)
    ensures Step(s, e).nextCalls == s.nextCalls + (if e.NavStart? then 1 else 0)
    ensures Step(s, e).navTags == s.navTags + (if e.NavEnd? then [e.to] else [])
  {
  }

  /** `next()` is called once per `beforeEach`. */
  lemma {:induction false} RunNextCalls(s: GuardState, evs: seq<Event>)
    ensures Run(s, evs).nextCalls == s.nextCalls + Starts(evs)
    decreases |evs|
  {
    if evs != [] {
      StepCounts(s, evs[0]);
      RunNextCalls(Step(s, evs[0]), evs[1..]);
    }
  }

  /** One nav tag is recorded per `afterEach`, for its target, in order. */
  lemma {:induction false} RunNavTags(s: GuardState, evs: seq<Event>)
    ensures Run(s, evs).navTags == s.navTags + Arrivals(evs)
    decreases |evs|
  {
    if evs != [] {
      var s1 := Step(s, evs[0]);
      var own := if evs[0].NavEnd? then [evs[0].to] else [];
      StepCounts(s, evs[0]);
      RunNavTags(s1, evs[1..]);
      assert Run(s, evs) == Run(s1, evs[1..]);
      assert Arrivals(evs) == own + Arrivals(evs[1..]);
      assert s1.navTags == s.navTags + own;
      assert (s.navTags + own) + Arrivals(evs[1..]) == s.navTags + (own + Arrivals(evs[1..]));
    }
  }

  // ---------------------------------------------------------------------
  // Flash suppression and the overwrite race

  /** Events that are neither guard: timers firing and time passing. */
  predicate Quiet(evs: seq<Event>)
  {
    forall i :: 0 <= i < |evs| ==> !evs[i].NavStart? && !evs[i].NavEnd?
  }

  /** The clock time an event sequence lets pass. */
  function Ticks(evs: seq<Event>): nat
  {
    if evs == [] then 0 else (if evs[0].Elapse? then evs[0].dt else 0) + Ticks(evs[1..])
  }

  /**
   * While no guard runs and the clock stays before `h`'s deadline, `h` stays
   * live with its deadline, the slot keeps its value, and if `h` was the only
   * live timer nothing fires at all.
   */
  lemma {:induction false} QuietKeepsTimer(s: GuardState, evs: seq<Event>, h: nat)
    requires Quiet(evs)
    requires h in s.pending && s.now + Ticks(evs) < s.pending[h]
    ensures var t := Run(s, evs);
      && h in t.pending && t.pending[h] == s.pending[h]
      && t.now == s.now + Ticks(evs)
      && t.timer == s.timer
      && (s.pending.Keys == {h} ==> t.pending == s.pending && t.indicatorVisible == s.indicatorVisible)
    decreases |evs|
  {
    if evs != [] {
      var s1 := Step(s, evs[0]);
      assert h in s1.pending && s1.pending[h] == s.pending[h];
      assert s.pending.Keys == {h} ==> s1.pending == s.pending && s1.indicatorVisible == s.indicatorVisible;
      assert Quiet(evs[1..]) by {
        forall i | 0 <= i < |evs[1..]|
          ensures !evs[1..][i].NavStart? && !evs[1..][i].NavEnd?
        {
          assert evs[1..][i] == evs[i + 1];
        }
      }
      QuietKeepsTimer(s1, evs[1..], h);
    }
  }

  /**
   * A navigation that ends (`afterEach`) before its 500 units are up never
   * runs its reveal callback: its handle is still live and not due right up
   * to `afterEach`, which cancels it for good.  If no older timer was live,
   * the indicator is not shown at all in between.
   */
  lemma FlashSuppressed(s: GuardState, to: Location, mid: seq<Event>, to2: Location)
    requires Valid(s)
    requires Quiet(mid) && Ticks(mid) < Delay
    ensures var h := s.nextHandle;
      var q := Run(Before(s, to), mid);
      var e := After(q, to2);
      && h != 0
      && q.timer == h && h in q.pending && !Due(q, h)
      && h !in e.pending && e.timer == 0 && !e.indicatorVisible
      && (s.pending == map[] ==> q.indicatorVisible == s.indicatorVisible)
  {
    var h := s.nextHandle;
    var b := Before(s, to);
    BeforeArmsTimer(s, to);
    QuietKeepsTimer(b, mid, h);
  }

  /** What the flash-suppressed handle is afterwards: dead for the rest of any run. */
  lemma FlashNeverFires(s: GuardState, to: Location, mid: seq<Event>, to2: Location, rest: seq<Event>)
    requires Valid(s)
    requires Quiet(mid) && Ticks(mid) < Delay
    ensures s.nextHandle !in Run(After(Run(Before(s, to), mid), to2), rest).pending
  {
    var h := s.nextHandle;
    var b := Before(s, to);
    FlashSuppressed(s, to, mid, to2);
    StepValid(s, NavStart(to));
    RunValid(b, mid);
    var q := Run(b, mid);
    StepValid(q, NavEnd(to2));
    CancelledStaysCancelled(After(q, to2), rest, h);
  }

  /**
   * Two `beforeEach` calls back to back: the second handle overwrites the slot,
   * so `afterEach` cancels only that one and the first stays live.  Fired right
   * away it shows nothing, since the slot is 0; fired during a later navigation
   * it shows the indicator in a dev build, although that navigation's own
   * delay has not passed.
   */
  lemma OverwriteRace(s: GuardState, a: Location, b: Location, c: Location, d: Location)
    requires Valid(s)
    ensures var h1 := s.nextHandle;
      var s1 := Before(s, a);
      var h2 := s1.nextHandle;
      var s2 := Before(s1, b);
      var s3 := After(s2, c);
      var late := Advance(s3, Delay);
      var s4 := Before(late, d);
      && h1 != h2 && h1 != 0 && h2 != 0
      && s2.timer == h2
      && h1 in s3.pending && h2 !in s3.pending && s3.timer == 0
      && Due(late, h1) && !Reveal(late, h1).indicatorVisible
      && Due(s4, h1) && !Due(s4, s4.timer)
      && Reveal(s4, h1).indicatorVisible == s.dev
  {
    BeforeArmsTimer(s, a);
    StepValid(s, NavStart(a));
    var s1 := Before(s, a);
    BeforeArmsTimer(s1, b);
    StepValid(s1, NavStart(b));
    var s2 := Before(s1, b);
    AfterCancels(s2, c);
    var s3 := After(s2, c);
    var late := Advance(s3, Delay);
    StepValid(s3, Elapse(Delay));
    BeforeArmsTimer(late, d);
  }

  // ---------------------------------------------------------------------
  // The guards as the module-level code runs them

  /**
   * The module-level guard state: the shared `timer` slot, the stores and the
   * page.  `BeforeEach`, `AfterEach`, `Fire` and `Tick` each perform one
   * `Step` of the state machine above, so everything proved about `Step` and
   * `Run` (validity included) holds for the object's `State()` after them.
   * `SetTimeout`, `ClearTimeout` and `BuildIfEmpty` are the host timer calls
   * and the build those guards make; they are not steps and on their own
   * need not keep `Valid`.
   */
  class NavigationController {
    const declared: array<Route>
    const dev: bool
    var routes: seq<Route>
    var keepaliveList: seq<string>
    var title: string
    var start: nat
    var timer: nat
    var pending: map<nat, nat>
    var nextHandle: nat
    var now: nat
    var indicatorVisible: bool
    var navTags: seq<Location>
    var nextCalls: nat

    ghost function State(): GuardState
      reads this, declared
    {
      GuardState(declared[..], routes, keepaliveList, title, start, timer, pending,
                 nextHandle, now, indicatorVisible, navTags, nextCalls, dev)
    }

    /** `rootChildren` is `routes[0].children` of the declared route table. */
    constructor (rootChildren: array<Route>, dev: bool, title: string, shown: bool)
      ensures declared == rootChildren
      ensures State() == Init(rootChildren[..], dev, title, shown)
    {
      declared := rootChildren;
      this.dev := dev;
      routes := [];
      keepaliveList := [];
      this.title := title;
      start := 0;
      timer := 0;
      pending := map[];
      nextHandle := 1;
      now := 0;
      indicatorVisible := shown;
      navTags := [];
      nextCalls := 0;
    }

    /** `window.setTimeout(callback, delay)`: a fresh non-zero handle. */
    method SetTimeout(delay: nat) returns (id: nat)
      modifies this
      ensures id == old(nextHandle) && nextHandle == id + 1
      ensures pending == old(pending)[id := now + delay]
      ensures now == old(now) && timer == old(timer)
      ensures State() == old(State()).(pending := pending, nextHandle := nextHandle)
    {
      id := nextHandle;
      pending := pending[id := now + delay];
      nextHandle := nextHandle + 1;
    }

    /** `clearTimeout(id)`: cancelling a handle that is not live does nothing. */
    method ClearTimeout(id: nat)
      modifies this
      ensures pending == old(pending) - {id}
      ensures State() == old(State()).(pending := pending)
    {
      pending := pending - {id};
    }

    /** `if (!piniaRoutes().routes.length) initRoute();` */
    method BuildIfEmpty()
      modifies this, declared
      ensures State() == Rebuild(old(State()))
    {
      if |routes| == 0 {
        var res, names := RouteBuilder.InitRoute(declared);
        routes := res;
        keepaliveList := names;
      }
    }

    method BeforeEach(to: Location)
      modifies this, declared
      ensures State() == Before(old(State()), to)
    {
      BuildIfEmpty();
      title := TitleOf(to);
      start := now;
      timer := SetTimeout(Delay);
      nextCalls := nextCalls + 1;
    }

    method AfterEach(to: Location)
      modifies this
      ensures State() == After(old(State()), to)
    {
      if timer != 0 {
        ClearTimeout(timer);
        timer := 0;
      }
      indicatorVisible := false;
      navTags := navTags + [to];
    }

    /** The host runs the callback of the due timer `h`. */
    method Fire(h: nat)
      requires Due(State(), h)
      modifies this
      ensures State() == Reveal(old(State()), h)
    {
      pending := pending - {h};
      if timer != 0 && dev {
        indicatorVisible := true;
      }
    }

    method Tick(dt: nat)
      modifies this
      ensures State() == Advance(old(State()), dt)
    {
      now := now + dt;
    }
  }
}
