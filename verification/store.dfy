/** The life cycle of `cards.Store` as a sequential state machine. The
    goroutine, the channels and the lock are replaced by flags and counters:
    `ready` and `closed` stand for the two one-shot channels, `generation`
    counts the successful updates and names the notify channels (the one a
    store hands out is the one numbered by its generation), and `signalled`
    is the set of notify channels closed so far. */
module CardStore {
  import opened Wrappers
  import opened Cards

  type byte = b: int | 0 <= b < 0x100

  /** `time.Hour` in nanoseconds, the refresh period `NewStore` sets. */
  const Hour: nat := 3_600_000_000_000

  const AllCardsUrl: string := "https://mtgjson.com/json/AllCards-x.json"
  const UserAgent: string := "github.com_broady_mtg"

  /** Upper bound on the body excerpt put in a failure message. */
  const ExcerptLimit: nat := 1000

  const StatusOK: int := 200
  const StatusNotModified: int := 304

  datatype Store = Store(
    ready: bool,
    closed: bool,
    etag: string,
    cards: Option<Catalog>,
    generation: nat,
    signalled: set<nat>,
    updateFrequency: nat
  )

  /** What the lock-protected fields and the channels promise each other
      between two operations. The `signalled` clauses describe the corrected
      `Publish`; `maybeUpdate`'s own ordering (`PublishAsWritten`) closes the
      channel numbered `generation`, breaking them. */
  ghost predicate Valid(s: Store) {
    && (s.ready <==> s.generation > 0)
    && (s.ready <==> s.cards.Some?)
    && (forall ch | ch in s.signalled :: ch < s.generation)
    && (forall ch: nat | ch < s.generation :: ch in s.signalled)
  }

  /** `NewStore` before its watcher goroutine has run: nothing fetched yet. */
  function NewStore(): (s: Store)
    ensures Valid(s)
    ensures !s.ready && !s.closed && s.etag == "" && s.cards == None
    ensures s.updateFrequency == Hour
  {
    Store(false, false, "", None, 0, {}, Hour)
  }

  /** `Close`: the first call closes the store, later calls report an error
      and change nothing. */
  function Close(s: Store): (r: (Store, Option<string>))
    ensures r.0.closed
    ensures s.closed ==> r.0 == s && r.1 == Some("already closed")
    ensures !s.closed ==> r.0 == s.(closed := true) && r.1 == None
  {
    if s.closed then (s, Some("already closed")) else (s.(closed := true), None)
  }

  /** `Cards`: `None` stands for blocking until the first update. */
  function CardsOf(s: Store): (r: Option<Catalog>)
    ensures r.Some? <==> s.ready && s.cards.Some?
  {
    if s.ready then s.cards else None
  }

  /** Once a store is ready, `Cards` returns a catalog (never nil). */
  lemma CardsReadyGate(s: Store)
    requires Valid(s)
    ensures CardsOf(s).Some? <==> s.ready
    ensures s.ready ==> CardsOf(s) == s.cards
  {
  }

  /** The conditional GET `maybeUpdate` sends. */
  datatype Request = Request(url: string, ifNoneMatch: string, userAgent: string)

  function RequestFor(s: Store): (r: Request)
    ensures r.ifNoneMatch == s.etag
    ensures r.url == AllCardsUrl && r.userAgent == UserAgent
  {
    Request(AllCardsUrl, s.etag, UserAgent)
  }

  /** The result of the HTTP round trip, already decoded: the status, the
      `Etag` header ("" when absent), the bytes `ReadAll` returned, whether
      reading finished without error, and what `json.Unmarshal` made of the
      bytes (`None` when it failed). */
  datatype Response =
    | TransportError
    | Received(status: int, etagHeader: string, body: seq<byte>, readOk: bool, decoded: Option<map<string, Card>>)

  /** Which branch of `maybeUpdate` was taken; the failures carry what the
      log line would show. */
  datatype Outcome =
    | TransportFailed
    | NotModified
    | HttpFailed(status: int, excerpt: seq<byte>)
    | ReadFailed
    | DecodeFailed(excerpt: seq<byte>)
    | Updated

  /** The response carries a full, readable, decodable catalog. */
  predicate Usable(resp: Response) {
    resp.Received? && resp.status == StatusOK && resp.readOk && resp.decoded.Some?
  }

  /** The writes of a successful update, with the notify channel that
      waiters hold being closed and a fresh one handed out. */
  function Publish(s: Store, cat: Catalog, etag: string): (r: Store)
    ensures r.signalled == s.signalled + {s.generation}
  {
    s.(etag := etag, cards := Some(cat), generation := s.generation + 1,
       signalled := s.signalled + {s.generation}, ready := true)
  }

  /** `maybeUpdate`, with the branches in the order it tests them
      (cards.go:194-213). */
  function MaybeUpdate(s: Store, resp: Response, order: seq<string>): (r: (Store, Outcome))
    ensures r.1 == Updated <==> Usable(resp)
    ensures r.1 != Updated ==> r.0 == s
    ensures r.1 == Updated ==>
      && r.0.cards == Some(NewCatalog(resp.decoded.value, order))
      && r.0.etag == resp.etagHeader
      && r.0.generation == s.generation + 1
      && r.0.ready && r.0.closed == s.closed && r.0.updateFrequency == s.updateFrequency
    ensures r.1 == TransportFailed <==> resp.TransportError?
    ensures r.1 == NotModified <==> resp.Received? && resp.status == StatusNotModified
    ensures r.1.HttpFailed? <==> resp.Received? && resp.status != StatusNotModified && resp.status != StatusOK
    ensures r.1 == ReadFailed <==> resp.Received? && resp.status == StatusOK && !resp.readOk
    ensures r.1.DecodeFailed? <==> resp.Received? && resp.status == StatusOK && resp.readOk && resp.decoded.None?
    ensures r.1.HttpFailed? || r.1.DecodeFailed? ==> r.1.excerpt == Truncate(resp.body, ExcerptLimit)
  {
    match resp
    case TransportError => (s, TransportFailed)
    case Received(status, etagHeader, body, readOk, decoded) =>
      if status == StatusNotModified then (s, NotModified)
      else if status != StatusOK then (s, HttpFailed(status, Truncate(body, ExcerptLimit)))
      else if !readOk then (s, ReadFailed)
      else if decoded.None? then (s, DecodeFailed(Truncate(body, ExcerptLimit)))
      else (Publish(s, NewCatalog(decoded.value, order), etagHeader), Updated)
  }

  /** A 2xx status other than 200 is a failure, even with a readable,
      decodable body. */
  lemma OtherSuccessStatusFails(s: Store, resp: Response, order: seq<string>)
    requires resp.Received? && 200 < resp.status < 300
    ensures MaybeUpdate(s, resp, order) == (s, HttpFailed(resp.status, Truncate(resp.body, ExcerptLimit)))
  {
  }

  /** The status is judged before the read error: a failed read of a 500
      response is logged as an HTTP failure. */
  lemma StatusCheckedBeforeRead(s: Store, resp: Response, order: seq<string>)
    requires resp.Received? && resp.status != StatusOK && resp.status != StatusNotModified && !resp.readOk
    ensures MaybeUpdate(s, resp, order).1.HttpFailed?
  {
  }

  /** Every update keeps the store's invariant, and never makes it unready. */
  lemma MaybeUpdatePreservesValid(s: Store, resp: Response, order: seq<string>)
    requires Valid(s)
    ensures Valid(MaybeUpdate(s, resp, order).0)
    ensures s.ready ==> MaybeUpdate(s, resp, order).0.ready
    ensures MaybeUpdate(s, resp, order).0.generation >= s.generation
  {
    var r := MaybeUpdate(s, resp, order);
    if r.1 == Updated {
      var t := r.0;
      forall ch: nat | ch < t.generation
        ensures ch in t.signalled
      {
        if ch < s.generation {
          assert ch in s.signalled;
        }
      }
    }
  }

  /** After a successful update the next request revalidates with the etag
      that update received. */
  lemma NextRequestRevalidates(s: Store, resp: Response, order: seq<string>)
    requires Usable(resp)
    ensures RequestFor(MaybeUpdate(s, resp, order).0).ifNoneMatch == resp.etagHeader
  {
  }

  /** After a successful update `Cards` returns the catalog built from the
      response, whatever the store held before. */
  lemma UpdateIsVisible(s: Store, resp: Response, order: seq<string>)
    requires Usable(resp)
    ensures CardsOf(MaybeUpdate(s, resp, order).0) == Some(NewCatalog(resp.decoded.value, order))
  {
  }

  /** `WaitForUpdate`: the handle remembers the notify channel current at
      the call. */
  datatype Waiter = Waiter(channel: nat)

  function WaitForUpdate(s: Store): (w: Waiter)
    ensures Valid(s) ==> w.channel !in s.signalled
  {
    Waiter(s.generation)
  }

  /** What the handle has delivered in state `s`: the catalog `Cards`
      returns once its channel is closed, `None` while it still waits. */
  function Resolve(s: Store, w: Waiter): (r: Option<Catalog>)
    ensures r.Some? ==> w.channel in s.signalled && s.ready
  {
    if w.channel in s.signalled then CardsOf(s) else None
  }

  /** A handle waits until the next successful update and then yields the
      catalog that update installed. */
  lemma WaiterResolvesOnNextUpdate(s: Store, resp: Response, order: seq<string>)
    requires Valid(s)
    ensures Resolve(s, WaitForUpdate(s)) == None
    ensures Usable(resp) ==>
      Resolve(MaybeUpdate(s, resp, order).0, WaitForUpdate(s)) == Some(NewCatalog(resp.decoded.value, order))
    ensures !Usable(resp) ==> Resolve(MaybeUpdate(s, resp, order).0, WaitForUpdate(s)) == None
  {
  }

  /** A failed refresh hands out no new channel: a handle taken before it
      and one taken after it both wait for the next successful update and
      then deliver the same catalog. */
  lemma WaitersShareUpdate(s: Store, bad: Response, good: Response, order: seq<string>)
    requires Valid(s) && !Usable(bad) && Usable(good)
    ensures var t := MaybeUpdate(s, bad, order).0;
      && WaitForUpdate(t) == WaitForUpdate(s)
      && Resolve(t, WaitForUpdate(s)) == None
    ensures var t := MaybeUpdate(s, bad, order).0;
      var u := MaybeUpdate(t, good, order).0;
      && Resolve(u, WaitForUpdate(s)) == Some(NewCatalog(good.decoded.value, order))
      && Resolve(u, WaitForUpdate(t)) == Some(NewCatalog(good.decoded.value, order))
  {
  }

  /** The writes of a successful update in `maybeUpdate`'s order
      (cards.go:216-224): the
      notify channel is replaced first, and the channel closed is the new
      one, so the one waiters took is never closed. */
  function PublishAsWritten(s: Store, cat: Catalog, etag: string): (r: Store)
    ensures r.signalled == s.signalled + {s.generation + 1}
  {
    s.(etag := etag, cards := Some(cat), generation := s.generation + 1,
       signalled := s.signalled + {s.generation + 1}, ready := true)
  }

  /** With `maybeUpdate`'s ordering, a handle taken on a fresh store is not
      released by the first update, while a handle taken after that update
      is released at once, without waiting for another one. */
  lemma PublishAsWrittenMissesWaiters(cat: Catalog, etag: string)
    ensures var s := NewStore();
            var t := PublishAsWritten(s, cat, etag);
            && Resolve(t, WaitForUpdate(s)) == None
            && Resolve(t, WaitForUpdate(t)) == Some(cat)
  {
    var s := NewStore();
    var t := PublishAsWritten(s, cat, etag);
    assert WaitForUpdate(t).channel == 1;
    assert 1 in t.signalled;
  }

  /** The state of the `watch` goroutine: before its first attempt, between
      attempts waiting on the timer, or returned. */
  datatype Phase = Starting | Waiting | Stopped

  datatype Watcher = Watcher(store: Store, phase: Phase)

  /** The events the loop reacts to: an attempt (the first one, or the one
      after the timer fired) with the response it gets, or a call of
      `Close`. */
  datatype Event = Attempt(resp: Response, order: seq<string>) | CloseCalled

  ghost predicate WatchValid(w: Watcher) {
    && Valid(w.store)
    && (w.phase == Waiting ==> !w.store.closed && w.store.updateFrequency != 0)
  }

  /** `NewStore` together with its `go s.watch()`. */
  function StartWatch(): (w: Watcher)
    ensures WatchValid(w) && w.phase == Starting && w.store == NewStore()
  {
    Watcher(NewStore(), Starting)
  }

  /** One step of `watch`. After an attempt the loop returns when the period
      is zero, and when the store is already closed the select returns at
      once; a `Close` wakes a waiting loop, which returns. */
  function Step(w: Watcher, e: Event): (r: Watcher)
    ensures r.store.updateFrequency == w.store.updateFrequency
    ensures w.phase == Stopped ==> r.phase == Stopped
  {
    match e
    case CloseCalled =>
      var closed := Close(w.store).0;
      Watcher(closed, if w.phase == Waiting then Stopped else w.phase)
    case Attempt(resp, order) =>
      if w.phase == Stopped then w
      else
        var t := MaybeUpdate(w.store, resp, order).0;
        Watcher(t, if t.updateFrequency == 0 || t.closed then Stopped else Waiting)
  }

  function Run(w: Watcher, events: seq<Event>): Watcher
    decreases |events|
  {
    if |events| == 0 then w else Run(Step(w, events[0]), events[1..])
  }

  /** Every step keeps the invariants, and readiness and closing are never
      undone. */
  lemma StepPreserves(w: Watcher, e: Event)
    requires WatchValid(w)
    ensures WatchValid(Step(w, e))
    ensures w.store.ready ==> Step(w, e).store.ready
    ensures w.store.closed ==> Step(w, e).store.closed
    ensures Step(w, e).store.generation >= w.store.generation
  {
    if e.Attempt? && w.phase != Stopped {
      MaybeUpdatePreservesValid(w.store, e.resp, e.order);
    }
  }

  lemma {:induction false} RunPreserves(w: Watcher, events: seq<Event>)
    requires WatchValid(w)
    ensures WatchValid(Run(w, events))
    ensures w.store.ready ==> Run(w, events).store.ready
    ensures w.store.closed ==> Run(w, events).store.closed
    ensures Run(w, events).store.generation >= w.store.generation
    decreases |events|
  {
    if |events| > 0 {
      StepPreserves(w, events[0]);
      RunPreserves(Step(w, events[0]), events[1..]);
    }
  }

  /** Once the store is closed and its first attempt is behind it, no
      further attempt is made: the store stays as it is. */
  lemma {:induction false} ClosedWatcherIsInert(w: Watcher, events: seq<Event>)
    requires WatchValid(w) && w.store.closed && w.phase != Starting
    ensures Run(w, events).store == w.store
    ensures Run(w, events).phase == Stopped
    decreases |events|
  {
    if |events| > 0 {
      ClosedWatcherIsInert(Step(w, events[0]), events[1..]);
    }
  }

  /** With a zero period the loop makes its first attempt and returns. */
  lemma {:induction false} ZeroFrequencyAttemptsOnce(w: Watcher, resp: Response, order: seq<string>, events: seq<Event>)
    requires w.phase == Starting && w.store.updateFrequency == 0
    ensures var first := Step(w, Attempt(resp, order));
            first.phase == Stopped && first.store == MaybeUpdate(w.store, resp, order).0
    ensures var first := Step(w, Attempt(resp, order));
            Run(first, events).store.generation == first.store.generation
    decreases |events|
  {
    var first := Step(w, Attempt(resp, order));
    StoppedKeepsGeneration(first, events);
  }

  lemma {:induction false} StoppedKeepsGeneration(w: Watcher, events: seq<Event>)
    requires w.phase == Stopped
    ensures Run(w, events).store.generation == w.store.generation
    ensures Run(w, events).store.cards == w.store.cards
    decreases |events|
  {
    if |events| > 0 {
      StoppedKeepsGeneration(Step(w, events[0]), events[1..]);
    }
  }

  /** The first attempt is made even when `Close` came before it. */
  lemma CloseBeforeFirstAttempt(resp: Response, order: seq<string>)
    requires Usable(resp)
    ensures var w := Step(Step(StartWatch(), CloseCalled), Attempt(resp, order));
            w.phase == Stopped && w.store.ready && w.store.closed
  {
  }
}
