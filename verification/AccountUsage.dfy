/** The runs of the account-usage cache, told by their events alone. */
module AccountUsageRuns {
  import opened JsText
  import opened Options

  /** Where an answer comes from: the load in flight, the cached value, or a new load. A load is the step that started it. */
  datatype Origin<V> = FromFlight(load: nat) | FromCache(value: Option<V>) | FromLoader

  datatype Event<V> =
    | Got(key: string, now: int, origin: Origin<V>)
    | Resolved(load: nat, value: Option<V>, now: int)
    | Settled(load: nat)
    | Cleared
    | DeletedPrefix(prefix: string)

  predicate Drops<V>(e: Event<V>, key: string) {
    e.Cleared? || (e.DeletedPrefix? && StartsWith(key, e.prefix))
  }

  predicate Starts<V>(e: Event<V>, key: string) {
    e.Got? && e.key == key && e.origin.FromLoader?
  }

  /** The step after the key was last dropped. */
  function Epoch<V>(h: seq<Event<V>>, key: string): (epoch: nat)
    ensures epoch <= |h|
    ensures forall m :: epoch <= m < |h| ==> !Drops(h[m], key)
    ensures epoch > 0 ==> Drops(h[epoch - 1], key)
  {
    if h == [] then 0
    else if Drops(h[|h| - 1], key) then |h|
    else Epoch(h[..|h| - 1], key)
  }

  /** The load was started for the key after the key was last dropped. */
  predicate Serves<V>(h: seq<Event<V>>, load: nat, key: string) {
    Epoch(h, key) <= load < |h| && Starts(h[load], key)
  }

  /** The load in flight after an event at step `n`. */
  function InFlightAfter<V(==)>(before: Option<nat>, e: Event<V>, n: nat, key: string): Option<nat> {
    if Drops(e, key) then None
    else if Starts(e, key) then Some(n)
    else if e.Settled? && before == Some(e.load) then None
    else before
  }

  function InFlight<V(==)>(h: seq<Event<V>>, key: string): Option<nat> {
    if h == [] then None else InFlightAfter(InFlight(h[..|h| - 1], key), h[|h| - 1], |h| - 1, key)
  }

  /** A cached value, when it was fetched, and the load it came from; an entry whose loads all failed has none. */
  datatype Fetch<V> = Fetch(value: Option<V>, fetchedAt: int, source: Option<nat>)

  function FetchedAfter<V>(before: Option<Fetch<V>>, e: Event<V>, serves: bool, key: string): Option<Fetch<V>> {
    if Drops(e, key) then None
    else if Starts(e, key) && before == None then Some(Fetch(None, 0, None))
    else if e.Resolved? && serves then Some(Fetch(e.value, e.now, Some(e.load)))
    else before
  }

  function Fetched<V>(h: seq<Event<V>>, key: string): Option<Fetch<V>> {
    if h == [] then None
    else
      var before, e := h[..|h| - 1], h[|h| - 1];
      FetchedAfter(Fetched(before, key), e, e.Resolved? && Serves(before, e.load, key), key)
  }

  function Clock<V>(start: int, h: seq<Event<V>>): int {
    if h == [] then start
    else if h[|h| - 1].Got? || h[|h| - 1].Resolved? then h[|h| - 1].now
    else Clock(start, h[..|h| - 1])
  }

  /** What `get` answers: it joins the load in flight, else takes a value younger than the TTL, else starts a load. */
  function Answered<V(==)>(ttlMs: int, h: seq<Event<V>>, key: string, now: int): Origin<V> {
    var fetched := Fetched(h, key);
    if InFlight(h, key).Some? then FromFlight(InFlight(h, key).value)
    else if fetched.Some? && now - fetched.value.fetchedAt < ttlMs then FromCache(fetched.value.value)
    else FromLoader
  }

  ghost predicate IsLoad<V>(h: seq<Event<V>>, load: nat) {
    load < |h| && exists key :: Starts(h[load], key)
  }

  ghost predicate HasResolved<V>(h: seq<Event<V>>, load: nat) {
    exists m :: 0 <= m < |h| && h[m].Resolved? && h[m].load == load
  }

  ghost predicate HasSettled<V>(h: seq<Event<V>>, load: nat) {
    exists m :: 0 <= m < |h| && h[m].Settled? && h[m].load == load
  }

  /** A load resolves at most once and settles once, after that or without it; time does not run backwards. */
  ghost predicate Allowed<V>(ttlMs: int, start: int, h: seq<Event<V>>, e: Event<V>) {
    match e
    case Got(key, now, origin) => now >= Clock(start, h) && origin == Answered(ttlMs, h, key, now)
    case Resolved(load, _, now) => now >= Clock(start, h) && IsLoad(h, load) && !HasResolved(h, load) && !HasSettled(h, load)
    case Settled(load) => IsLoad(h, load) && !HasSettled(h, load)
    case _ => true
  }

  ghost predicate IsRun<V>(ttlMs: int, start: int, h: seq<Event<V>>) {
    h == [] || (IsRun(ttlMs, start, h[..|h| - 1]) && Allowed(ttlMs, start, h[..|h| - 1], h[|h| - 1]))
  }

  lemma RunSnoc<V>(ttlMs: int, start: int, h: seq<Event<V>>, e: Event<V>)
    requires IsRun(ttlMs, start, h) && Allowed(ttlMs, start, h, e)
    ensures IsRun(ttlMs, start, h + [e])
  {
    hide Allowed;
    assert (h + [e])[..|h|] == h;
  }

  /** What an entry of the cache holds. */
  datatype View<V> = View(value: Option<V>, fetchedAt: int, inFlight: Option<nat>)

  /** What a history says of the entry of a key, if there is one. */
  function Shown<V(==)>(h: seq<Event<V>>, key: string): Option<View<V>> {
    var fetched := Fetched(h, key);
    if fetched == None then None else Some(View(fetched.value.value, fetched.value.fetchedAt, InFlight(h, key)))
  }

  /** What one more event changes. */
  lemma ShownAfter<V>(h: seq<Event<V>>, e: Event<V>, key: string)
    ensures Shown(h + [e], key) ==
      var before := Shown(h, key);
      if Drops(e, key) then None
      else if Starts(e, key) then Some((if before == None then View(None, 0, None) else before.value).(inFlight := Some(|h|)))
      else if before == None then None
      else if e.Resolved? && Serves(h, e.load, key) then Some(before.value.(value := e.value, fetchedAt := e.now))
      else if e.Settled? && before.value.inFlight == Some(e.load) then Some(before.value.(inFlight := None))
      else before
  {
    assert (h + [e])[..|h|] == h;
    InFlightIsFetched(h, key);
    if e.Resolved? && Serves(h, e.load, key) {
      ServedIsFetched(h, e.load, key);
    }
  }

  lemma {:induction false} InFlightIsFetched<V>(h: seq<Event<V>>, key: string)
    ensures InFlight(h, key).Some? ==> Fetched(h, key).Some?
  {
    if h != [] {
      InFlightIsFetched(h[..|h| - 1], key);
    }
  }

  lemma {:induction false} ServedIsFetched<V>(h: seq<Event<V>>, load: nat, key: string)
    requires Serves(h, load, key)
    ensures Fetched(h, key).Some?
  {
    if load < |h| - 1 {
      ServedIsFetched(h[..|h| - 1], load, key);
    }
  }

  /** How far a request has come: still pending, resolved (its value stored), or settled (resolved or rejected). */
  datatype Phase = IsPending | IsResolved | IsSettled

  /** The history says this of a load: its key, its phase, and whether its entry is the one cached for the key. */
  ghost predicate Traced<V>(h: seq<Event<V>>, load: nat, key: string, phase: Phase, cached: bool) {
    && load < |h| && Starts(h[load], key)
    && (phase == IsSettled <==> HasSettled(h, load))
    && (phase == IsPending <==> !HasSettled(h, load) && !HasResolved(h, load))
    && (cached <==> Serves(h, load, key))
  }

  lemma TracedAfter<V>(h: seq<Event<V>>, e: Event<V>, load: nat, key: string, phase: Phase, cached: bool)
    requires Traced(h, load, key, phase, cached)
    ensures var next :=
        if phase != IsSettled && e.Settled? && e.load == load then IsSettled
        else if phase == IsPending && e.Resolved? && e.load == load then IsResolved
        else phase;
      Traced(h + [e], load, key, next, cached && !Drops(e, key))
  {
    var g := h + [e];
    assert g[..|h|] == h && g[|h|] == e;
    assert forall m :: 0 <= m < |h| ==> g[m] == h[m];
    assert HasSettled(g, load) <==> HasSettled(h, load) || (e.Settled? && e.load == load);
    assert HasResolved(g, load) <==> HasResolved(h, load) || (e.Resolved? && e.load == load);
  }

  lemma ServesAfter<V>(h: seq<Event<V>>, e: Event<V>)
    requires !e.Got?
    ensures forall n: nat, key :: Serves(h + [e], n, key) <==> !Drops(e, key) && Serves(h, n, key)
  {
    assert (h + [e])[..|h|] == h;
  }

  /** A get changes nothing for the loads there are, and only a new load changes what is shown, for its key. */
  lemma AfterGet<V>(h: seq<Event<V>>, e: Event<V>, key: string)
    requires e.Got?
    ensures Shown(h + [e], key) ==
      if !Starts(e, key) then Shown(h, key)
      else if Shown(h, key) == None then Some(View(None, 0, Some(|h|)))
      else Some(Shown(h, key).value.(inFlight := Some(|h|)))
  {
    hide Shown;
    ShownAfter(h, e, key);
  }

  lemma TracedAfterGet<V>(h: seq<Event<V>>, e: Event<V>, load: nat, key: string, phase: Phase, cached: bool)
    requires e.Got? && Traced(h, load, key, phase, cached)
    ensures Traced(h + [e], load, key, phase, cached)
  {
    TracedAfter(h, e, load, key, phase, cached);
  }

  lemma TracedFirst<V>(ttlMs: int, start: int, h: seq<Event<V>>, e: Event<V>, key: string)
    requires IsRun(ttlMs, start, h) && Starts(e, key)
    ensures Traced(h + [e], |h|, key, IsPending, true)
  {
    var g := h + [e];
    assert g[..|h|] == h && g[|h|] == e;
    assert forall m :: 0 <= m < |h| ==> g[m] == h[m];
    SettledIsLoad(ttlMs, start, h, |h|);
  }

  lemma {:induction false} RunPrefix<V>(ttlMs: int, start: int, h: seq<Event<V>>, j: nat)
    requires IsRun(ttlMs, start, h) && j < |h|
    ensures IsRun(ttlMs, start, h[..j]) && Allowed(ttlMs, start, h[..j], h[j])
  {
    hide Allowed;
    var n := |h| - 1;
    if j < n {
      RunPrefix(ttlMs, start, h[..n], j);
      assert h[..n][..j] == h[..j];
    }
  }

  /** The load in flight is one that serves the key and has not settled. */
  lemma {:induction false} InFlightServes<V>(ttlMs: int, start: int, h: seq<Event<V>>, key: string)
    requires IsRun(ttlMs, start, h) && InFlight(h, key).Some?
    ensures Serves(h, InFlight(h, key).value, key) && !HasSettled(h, InFlight(h, key).value)
  {
    hide Answered;
    var n := |h| - 1;
    var before, e, load := h[..n], h[n], InFlight(h, key).value;
    if Starts(e, key) {
      SettledIsLoad(ttlMs, start, before, n);
    } else {
      InFlightServes(ttlMs, start, before, key);
    }
    assert HasSettled(h, load) ==> HasSettled(before, load) || e == Settled(load);
  }

  lemma {:induction false} SettledIsLoad<V>(ttlMs: int, start: int, h: seq<Event<V>>, load: nat)
    requires IsRun(ttlMs, start, h)
    ensures HasSettled(h, load) || HasResolved(h, load) ==> load < |h|
  {
    hide Answered;
    if h != [] {
      SettledIsLoad(ttlMs, start, h[..|h| - 1], load);
    }
  }

  /** A load stays in flight until it settles or its key is dropped. */
  lemma {:induction false} StaysInFlight<V>(ttlMs: int, start: int, h: seq<Event<V>>, i: nat, key: string)
    requires IsRun(ttlMs, start, h) && Serves(h, i, key) && !HasSettled(h, i)
    ensures InFlight(h, key) == Some(i)
  {
    var n := |h| - 1;
    if i < n {
      var before := h[..n];
      assert HasSettled(before, i) ==> HasSettled(h, i);
      StaysInFlight(ttlMs, start, before, i, key);
    }
  }

  /** A get between the start of a load and its end joins it, unless the key was dropped meanwhile. */
  lemma ConcurrentGetsJoin<V>(ttlMs: int, start: int, h: seq<Event<V>>, i: nat, j: nat)
    requires IsRun(ttlMs, start, h) && i < j < |h| && h[i].Got? && h[j].Got? && h[i].key == h[j].key
    requires h[i].origin.FromLoader? && !HasSettled(h[..j], i)
    requires forall m :: i < m < j ==> !h[m].Cleared? && (h[m].DeletedPrefix? ==> !(h[m].prefix <= h[i].key))
    ensures h[j].origin == FromFlight(i)
  {
    RunPrefix(ttlMs, start, h, j);
    var epoch := Epoch(h[..j], h[i].key);
    assert epoch <= i by {
      assert epoch > 0 ==> Drops(h[epoch - 1], h[i].key);
    }
    StaysInFlight(ttlMs, start, h[..j], i, h[i].key);
  }

  /** A key has at most one load in flight: before a second one starts, the first has settled or was dropped. */
  lemma LoadsDoNotOverlap<V>(ttlMs: int, start: int, h: seq<Event<V>>, i: nat, j: nat, key: string)
    requires IsRun(ttlMs, start, h) && i < j < |h| && Starts(h[i], key) && Starts(h[j], key)
    ensures HasSettled(h[..j], i) || exists m :: i < m < j && (h[m].Cleared? || (h[m].DeletedPrefix? && h[m].prefix <= key))
  {
    if !HasSettled(h[..j], i) && forall m :: i < m < j ==> !(h[m].Cleared? || (h[m].DeletedPrefix? && h[m].prefix <= key)) {
      ConcurrentGetsJoin(ttlMs, start, h, i, j);
    }
  }

  /** The step at which a load brought its value. */
  ghost predicate Brought<V>(h: seq<Event<V>>, r: nat, load: nat, value: Option<V>, now: int) {
    load < r < |h| && h[r] == Resolved(load, value, now)
  }

  lemma {:induction false} FetchedFrom<V>(ttlMs: int, start: int, h: seq<Event<V>>, key: string) returns (r: nat)
    requires IsRun(ttlMs, start, h) && Fetched(h, key).Some?
    ensures var f := Fetched(h, key).value;
      match f.source
      case None => f.value == None && f.fetchedAt == 0
      case Some(load) => Serves(h, load, key) && Brought(h, r, load, f.value, f.fetchedAt) && f.fetchedAt <= Clock(start, h)
  {
    hide Answered;
    var n := |h| - 1;
    var before, e := h[..n], h[n];
    r := 0;
    if e.Resolved? && Serves(before, e.load, key) {
      r := n;
    } else if Fetched(before, key).Some? {
      r := FetchedFrom(ttlMs, start, before, key);
      assert Fetched(h, key) == Fetched(before, key);
    }
  }

  /**
   The load behind an answer: started for the key after the key was last dropped, and a new one, one still in flight, or
   one whose value is younger than the TTL.
   */
  ghost predicate Behind<V>(h: seq<Event<V>>, ttlMs: int, j: nat, load: nat)
    requires j < |h| && h[j].Got?
  {
    && Epoch(h[..j], h[j].key) <= load <= j && Starts(h[load], h[j].key)
    && match h[j].origin
       case FromLoader => load == j
       case FromFlight(l) => load == l && !HasSettled(h[..j], load)
       case FromCache(value) =>
         exists r :: 0 <= r < j && h[r].Resolved? && Brought(h[..j], r, load, value, h[r].now) && 0 <= h[j].now - h[r].now < ttlMs
  }

  /** The key has an entry, and every load that serves it has failed. */
  ghost predicate AllFailed<V>(h: seq<Event<V>>, key: string) {
    && (exists load :: Serves(h, load, key))
    && forall load: nat :: Serves(h, load, key) ==> HasSettled(h, load) && !HasResolved(h, load)
  }

  lemma {:induction false} ResolvedIsFetched<V>(ttlMs: int, start: int, h: seq<Event<V>>, load: nat, key: string)
    requires IsRun(ttlMs, start, h) && Serves(h, load, key) && HasResolved(h, load)
    ensures Fetched(h, key).Some? && Fetched(h, key).value.source.Some?
  {
    hide Answered;
    var n := |h| - 1;
    var before, e := h[..n], h[n];
    SettledIsLoad(ttlMs, start, before, n);
    assert HasResolved(before, load) || (e.Resolved? && e.load == load);
    if HasResolved(before, load) {
      ResolvedIsFetched(ttlMs, start, before, load, key);
    }
  }

  /** A key whose loads all failed answers with nothing while the clock reads less than the TTL, and loads again from then on. */
  lemma FailedKeyAnswers<V>(ttlMs: int, start: int, h: seq<Event<V>>, key: string, now: int)
    requires IsRun(ttlMs, start, h) && AllFailed(h, key)
    ensures Answered(ttlMs, h, key, now) == if now < ttlMs then FromCache(None) else FromLoader
  {
    hide IsRun, Serves, Fetched, InFlight, HasSettled, HasResolved;
    var load :| Serves(h, load, key);
    ServedIsFetched(h, load, key);
    var r := FetchedFrom(ttlMs, start, h, key);
    var source := Fetched(h, key).value.source;
    if source.Some? {
      BroughtIsResolved(h, r, source.value, Fetched(h, key).value.value, Fetched(h, key).value.fetchedAt);
    }
    if InFlight(h, key).Some? {
      InFlightServes(ttlMs, start, h, key);
    }
  }

  lemma BroughtIsResolved<V>(h: seq<Event<V>>, r: nat, load: nat, value: Option<V>, now: int)
    requires Brought(h, r, load, value, now)
    ensures HasResolved(h, load)
  {
  }

  /** Nothing was fetched for a key exactly when its loads all failed, unless one is still in flight. */
  lemma NothingFetched<V>(ttlMs: int, start: int, h: seq<Event<V>>, key: string)
    requires IsRun(ttlMs, start, h) && Fetched(h, key).Some? && Fetched(h, key).value.source == None && InFlight(h, key) == None
    ensures AllFailed(h, key)
  {
    hide Answered, IsRun;
    var load := FetchedIsServed(h, key);
    forall l: nat | Serves(h, l, key)
      ensures HasSettled(h, l) && !HasResolved(h, l)
    {
      if !HasSettled(h, l) {
        StaysInFlight(ttlMs, start, h, l, key);
      }
      if HasResolved(h, l) {
        ResolvedIsFetched(ttlMs, start, h, l, key);
      }
    }
  }

  lemma {:induction false} FetchedIsServed<V>(h: seq<Event<V>>, key: string) returns (load: nat)
    requires Fetched(h, key).Some?
    ensures Serves(h, load, key)
  {
    var n := |h| - 1;
    if Fetched(h[..n], key).Some? {
      load := FetchedIsServed(h[..n], key);
    } else if h[n].Resolved? && Serves(h[..n], h[n].load, key) {
      load := h[n].load;
    } else {
      load := n;
    }
  }

  /**
   Behind every answer stands a load, or the key's loads have all failed; and then it answers with nothing exactly while
   the clock reads less than the TTL.
   */
  lemma AnswerIsCurrent<V>(ttlMs: int, start: int, h: seq<Event<V>>, j: nat) returns (load: nat)
    requires IsRun(ttlMs, start, h) && j < |h| && h[j].Got?
    ensures AllFailed(h[..j], h[j].key) && h[j].now < ttlMs ==> h[j].origin == FromCache(None) && forall l: nat :: !Behind(h, ttlMs, j, l)
    ensures !(AllFailed(h[..j], h[j].key) && h[j].now < ttlMs) ==> Behind(h, ttlMs, j, load)
  {
    RunPrefix(ttlMs, start, h, j);
    var before, key := h[..j], h[j].key;
    load := j;
    if AllFailed(before, key) {
      FailedKeyAnswers(ttlMs, start, before, key, h[j].now);
      NothingBehind(ttlMs, h, j);
    } else {
      load := LoadBehind(ttlMs, start, h, j);
    }
  }

  lemma CachedBehind<V>(ttlMs: int, h: seq<Event<V>>, j: nat, load: nat)
    requires j < |h| && h[j].Got? && h[j].origin.FromCache? && Behind(h, ttlMs, j, load)
    ensures Serves(h[..j], load, h[j].key) && HasResolved(h[..j], load)
  {
  }

  lemma NothingBehind<V>(ttlMs: int, h: seq<Event<V>>, j: nat)
    requires j < |h| && h[j].Got? && AllFailed(h[..j], h[j].key)
    ensures h[j].origin.FromCache? ==> forall l: nat :: !Behind(h, ttlMs, j, l)
  {
    hide Behind, Serves, HasResolved, HasSettled;
    forall l: nat | h[j].origin.FromCache?
      ensures !Behind(h, ttlMs, j, l)
    {
      if Behind(h, ttlMs, j, l) {
        CachedBehind(ttlMs, h, j, l);
      }
    }
  }

  lemma LoadBehind<V>(ttlMs: int, start: int, h: seq<Event<V>>, j: nat) returns (load: nat)
    requires IsRun(ttlMs, start, h) && j < |h| && h[j].Got? && !AllFailed(h[..j], h[j].key)
    ensures Behind(h, ttlMs, j, load)
  {
    hide AllFailed;
    RunPrefix(ttlMs, start, h, j);
    var before, key := h[..j], h[j].key;
    load := j;
    match h[j].origin
    case FromLoader =>
    case FromFlight(l) =>
      load := l;
      InFlightServes(ttlMs, start, before, key);
    case FromCache(_) =>
      var r := FetchedFrom(ttlMs, start, before, key);
      var source := Fetched(before, key).value.source;
      if source == None {
        NothingFetched(ttlMs, start, before, key);
      } else {
        load := source.value;
        assert Brought(before, r, load, h[j].origin.value, h[r].now);
      }
  }

  lemma {:induction false} FetchedStays<V>(ttlMs: int, start: int, h: seq<Event<V>>, r: nat, load: nat, key: string)
    requires IsRun(ttlMs, start, h) && Serves(h, load, key)
    requires load < r < |h| && h[r].Resolved? && h[r].load == load && forall m :: r < m < |h| ==> !Starts(h[m], key)
    ensures Fetched(h, key) == Some(Fetch(h[r].value, h[r].now, Some(load)))
    ensures InFlight(h, key) == None || InFlight(h, key) == Some(load)
  {
    hide Answered;
    var n := |h| - 1;
    var before, e := h[..n], h[n];
    if n > r {
      FetchedStays(ttlMs, start, before, r, load, key);
      assert before[r] == h[r] && HasResolved(before, load);
    }
    if e.Resolved? && Serves(before, e.load, key) {
      StaysInFlight(ttlMs, start, before, e.load, key);
    }
  }

  /** The value a load brought is answered without another request exactly while it is younger than the TTL. */
  lemma CachedWhileYoung<V>(ttlMs: int, start: int, h: seq<Event<V>>, r: nat, load: nat, j: nat)
    requires IsRun(ttlMs, start, h) && r < j < |h| && h[j].Got? && h[r].Resolved? && h[r].load == load < r
    requires Serves(h[..j], load, h[j].key) && HasSettled(h[..j], load)
    requires forall m :: r < m < j ==> !Starts(h[m], h[j].key)
    ensures h[j].origin == if h[j].now - h[r].now < ttlMs then FromCache(h[r].value) else FromLoader
  {
    RunPrefix(ttlMs, start, h, j);
    FetchedStays(ttlMs, start, h[..j], r, load, h[j].key);
    if InFlight(h[..j], h[j].key).Some? {
      InFlightServes(ttlMs, start, h[..j], h[j].key);
    }
  }

  /** After `clear`, or `deleteByPrefix` of a matching prefix, no get is answered by a load started before. */
  lemma NoStaleAnswer<V>(ttlMs: int, start: int, h: seq<Event<V>>, i: nat, j: nat) returns (load: nat)
    requires IsRun(ttlMs, start, h) && start >= ttlMs && i < j < |h| && h[j].Got?
    requires h[i].Cleared? || (h[i].DeletedPrefix? && h[i].prefix <= h[j].key)
    ensures Behind(h, ttlMs, j, load) && i < load <= j
  {
    load := AnswerIsCurrent(ttlMs, start, h, j);
    assert i < Epoch(h[..j], h[j].key) by {
      assert h[..j][i] == h[i];
    }
    RunPrefix(ttlMs, start, h, j);
    ClockPassesStart(ttlMs, start, h[..j]);
  }

  lemma {:induction false} ClockPassesStart<V>(ttlMs: int, start: int, h: seq<Event<V>>)
    requires IsRun(ttlMs, start, h)
    ensures Clock(start, h) >= start
  {
    hide Answered;
    if h != [] {
      ClockPassesStart(ttlMs, start, h[..|h| - 1]);
    }
  }
}

/** The process-wide account-usage cache: identical keys share one request in flight. */
module AccountUsage {
  import opened AccountUsageRuns
  import opened JsText
  import opened Options

  /** The promise of one loader call. */
  class Load<V(==)> {
    const entry: CacheEntry<V>
    var phase: Phase
    ghost const started: nat  // the step that started it

    constructor (entry: CacheEntry<V>, ghost started: nat)
      ensures this.entry == entry && this.started == started && phase == IsPending
    {
      this.entry, this.started, phase := entry, started, IsPending;
    }
  }

  class CacheEntry<V(==)> {
    var value: Option<V>
    var fetchedAt: int
    var inFlight: Load?<V>
    ghost const key: string

    constructor (ghost key: string)
      ensures this.key == key && value == None && fetchedAt == 0 && inFlight == null
    {
      this.key := key;
      value, fetchedAt, inFlight := None, 0, null;
    }
  }

  datatype Answer<!V> = Joined(load: Load<V>) | Cached(value: Option<V>) | Started(load: Load<V>) {
    ghost function Origin(): Origin<V> {
      match this
      case Joined(load) => FromFlight(load.started)
      case Cached(value) => FromCache(value)
      case Started(_) => FromLoader
    }
  }

  /** The cache. Its history is a run, and its entries show what the history says of their keys. */
  class AccountUsageCoordinator<V(==)> {
    const ttlMs: int
    var entries: map<string, CacheEntry<V>>
    ghost const start: int               // what the clock read before the first step
    ghost var history: seq<Event<V>>
    ghost var known: set<CacheEntry<V>>  // every entry ever made, cached or dropped
    ghost var loads: map<nat, Load<V>>   // every load ever started, by its step

    ghost predicate Valid()
      reads this, known, loads.Values
    {
      && IsRun(ttlMs, start, history)
      && (forall key :: key in entries ==> entries[key] in known && entries[key].key == key && FlightIsOwn(entries[key]))
      && (forall key :: ViewOf(key) == Shown(history, key))
      && (forall n :: n in loads ==> loads[n].started == n && loads[n].entry in known && ValidLoad(loads[n]))
    }

    ghost function ViewOf(key: string): Option<View<V>>
      reads this, if key in entries then {entries[key]} else {}
    {
      if key !in entries then None
      else
        var e := entries[key];
        Some(View(e.value, e.fetchedAt, if e.inFlight == null then None else Some(e.inFlight.started)))
    }

    ghost predicate FlightIsOwn(e: CacheEntry<V>)
      reads this, e
    {
      e.inFlight != null ==> Has(e.inFlight) && e.inFlight.entry == e
    }

    ghost predicate Has(load: Load<V>)
      reads this
    {
      load.started in loads && loads[load.started] == load
    }

    /** The history tells the load's phase, and its entry is cached exactly while it serves the key. */
    ghost predicate ValidLoad(load: Load<V>)
      reads this, load, load.entry
    {
      && Traced(history, load.started, load.entry.key, load.phase, IsCached(load.entry))
      && (load.phase != IsSettled ==> load.entry.inFlight == load)
    }

    ghost predicate IsCached(e: CacheEntry<V>)
      reads this
    {
      e.key in entries && entries[e.key] == e
    }

    constructor (ttlMs: int, ghost start: int)
      ensures Valid() && this.ttlMs == ttlMs && this.start == start && entries == map[]
      ensures history == [] && loads == map[] && known == {} && Clock(start, history) == start
    {
      this.ttlMs, this.start := ttlMs, start;
      entries, history, known, loads := map[], [], {}, map[];
    }

    /** The synchronous part of `get`: join the load in flight, answer from the cache, or start a load. */
    method Get(key: string, now: int) returns (answer: Answer<V>)
      requires Valid() && now >= Clock(start, history)
      modifies this, if key in entries then {entries[key]} else {}
      ensures Valid() && history == old(history) + [Got(key, now, answer.Origin())] && Clock(start, history) == now
      ensures fresh(known - old(known)) && old(known) <= known
      ensures key in entries && entries[key] in known && entries == old(entries)[key := entries[key]]
      ensures key in old(entries) ==> entries == old(entries)
      ensures key in old(entries) ==>
        entries[key].value == old(entries[key].value) && entries[key].fetchedAt == old(entries[key].fetchedAt)
      ensures answer.Joined? <==> key in old(entries) && old(entries[key].inFlight) != null
      ensures answer.Joined? ==> answer.load == old(entries[key].inFlight)
      ensures answer.Cached? <==>
        key in old(entries) && old(entries[key].inFlight) == null && now - old(entries[key].fetchedAt) < ttlMs
      ensures answer.Cached? ==> answer.value == old(entries[key].value)
      ensures answer.Started? ==>
        && fresh(answer.load) && answer.load.phase == IsPending && answer.load == entries[key].inFlight
        && answer.load.entry == entries[key] && answer.load.started == |old(history)| && answer.load.started !in old(loads)
      ensures loads == if answer.Started? then old(loads)[answer.load.started := answer.load] else old(loads)
    {
      hide IsRun, Traced, Shown, InFlight, Fetched, Answered, Clock;
      AnswerShows(key, now);
      if key in entries {
        var existing := entries[key];
        if existing.inFlight != null {
          answer := Joined(existing.inFlight);
          RecordAnswer(key, now, answer.Origin());
        } else if now - existing.fetchedAt < ttlMs {
          answer := Cached(existing.value);
          RecordAnswer(key, now, answer.Origin());
        } else {
          var inFlight := new Load<V>(existing, |history|);
          AddNext(key, now, inFlight);
          answer := Started(inFlight);
        }
      } else {
        var entry := new CacheEntry<V>(key);
        var inFlight := new Load<V>(entry, |history|);
        entry.inFlight := inFlight;
        AddFirst(key, now, entry, inFlight);
        answer := Started(inFlight);
      }
    }

    lemma AnswerShows(key: string, now: int)
      requires Valid()
      ensures Answered(ttlMs, history, key, now) ==
        if key in entries && entries[key].inFlight != null then FromFlight(entries[key].inFlight.started)
        else if key in entries && now - entries[key].fetchedAt < ttlMs then FromCache(entries[key].value)
        else FromLoader
    {
      hide IsRun, Traced, InFlight, Fetched;
      assert ViewOf(key) == Shown(history, key);
      InFlightIsFetched(history, key);
    }

    /** One more event of the history, once the fields show it. */
    ghost method Record(e: Event<V>)
      requires IsRun(ttlMs, start, history) && Allowed(ttlMs, start, history, e)
      modifies this`history
      ensures IsRun(ttlMs, start, history) && history == old(history) + [e]
      ensures Clock(start, history) == if e.Got? || e.Resolved? then e.now else old(Clock(start, history))
    {
      RunSnoc(ttlMs, start, history, e);
      history := history + [e];
    }

    ghost method RecordAnswer(key: string, now: int, origin: Origin<V>)
      requires Valid() && now >= Clock(start, history) && origin == Answered(ttlMs, history, key, now) != FromLoader
      modifies this`history
      ensures Valid() && history == old(history) + [Got(key, now, origin)] && Clock(start, history) == now
    {
      hide IsRun, IsLoad, Traced, Shown, Fetched, InFlight, Serves, HasSettled, HasResolved, Epoch, Clock, StartsWith;
      ghost var before, e := history, Got(key, now, origin);
      Record(e);
      forall k
        ensures ViewOf(k) == Shown(history, k)
      {
        AfterGet(before, e, k);
      }
      forall n | n in loads
        ensures loads[n].started == n && loads[n].entry in known && ValidLoad(loads[n])
      {
        var load := loads[n];
        TracedAfterGet(before, e, n, load.entry.key, load.phase, IsCached(load.entry));
      }
    }

    /** The first load of a key: its entry is new and joins the cache. */
    method AddFirst(key: string, now: int, entry: CacheEntry<V>, inFlight: Load<V>)
      requires Valid() && now >= Clock(start, history) && Answered(ttlMs, history, key, now) == FromLoader
      requires key !in entries && entry !in known
      requires entry.key == key && entry.value == None && entry.fetchedAt == 0 && entry.inFlight == inFlight
      requires inFlight.entry == entry && inFlight.phase == IsPending && inFlight.started == |history|
      modifies this`history, this`known, this`loads, this`entries
      ensures Valid() && history == old(history) + [Got(key, now, FromLoader)] && Clock(start, history) == now
      ensures inFlight.started !in old(loads)
      ensures known == old(known) + {entry} && loads == old(loads)[inFlight.started := inFlight]
      ensures entries == old(entries)[key := entry]
    {
      hide IsRun, Answered, IsLoad, Traced, Shown, Fetched, InFlight, Serves, HasSettled, HasResolved, Epoch, Clock, StartsWith;
      ghost var before, e := history, Got(key, now, FromLoader);
      TracedFirst(ttlMs, start, before, e, key);
      LoadsAreOlder();
      known, loads := known + {entry}, loads[|before| := inFlight];
      entries := entries[key := entry];
      Record(e);
      forall k
        ensures ViewOf(k) == Shown(history, k)
      {
        AfterGet(before, e, k);
        if k != key {
          assert ViewOf(k) == old(ViewOf(k)) == Shown(before, k);
        }
      }
      forall n | n in loads
        ensures loads[n].started == n && loads[n].entry in known && ValidLoad(loads[n])
      {
        var load := loads[n];
        if n != |before| {
          assert load == old(loads[n]) && load.entry in old(known);
          TracedAfterGet(before, e, n, load.entry.key, load.phase, IsCached(load.entry));
        }
      }
    }

    /** A further load of a cached key. */
    method AddNext(key: string, now: int, inFlight: Load<V>)
      requires Valid() && now >= Clock(start, history) && Answered(ttlMs, history, key, now) == FromLoader
      requires key in entries && entries[key].inFlight == null && inFlight.entry == entries[key]
      requires inFlight.phase == IsPending && inFlight.started == |history|
      modifies this`history, this`loads, inFlight.entry`inFlight
      ensures Valid() && history == old(history) + [Got(key, now, FromLoader)] && Clock(start, history) == now
      ensures inFlight.started !in old(loads)
      ensures loads == old(loads)[inFlight.started := inFlight] && entries[key].inFlight == inFlight
    {
      hide IsRun, Answered, IsLoad, Traced, Shown, Fetched, InFlight, Serves, HasSettled, HasResolved, Epoch, Clock, StartsWith;
      ghost var before, e := history, Got(key, now, FromLoader);
      TracedFirst(ttlMs, start, before, e, key);
      LoadsAreOlder();
      loads := loads[|before| := inFlight];
      entries[key].inFlight := inFlight;
      Record(e);
      forall k
        ensures ViewOf(k) == Shown(history, k)
      {
        AfterGet(before, e, k);
      }
      forall n | n in loads
        ensures loads[n].started == n && loads[n].entry in known && ValidLoad(loads[n])
      {
        var load := loads[n];
        if load != inFlight {
          TracedAfterGet(before, e, n, load.entry.key, load.phase, IsCached(load.entry));
        }
      }
    }

    lemma LoadsAreOlder()
      requires Valid()
      ensures forall n :: n in loads ==> n < |history|
    {
      assert forall n :: n in loads ==> ValidLoad(loads[n]);
    }

    /** The `then` callback of a load: store its value, in an entry that may have been dropped meanwhile. */
    method OnResolved(load: Load<V>, value: Option<V>, now: int)
      requires Valid() && Has(load) && load.phase == IsPending && now >= Clock(start, history)
      modifies this`history, load`phase, load.entry`value, load.entry`fetchedAt
      ensures Valid() && history == old(history) + [Resolved(load.started, value, now)] && Clock(start, history) == now
      ensures load.phase == IsResolved && load.entry.value == value && load.entry.fetchedAt == now
    {
      hide IsRun, IsLoad, Traced, Shown, Fetched, InFlight, Serves, HasSettled, HasResolved, Epoch, Clock, StartsWith;
      ghost var before, e := history, Resolved(load.started, value, now);
      ServesOwnKey(load);
      load.entry.value := value;
      load.entry.fetchedAt := now;
      load.phase := IsResolved;
      Record(e);
      forall k
        ensures ViewOf(k) == Shown(history, k)
      {
        ShownAfter(before, e, k);
      }
      forall n | n in loads
        ensures loads[n].started == n && loads[n].entry in known && ValidLoad(loads[n])
      {
        var other := loads[n];
        TracedAfter(before, e, other.started, other.entry.key, old(other.phase), old(IsCached(other.entry)));
      }
    }

    lemma ServesOwnKey(load: Load<V>)
      requires Valid() && Has(load)
      ensures IsLoad(history, load.started)
      ensures load.phase != IsSettled ==> !HasSettled(history, load.started)
      ensures load.phase == IsPending ==> !HasResolved(history, load.started)
      ensures forall key {:trigger Serves(history, load.started, key)} ::
        Serves(history, load.started, key) <==> key == load.entry.key && IsCached(load.entry)
    {
      assert ValidLoad(load);
    }

    /** The `finally` callback of a load, after its `then` callback or after a rejection. */
    method OnSettled(load: Load<V>)
      requires Valid() && Has(load) && load.phase != IsSettled
      modifies this`history, load`phase, load.entry`inFlight
      ensures Valid() && history == old(history) + [Settled(load.started)] && Clock(start, history) == old(Clock(start, history))
      ensures load.phase == IsSettled && load.entry.inFlight == null
    {
      hide IsRun, IsLoad, Traced, Shown, Fetched, InFlight, Serves, HasSettled, HasResolved, Epoch, Clock, StartsWith;
      ghost var before, e := history, Settled(load.started);
      ServesOwnKey(load);
      if load.entry.inFlight == load {
        load.entry.inFlight := null;
      }
      load.phase := IsSettled;
      Record(e);
      forall k
        ensures ViewOf(k) == Shown(history, k)
      {
        ShownAfter(before, e, k);
      }
      forall n | n in loads
        ensures loads[n].started == n && loads[n].entry in known && ValidLoad(loads[n])
      {
        var other := loads[n];
        TracedAfter(before, e, other.started, other.entry.key, old(other.phase), old(IsCached(other.entry)));
      }
    }

    method Clear()
      requires Valid()
      modifies this`entries, this`history
      ensures Valid() && history == old(history) + [Cleared] && Clock(start, history) == old(Clock(start, history))
      ensures entries == map[] && forall n: nat, key :: !Serves(history, n, key)
    {
      hide IsRun, IsLoad, Traced, Shown, Fetched, InFlight, Serves, HasSettled, HasResolved, Epoch, Clock, StartsWith;
      ghost var before, e := history, Cleared;
      entries := map[];
      Record(e);
      ServesAfter(before, e);
      forall k
        ensures ViewOf(k) == Shown(history, k)
      {
        ShownAfter(before, e, k);
      }
      forall n | n in loads
        ensures loads[n].started == n && loads[n].entry in known && ValidLoad(loads[n])
      {
        var load := loads[n];
        TracedAfter(before, e, load.started, load.entry.key, old(load.phase), old(IsCached(load.entry)));
      }
    }

    method DeleteByPrefix(prefix: string)
      requires Valid()
      modifies this`entries, this`history
      ensures Valid() && history == old(history) + [DeletedPrefix(prefix)] && Clock(start, history) == old(Clock(start, history))
      ensures forall n: nat, key :: Serves(history, n, key) <==> !StartsWith(key, prefix) && Serves(old(history), n, key)
      ensures entries == map key | key in old(entries) && !StartsWith(key, prefix) :: old(entries)[key]
    {
      hide IsRun, IsLoad, Traced, Shown, Fetched, InFlight, Serves, HasSettled, HasResolved, Epoch, Clock, StartsWith;
      ghost var before, e := history, DeletedPrefix(prefix);
      entries := map key | key in entries && !StartsWith(key, prefix) :: entries[key];
      Record(e);
      ServesAfter(before, e);
      forall k
        ensures ViewOf(k) == Shown(history, k)
      {
        ShownAfter(before, e, k);
      }
      forall n | n in loads
        ensures loads[n].started == n && loads[n].entry in known && ValidLoad(loads[n])
      {
        var load := loads[n];
        TracedAfter(before, e, load.started, load.entry.key, old(load.phase), old(IsCached(load.entry)));
      }
    }
  }
}
