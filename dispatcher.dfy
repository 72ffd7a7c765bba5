/**
 * `downloadMany`: a FIFO queue of URLs, at most `concurrency` of them in flight, each tried
 * up to `retries + 1` times, each followed by one randomised pause before its slot is freed.
 *
 * The event loop is modelled as a sequential scheduler. While the queue is not empty the
 * dispatch loop either starts the next URL (only below the limit) or lets some task in flight
 * take its next step; the order in which in-flight tasks progress is left open. A task in
 * flight is either waiting for its current download call or sleeping its pause. `idx` is the
 * shared counter every attempt takes its name number from.
 */
module Dispatcher {
  import opened Wrappers
  import opened Naming

  /** The options `downloadMany` reads, with its defaults already applied by the caller. */
  datatype Options = Options(concurrency: nat, retries: nat, delayMin: int, delayMax: int,
                             template: string, pageTitle: string)

  /** The options object as passed: `None` for a property that is `undefined`. */
  datatype GivenOptions = GivenOptions(concurrency: Option<nat>, retries: Option<nat>, delayMin: Option<int>,
                                       delayMax: Option<int>, template: Option<string>, pageTitle: Option<string>)

  const DefaultTemplate: string := "mini/{PTITLE}/P_{N0001}.{EXT}"

  function OrElse<T>(x: Option<T>, d: T): T
  {
    if x.Some? then x.value else d
  }

  /**
   * The destructuring of `options || {}` with its defaults: only an `undefined` property takes
   * the default. No options object gives four downloads at a time, two retries, pauses of 100
   * to 400 ms, the default template and the page's title.
   */
  function ApplyDefaults(given: Option<GivenOptions>, documentTitle: string): (o: Options)
    ensures given.None? || given == Some(GivenOptions(None, None, None, None, None, None)) ==>
      o == Options(4, 2, 100, 400, DefaultTemplate, documentTitle)
  {
    var g := if given.Some? then given.value else GivenOptions(None, None, None, None, None, None);
    Options(OrElse(g.concurrency, 4), OrElse(g.retries, 2), OrElse(g.delayMin, 100), OrElse(g.delayMax, 400),
            OrElse(g.template, DefaultTemplate), OrElse(g.pageTitle, documentTitle))
  }

  /** A property that is given is used as it is, even when it is 0 or empty, and the others keep their defaults. */
  lemma GivenOptionsKept(g: GivenOptions, documentTitle: string)
    ensures var o := ApplyDefaults(Some(g), documentTitle);
      && (g.concurrency.Some? ==> o.concurrency == g.concurrency.value) && (g.concurrency.None? ==> o.concurrency == 4)
      && (g.retries.Some? ==> o.retries == g.retries.value) && (g.retries.None? ==> o.retries == 2)
      && (g.delayMin.Some? ==> o.delayMin == g.delayMin.value) && (g.delayMin.None? ==> o.delayMin == 100)
      && (g.delayMax.Some? ==> o.delayMax == g.delayMax.value) && (g.delayMax.None? ==> o.delayMax == 400)
      && (g.template.Some? ==> o.template == g.template.value) && (g.template.None? ==> o.template == DefaultTemplate)
      && (g.pageTitle.Some? ==> o.pageTitle == g.pageTitle.value) && (g.pageTitle.None? ==> o.pageTitle == documentTitle)
  {
  }

  /**
   * What the page cannot see: the URL library, `document.title`, whether try `k` of URL `t`
   * succeeds (`chrome.downloads.download` resolves), and the `Math.random()` drawn for URL `t`'s pause.
   */
  datatype World = World(lib: UrlLib, documentTitle: string, succeeds: (nat, nat) -> bool, random: nat -> real)

  /** Where URL `t` is: still queued, waiting for try `try`, sleeping its pause, or finished. */
  datatype Phase = Queued | Downloading(try: nat) | Pausing | Done

  /** One `chrome.downloads.download` call: URL `task`, its try number and the file name it asks for. */
  datatype Attempt = Attempt(task: nat, try: nat, name: string)

  /** One pacing `sleep`: URL `task`, its length, and how many attempts had been made when it began. */
  datatype Pause = Pause(task: nat, ms: int, after: nat)

  /** `runOne(u).finally(() => { active--; })` for URL `task`, run when `after` attempts had been made. */
  datatype Release = Release(task: nat, after: nat)

  predicate InFlight(p: Phase)
  {
    p.Downloading? || p.Pausing?
  }

  predicate Paused(p: Phase)
  {
    p.Pausing? || p.Done?
  }

  // ---------------------------------------------------------------------------
  // The pause and the number of tries

  /**
   * `Math.floor(r * (delayMax - delayMin + 1)) + delayMin`: for a draw in [0, 1) the pause lies
   * in [delayMin, delayMax]; with `delayMin > delayMax` nothing clamps it and it lies in
   * [delayMax + 1, delayMin].
   */
  function PacingWait(r: real, delayMin: int, delayMax: int): (ms: int)
    ensures 0.0 <= r < 1.0 && delayMin <= delayMax ==> delayMin <= ms <= delayMax
    ensures 0.0 <= r < 1.0 && delayMax < delayMin ==> delayMax + 1 <= ms <= delayMin
  {
    var d := delayMax - delayMin + 1;
    assert 0.0 <= r < 1.0 && 0 < d ==> 0.0 <= r * (d as real) < d as real;
    assert 0.0 <= r < 1.0 && d <= 0 ==> d as real <= r * (d as real) <= 0.0;
    (r * (d as real)).Floor + delayMin
  }

  /** The number of tries URL `t` gets once try `k` has been made: the first success or the last retry ends it. */
  function AttemptsFrom(w: World, retries: nat, t: nat, k: nat): (n: nat)
    requires k <= retries
    ensures k + 1 <= n <= retries + 1
    decreases retries - k
  {
    if w.succeeds(t, k) || !(k < retries) then k + 1 else AttemptsFrom(w, retries, t, k + 1)
  }

  /** The number of download calls `runOne` makes for URL `t`. */
  function Tries(w: World, retries: nat, t: nat): (n: nat)
    ensures 1 <= n <= retries + 1
  {
    AttemptsFrom(w, retries, t, 0)
  }

  /** From try `k` on: every try before the last fails, and the last succeeds or is try `retries`. */
  lemma {:induction false} AttemptsFromMeaning(w: World, retries: nat, t: nat, k: nat)
    requires k <= retries
    ensures var n := AttemptsFrom(w, retries, t, k);
      && (forall j :: k <= j < n - 1 ==> !w.succeeds(t, j))
      && (w.succeeds(t, n - 1) || n - 1 == retries)
    decreases retries - k
  {
    if !(w.succeeds(t, k) || !(k < retries)) {
      AttemptsFromMeaning(w, retries, t, k + 1);
    }
  }

  /**
   * URL `t` is tried `n` times exactly when tries 0 to n - 2 fail and try n - 1 succeeds or is
   * the last one `retries` allows.
   */
  lemma TriesMeaning(w: World, retries: nat, t: nat, n: nat)
    requires 1 <= n <= retries + 1
    ensures Tries(w, retries, t) == n <==>
              (forall j :: 0 <= j < n - 1 ==> !w.succeeds(t, j)) && (w.succeeds(t, n - 1) || n - 1 == retries)
  {
    AttemptsFromMeaning(w, retries, t, 0);
  }

  // ---------------------------------------------------------------------------
  // Counting

  function CountTries(attempts: seq<Attempt>, t: nat): nat
  {
    if attempts == [] then 0
    else CountTries(attempts[..|attempts| - 1], t) + (if attempts[|attempts| - 1].task == t then 1 else 0)
  }

  function CountPauses(pauses: seq<Pause>, t: nat): nat
  {
    if pauses == [] then 0
    else CountPauses(pauses[..|pauses| - 1], t) + (if pauses[|pauses| - 1].task == t then 1 else 0)
  }

  function CountReleases(releases: seq<Release>, t: nat): nat
  {
    if releases == [] then 0
    else CountReleases(releases[..|releases| - 1], t) + (if releases[|releases| - 1].task == t then 1 else 0)
  }

  /** The URLs dispatched: the attempts that are a URL's first try. */
  function Started(attempts: seq<Attempt>): nat
  {
    if attempts == [] then 0
    else Started(attempts[..|attempts| - 1]) + (if attempts[|attempts| - 1].try == 0 then 1 else 0)
  }

  /** The slots released while at most `n` attempts had been made. */
  function ReleasedBy(releases: seq<Release>, n: nat): nat
  {
    if releases == [] then 0
    else ReleasedBy(releases[..|releases| - 1], n) + (if releases[|releases| - 1].after <= n then 1 else 0)
  }

  lemma CountTriesSnoc(attempts: seq<Attempt>, a: Attempt, t: nat)
    ensures CountTries(attempts + [a], t) == CountTries(attempts, t) + (if a.task == t then 1 else 0)
  {
    assert (attempts + [a])[..|attempts|] == attempts;
  }

  lemma CountPausesSnoc(pauses: seq<Pause>, p: Pause, t: nat)
    ensures CountPauses(pauses + [p], t) == CountPauses(pauses, t) + (if p.task == t then 1 else 0)
  {
    assert (pauses + [p])[..|pauses|] == pauses;
  }

  lemma CountReleasesSnoc(releases: seq<Release>, r: Release, t: nat)
    ensures CountReleases(releases + [r], t) == CountReleases(releases, t) + (if r.task == t then 1 else 0)
  {
    assert (releases + [r])[..|releases|] == releases;
  }

  lemma StartedSnoc(attempts: seq<Attempt>, a: Attempt)
    ensures Started(attempts + [a]) == Started(attempts) + (if a.try == 0 then 1 else 0)
  {
    assert (attempts + [a])[..|attempts|] == attempts;
  }

  lemma ReleasedBySnoc(releases: seq<Release>, r: Release, n: nat)
    ensures ReleasedBy(releases + [r], n) == ReleasedBy(releases, n) + (if r.after <= n then 1 else 0)
  {
    assert (releases + [r])[..|releases|] == releases;
  }

  /** Once `n` attempts have been made, every release made so far is counted. */
  lemma {:induction false} ReleasedByAll(releases: seq<Release>, n: nat)
    requires forall j :: 0 <= j < |releases| ==> releases[j].after <= n
    ensures ReleasedBy(releases, n) == |releases|
  {
    if releases != [] {
      var m := |releases| - 1;
      assert forall j :: 0 <= j < m ==> releases[..m][j] == releases[j];
      ReleasedByAll(releases[..m], n);
    }
  }

  /** No pause is counted for a URL that no pause names. */
  lemma {:induction false} CountPausesNone(pauses: seq<Pause>, t: nat)
    requires forall j :: 0 <= j < |pauses| ==> pauses[j].task != t
    ensures CountPauses(pauses, t) == 0
  {
    if pauses != [] {
      CountPausesNone(pauses[..|pauses| - 1], t);
    }
  }

  /** The slots taken: tasks in flight. */
  function Load(phase: seq<Phase>): nat
  {
    if phase == [] then 0 else Load(phase[..|phase| - 1]) + (if InFlight(phase[|phase| - 1]) then 1 else 0)
  }

  function Remaining(p: Phase, retries: nat): nat
  {
    match p
    case Queued => retries + 3
    case Downloading(k) => if k <= retries then retries - k + 2 else 2
    case Pausing => 1
    case Done => 0
  }

  /** The steps left before every URL is done. */
  function Work(phase: seq<Phase>, retries: nat): nat
  {
    if phase == [] then 0 else Work(phase[..|phase| - 1], retries) + Remaining(phase[|phase| - 1], retries)
  }

  lemma {:induction false} LoadUpdate(phase: seq<Phase>, t: nat, p: Phase)
    requires t < |phase|
    ensures Load(phase[t := p]) + (if InFlight(phase[t]) then 1 else 0) == Load(phase) + (if InFlight(p) then 1 else 0)
  {
    var n := |phase|;
    if t < n - 1 {
      assert phase[t := p][..n - 1] == phase[..n - 1][t := p];
      LoadUpdate(phase[..n - 1], t, p);
    } else {
      assert phase[t := p][..n - 1] == phase[..n - 1];
    }
  }

  lemma {:induction false} WorkUpdate(phase: seq<Phase>, retries: nat, t: nat, p: Phase)
    requires t < |phase|
    ensures Work(phase[t := p], retries) + Remaining(phase[t], retries) == Work(phase, retries) + Remaining(p, retries)
  {
    var n := |phase|;
    if t < n - 1 {
      assert phase[t := p][..n - 1] == phase[..n - 1][t := p];
      WorkUpdate(phase[..n - 1], retries, t, p);
    } else {
      assert phase[t := p][..n - 1] == phase[..n - 1];
    }
  }

  /** A positive load has a task in flight. */
  lemma {:induction false} LoadPositive(phase: seq<Phase>)
    requires Load(phase) > 0
    ensures exists t :: 0 <= t < |phase| && InFlight(phase[t])
  {
    var n := |phase|;
    if !InFlight(phase[n - 1]) {
      LoadPositive(phase[..n - 1]);
      var t :| 0 <= t < n - 1 && InFlight(phase[..n - 1][t]);
      assert InFlight(phase[t]);
    }
  }

  /** No load: no task in flight. */
  lemma {:induction false} LoadZero(phase: seq<Phase>)
    requires Load(phase) == 0
    ensures forall t :: 0 <= t < |phase| ==> !InFlight(phase[t])
  {
    var n := |phase|;
    if n > 0 {
      LoadZero(phase[..n - 1]);
      assert forall t :: 0 <= t < n - 1 ==> phase[t] == phase[..n - 1][t];
    }
  }

  lemma {:induction false} QueuedLoad(n: nat)
    ensures Load(seq(n, _ => Queued)) == 0
  {
    if n > 0 {
      assert seq(n, _ => Queued)[..n - 1] == seq(n - 1, _ => Queued);
      QueuedLoad(n - 1);
    }
  }

  // ---------------------------------------------------------------------------
  // The scheduler's invariant

  /**
   * The file name attempt number `k` of URL `u` asks for: `parseTemplate(template, u, k, pageTitle)`.
   * The steps and the invariant take the namer as a value, so that their proofs need not look
   * inside the template.
   */
  function NameOf(o: Options, w: World): (string, nat) -> string
  {
    (u: string, k: nat) => ParseTemplate(w.lib, w.documentTitle, o.template, u, k, o.pageTitle)
  }

  /** The queue is the not yet dispatched tail of `urls`, which are exactly the queued tasks. */
  ghost predicate QueueInv(urls: seq<string>, queue: seq<string>, phase: seq<Phase>)
  {
    && |phase| == |urls| && |queue| <= |urls| && queue == urls[|urls| - |queue|..]
    && forall t :: 0 <= t < |urls| ==> (phase[t] == Queued <==> t >= |urls| - |queue|)
  }

  ghost predicate LoadInv(o: Options, phase: seq<Phase>, active: nat)
  {
    active == Load(phase) && active <= o.concurrency
  }

  /** How many tries a task in phase `p` has had, and how many it will have in all. */
  ghost predicate TaskTries(o: Options, w: World, t: nat, p: Phase, count: nat)
  {
    match p
    case Queued => count == 0
    case Downloading(k) =>
      count == k + 1 && k <= o.retries && Tries(w, o.retries, t) == AttemptsFrom(w, o.retries, t, k)
    case _ => count == Tries(w, o.retries, t)
  }

  ghost predicate TriesInv(o: Options, w: World, phase: seq<Phase>, attempts: seq<Attempt>)
  {
    forall t :: 0 <= t < |phase| ==> TaskTries(o, w, t, phase[t], CountTries(attempts, t))
  }

  /** Attempt k is of a dispatched URL, takes the name number k, and its try number counts that URL's earlier attempts. */
  ghost predicate LogInv(nm: (string, nat) -> string, urls: seq<string>, dispatched: nat, attempts: seq<Attempt>)
  {
    && dispatched <= |urls|
    && (forall k :: 0 <= k < |attempts| ==> attempts[k].task < dispatched)
    && NamesInv(nm, urls, attempts)
    && TryNumbersInv(attempts)
  }

  ghost predicate NamesInv(nm: (string, nat) -> string, urls: seq<string>, attempts: seq<Attempt>)
  {
    forall k :: 0 <= k < |attempts| ==>
      attempts[k].task < |urls| && attempts[k].name == nm(urls[attempts[k].task], k)
  }

  ghost predicate TryNumbersInv(attempts: seq<Attempt>)
  {
    forall k :: 0 <= k < |attempts| ==> attempts[k].try == CountTries(attempts[..k], attempts[k].task)
  }

  /** First tries come in the order of the URLs. */
  ghost predicate FifoInv(attempts: seq<Attempt>)
  {
    forall k1, k2 :: 0 <= k1 < k2 < |attempts| && attempts[k1].try == 0 && attempts[k2].try == 0 ==>
      attempts[k1].task < attempts[k2].task
  }

  /** One pause for each URL that has finished its tries, after all of them, of the drawn length. */
  ghost predicate PauseInv(o: Options, w: World, phase: seq<Phase>, attempts: seq<Attempt>, pauses: seq<Pause>)
  {
    && (forall t :: 0 <= t < |phase| ==> CountPauses(pauses, t) == if Paused(phase[t]) then 1 else 0)
    && (forall j :: 0 <= j < |pauses| ==>
          && pauses[j].task < |phase| && Paused(phase[pauses[j].task])
          && pauses[j].ms == PacingWait(w.random(pauses[j].task), o.delayMin, o.delayMax)
          && pauses[j].after <= |attempts|
          && forall k :: 0 <= k < |attempts| && attempts[k].task == pauses[j].task ==> k < pauses[j].after)
  }

  /**
   * Each download call is made with at most `concurrency` slots taken: the URLs whose first try
   * has been made, less the slots released before it.
   */
  ghost predicate SlotBound(o: Options, attempts: seq<Attempt>, releases: seq<Release>)
  {
    forall k :: 0 <= k < |attempts| ==> Started(attempts[..k + 1]) <= ReleasedBy(releases, k) + o.concurrency
  }

  /**
   * One release for each URL that is done, after all its tries and its pause, in the order they
   * were made; the slots taken are the URLs started less those released.
   */
  ghost predicate ReleaseInv(o: Options, phase: seq<Phase>, attempts: seq<Attempt>, pauses: seq<Pause>,
                             releases: seq<Release>, active: nat)
  {
    && Started(attempts) == |releases| + active
    && (forall t :: 0 <= t < |phase| ==> CountReleases(releases, t) == if phase[t] == Done then 1 else 0)
    && (forall j :: 0 <= j < |releases| ==>
          && releases[j].task < |phase| && phase[releases[j].task] == Done
          && releases[j].after <= |attempts|
          && (forall k :: 0 <= k < |attempts| && attempts[k].task == releases[j].task ==> k < releases[j].after)
          && forall i :: 0 <= i < |pauses| && pauses[i].task == releases[j].task ==> pauses[i].after <= releases[j].after)
    && (forall j1, j2 :: 0 <= j1 < j2 < |releases| ==> releases[j1].after <= releases[j2].after)
    && SlotBound(o, attempts, releases)
  }

  /**
   * The scheduler's state: the closure variables `queue`, `active` and `idx`, the phase of each
   * URL's `runOne` promise, and the download calls, pauses and slot releases made so far.
   */
  datatype State = State(queue: seq<string>, active: int, idx: nat, phase: seq<Phase>,
                         attempts: seq<Attempt>, pauses: seq<Pause>, releases: seq<Release>)

  ghost predicate Inv(urls: seq<string>, o: Options, w: World, nm: (string, nat) -> string, s: State)
  {
    && QueueInv(urls, s.queue, s.phase)
    && s.active >= 0 && LoadInv(o, s.phase, s.active as nat)
    && s.idx == |s.attempts|
    && TriesInv(o, w, s.phase, s.attempts)
    && LogInv(nm, urls, |urls| - |s.queue|, s.attempts)
    && FifoInv(s.attempts)
    && PauseInv(o, w, s.phase, s.attempts, s.pauses)
    && ReleaseInv(o, s.phase, s.attempts, s.pauses, s.releases, s.active as nat)
  }

  // ---------------------------------------------------------------------------
  // The steps

  /** `let active = 0, idx = 0; const queue = urls.slice()`. */
  function Start(urls: seq<string>): (s: State)
    ensures s.queue == urls && |s.phase| == |urls| && s.active == 0 && s.idx == 0
    ensures forall t :: 0 <= t < |urls| ==> s.phase[t] == Queued
    ensures s.attempts == [] && s.pauses == [] && s.releases == []
  {
    State(urls, 0, 0, seq(|urls|, _ => Queued), [], [], [])
  }

  /**
   * One turn of the dispatch loop below the limit: `active++`, `u = queue.shift()`, and
   * `runOne(u)` runs up to its first `await`, so its first try takes the name number `idx++`.
   */
  function Dispatch(urls: seq<string>, nm: (string, nat) -> string, s: State): (r: State)
    requires 0 < |s.queue| <= |urls| == |s.phase|
    ensures r.queue == s.queue[1..] && r.active == s.active + 1 && r.idx == s.idx + 1
    ensures |r.phase| == |s.phase| && r.phase[|urls| - |s.queue|] == Downloading(0)
    ensures forall u :: 0 <= u < |s.phase| && u != |urls| - |s.queue| ==> r.phase[u] == s.phase[u]
    ensures r.attempts == s.attempts + [Attempt(|urls| - |s.queue|, 0, nm(s.queue[0], s.idx))]
    ensures r.pauses == s.pauses && r.releases == s.releases
  {
    var t := |urls| - |s.queue|;
    s.(queue := s.queue[1..], active := s.active + 1, idx := s.idx + 1,
       phase := s.phase[t := Downloading(0)],
       attempts := s.attempts + [Attempt(t, 0, nm(s.queue[0], s.idx))])
  }

  /**
   * URL `t`'s promise takes its next step. A finished download call that succeeded, or failed
   * with no retry left, draws the pause; one that failed with `iTry < retries` calls
   * `runOne(u, iTry + 1)`, whose try takes the name number `idx++`. A finished pause settles the
   * promise and `finally` does `active--`.
   */
  function Progress(urls: seq<string>, o: Options, w: World, nm: (string, nat) -> string, s: State, t: nat): (r: State)
    requires t < |s.phase| == |urls| && InFlight(s.phase[t])
    ensures r.queue == s.queue && |r.phase| == |s.phase|
    ensures forall u :: 0 <= u < |s.phase| && u != t ==> r.phase[u] == s.phase[u]
    ensures s.phase[t].Pausing? ==>
      (r.phase[t] == Done && r.active == s.active - 1 && r.attempts == s.attempts && r.pauses == s.pauses
       && r.releases == s.releases + [Release(t, s.idx)])
    ensures s.phase[t].Downloading? ==>
      (r.active == s.active && r.releases == s.releases
       && (r.phase[t] == Pausing <==> w.succeeds(t, s.phase[t].try) || s.phase[t].try >= o.retries))
    ensures s.phase[t].Downloading? && r.phase[t] == Pausing ==>
      (r.attempts == s.attempts
       && r.pauses == s.pauses + [Pause(t, PacingWait(w.random(t), o.delayMin, o.delayMax), s.idx)])
    ensures s.phase[t].Downloading? && r.phase[t] != Pausing ==>
      (r.phase[t] == Downloading(s.phase[t].try + 1)
       && r.attempts == s.attempts + [Attempt(t, s.phase[t].try + 1, nm(urls[t], s.idx))] && r.pauses == s.pauses)
  {
    match s.phase[t]
    case Downloading(k) =>
      if w.succeeds(t, k) || !(k < o.retries) then
        s.(phase := s.phase[t := Pausing],
           pauses := s.pauses + [Pause(t, PacingWait(w.random(t), o.delayMin, o.delayMax), s.idx)])
      else
        s.(phase := s.phase[t := Downloading(k + 1)], idx := s.idx + 1,
           attempts := s.attempts + [Attempt(t, k + 1, nm(urls[t], s.idx))])
    case Pausing =>
      s.(phase := s.phase[t := Done], active := s.active - 1, releases := s.releases + [Release(t, s.idx)])
  }

  // ---------------------------------------------------------------------------
  // The invariant's parts, one step at a time

  lemma QueueAfterDispatch(urls: seq<string>, queue: seq<string>, phase: seq<Phase>)
    requires QueueInv(urls, queue, phase) && |queue| > 0
    ensures QueueInv(urls, queue[1..], phase[|urls| - |queue| := Downloading(0)])
  {
    assert queue[1..] == urls[|urls| - |queue| + 1..];
  }

  lemma QueueAfterPhase(urls: seq<string>, queue: seq<string>, phase: seq<Phase>, t: nat, p: Phase)
    requires QueueInv(urls, queue, phase) && t < |phase| && phase[t] != Queued && p != Queued
    ensures QueueInv(urls, queue, phase[t := p])
  {
  }

  lemma TriesAfterAttempt(o: Options, w: World, phase: seq<Phase>, attempts: seq<Attempt>, t: nat, p: Phase, a: Attempt)
    requires TriesInv(o, w, phase, attempts) && t < |phase| && a.task == t
    requires TaskTries(o, w, t, p, CountTries(attempts, t) + 1)
    ensures TriesInv(o, w, phase[t := p], attempts + [a])
  {
    forall t' | 0 <= t' < |phase|
      ensures TaskTries(o, w, t', phase[t := p][t'], CountTries(attempts + [a], t'))
    {
      CountTriesSnoc(attempts, a, t');
    }
  }

  /** A failed try below the limit: the next try is counted, and the tries left are the same. */
  lemma TriesAfterRetry(o: Options, w: World, t: nat, k: nat, count: nat)
    requires TaskTries(o, w, t, Downloading(k), count) && !w.succeeds(t, k) && k < o.retries
    ensures TaskTries(o, w, t, Downloading(k + 1), count + 1)
  {
  }

  lemma TriesAfterPhase(o: Options, w: World, phase: seq<Phase>, attempts: seq<Attempt>, t: nat, p: Phase)
    requires TriesInv(o, w, phase, attempts) && t < |phase|
    requires TaskTries(o, w, t, p, CountTries(attempts, t))
    ensures TriesInv(o, w, phase[t := p], attempts)
  {
  }

  lemma LogAfterAttempt(nm: (string, nat) -> string, urls: seq<string>, d: nat, d': nat, attempts: seq<Attempt>, a: Attempt)
    requires LogInv(nm, urls, d, attempts) && d <= d' <= |urls| && a.task < d'
    requires a.name == nm(urls[a.task], |attempts|) && a.try == CountTries(attempts, a.task)
    ensures LogInv(nm, urls, d', attempts + [a])
  {
    NamesAfterAttempt(nm, urls, attempts, a);
    TryNumbersAfterAttempt(attempts, a);
  }

  lemma NamesAfterAttempt(nm: (string, nat) -> string, urls: seq<string>, attempts: seq<Attempt>, a: Attempt)
    requires NamesInv(nm, urls, attempts) && a.task < |urls| && a.name == nm(urls[a.task], |attempts|)
    ensures NamesInv(nm, urls, attempts + [a])
  {
  }

  lemma TryNumbersAfterAttempt(attempts: seq<Attempt>, a: Attempt)
    requires TryNumbersInv(attempts) && a.try == CountTries(attempts, a.task)
    ensures TryNumbersInv(attempts + [a])
  {
    var attempts' := attempts + [a];
    forall k | 0 <= k < |attempts'|
      ensures attempts'[k].try == CountTries(attempts'[..k], attempts'[k].task)
    {
      if k < |attempts| {
        assert attempts'[..k] == attempts[..k];
      } else {
        assert attempts'[..k] == attempts;
      }
    }
  }

  lemma FifoAfterAttempt(attempts: seq<Attempt>, a: Attempt)
    requires FifoInv(attempts)
    requires a.try == 0 ==> forall k :: 0 <= k < |attempts| ==> attempts[k].task < a.task
    ensures FifoInv(attempts + [a])
  {
  }

  /** An attempt of a task that has not paused, moving to a phase that has not paused either. */
  lemma PausesAfterAttempt(o: Options, w: World, phase: seq<Phase>, attempts: seq<Attempt>, pauses: seq<Pause>,
                           t: nat, p: Phase, a: Attempt)
    requires PauseInv(o, w, phase, attempts, pauses) && t < |phase| && !Paused(phase[t]) && !Paused(p) && a.task == t
    ensures PauseInv(o, w, phase[t := p], attempts + [a], pauses)
  {
  }

  lemma PausesAfterPause(o: Options, w: World, phase: seq<Phase>, attempts: seq<Attempt>, pauses: seq<Pause>,
                         t: nat, q: Pause)
    requires PauseInv(o, w, phase, attempts, pauses) && t < |phase| && !Paused(phase[t])
    requires q == Pause(t, PacingWait(w.random(t), o.delayMin, o.delayMax), |attempts|)
    ensures PauseInv(o, w, phase[t := Pausing], attempts, pauses + [q])
  {
    var phase' := phase[t := Pausing];
    forall t' | 0 <= t' < |phase'|
      ensures CountPauses(pauses + [q], t') == if Paused(phase'[t']) then 1 else 0
    {
      CountPausesSnoc(pauses, q, t');
    }
  }

  lemma PausesAfterFinish(o: Options, w: World, phase: seq<Phase>, attempts: seq<Attempt>, pauses: seq<Pause>, t: nat)
    requires PauseInv(o, w, phase, attempts, pauses) && t < |phase| && phase[t] == Pausing
    ensures PauseInv(o, w, phase[t := Done], attempts, pauses)
  {
  }

  /** A try of a URL that is not done; a first try takes one more slot, within the limit. */
  lemma ReleasesAfterAttempt(o: Options, phase: seq<Phase>, attempts: seq<Attempt>, pauses: seq<Pause>,
                             releases: seq<Release>, active: nat, t: nat, p: Phase, a: Attempt, active': nat)
    requires ReleaseInv(o, phase, attempts, pauses, releases, active)
    requires t < |phase| && phase[t] != Done && p != Done && a.task == t
    requires active' == active + (if a.try == 0 then 1 else 0) && active' <= o.concurrency
    ensures ReleaseInv(o, phase[t := p], attempts + [a], pauses, releases, active')
  {
    var attempts' := attempts + [a];
    StartedSnoc(attempts, a);
    ReleasedByAll(releases, |attempts|);
    forall k | 0 <= k < |attempts'|
      ensures Started(attempts'[..k + 1]) <= ReleasedBy(releases, k) + o.concurrency
    {
      if k < |attempts| {
        assert attempts'[..k + 1] == attempts[..k + 1];
      } else {
        assert attempts'[..k + 1] == attempts';
      }
    }
  }

  lemma ReleasesAfterPause(o: Options, phase: seq<Phase>, attempts: seq<Attempt>, pauses: seq<Pause>,
                           releases: seq<Release>, active: nat, t: nat, q: Pause)
    requires ReleaseInv(o, phase, attempts, pauses, releases, active)
    requires t < |phase| && phase[t] != Done && q.task == t
    ensures ReleaseInv(o, phase[t := Pausing], attempts, pauses + [q], releases, active)
  {
  }

  /** The end of URL `t`'s pause frees its slot, after every attempt made so far and after its pause. */
  lemma ReleasesAfterFinish(o: Options, phase: seq<Phase>, attempts: seq<Attempt>, pauses: seq<Pause>,
                            releases: seq<Release>, active: nat, t: nat)
    requires ReleaseInv(o, phase, attempts, pauses, releases, active)
    requires t < |phase| && phase[t] == Pausing && active >= 1
    requires forall i :: 0 <= i < |pauses| ==> pauses[i].after <= |attempts|
    ensures ReleaseInv(o, phase[t := Done], attempts, pauses, releases + [Release(t, |attempts|)], active - 1)
  {
    var r := Release(t, |attempts|);
    var phase' := phase[t := Done];
    forall t' | 0 <= t' < |phase'|
      ensures CountReleases(releases + [r], t') == if phase'[t'] == Done then 1 else 0
    {
      CountReleasesSnoc(releases, r, t');
    }
    forall k | 0 <= k < |attempts|
      ensures Started(attempts[..k + 1]) <= ReleasedBy(releases + [r], k) + o.concurrency
    {
      ReleasedBySnoc(releases, r, k);
    }
  }

  // ---------------------------------------------------------------------------
  // Each step keeps the invariant

  lemma StartKeeps(urls: seq<string>, o: Options, w: World, nm: (string, nat) -> string)
    ensures Inv(urls, o, w, nm, Start(urls))
  {
    QueuedLoad(|urls|);
    var s := Start(urls);
    forall t | 0 <= t < |urls|
      ensures CountPauses(s.pauses, t) == 0
    {
    }
  }

  /** Dispatching keeps the invariant and uses up one step of work. */
  lemma DispatchKeeps(urls: seq<string>, o: Options, w: World, nm: (string, nat) -> string, s: State)
    requires Inv(urls, o, w, nm, s) && |s.queue| > 0 && s.active < o.concurrency
    ensures Inv(urls, o, w, nm, Dispatch(urls, nm, s))
    ensures Work(Dispatch(urls, nm, s).phase, o.retries) < Work(s.phase, o.retries)
  {
    DispatchKeepsSlots(urls, o, w, nm, s);
    DispatchKeepsLog(urls, o, w, nm, s);
    DispatchKeepsOrder(urls, o, w, nm, s);
    DispatchKeepsReleases(urls, o, w, nm, s);
  }

  /** The release log after a dispatch: one more URL started, within the limit. */
  lemma DispatchKeepsReleases(urls: seq<string>, o: Options, w: World, nm: (string, nat) -> string, s: State)
    requires QueueInv(urls, s.queue, s.phase) && s.active >= 0
    requires ReleaseInv(o, s.phase, s.attempts, s.pauses, s.releases, s.active as nat)
    requires |s.queue| > 0 && s.active < o.concurrency
    ensures var s' := Dispatch(urls, nm, s);
      ReleaseInv(o, s'.phase, s'.attempts, s'.pauses, s'.releases, s'.active as nat)
  {
    var t := |urls| - |s.queue|;
    var a := Dispatch(urls, nm, s).attempts[|s.attempts|];
    assert Dispatch(urls, nm, s).attempts == s.attempts + [a];
    assert s.phase[t] == Queued;
    ReleasesAfterAttempt(o, s.phase, s.attempts, s.pauses, s.releases, s.active as nat, t, Downloading(0), a,
                         s.active as nat + 1);
  }

  /** The queue, the slots and the try counts after a dispatch. */
  lemma DispatchKeepsSlots(urls: seq<string>, o: Options, w: World, nm: (string, nat) -> string, s: State)
    requires QueueInv(urls, s.queue, s.phase) && s.active >= 0 && LoadInv(o, s.phase, s.active as nat)
    requires TriesInv(o, w, s.phase, s.attempts)
    requires |s.queue| > 0 && s.active < o.concurrency
    ensures var s' := Dispatch(urls, nm, s);
      && QueueInv(urls, s'.queue, s'.phase) && s'.active >= 0 && LoadInv(o, s'.phase, s'.active as nat)
      && TriesInv(o, w, s'.phase, s'.attempts)
      && Work(s'.phase, o.retries) < Work(s.phase, o.retries)
  {
    var t := |urls| - |s.queue|;
    var a := Dispatch(urls, nm, s).attempts[|s.attempts|];
    assert Dispatch(urls, nm, s).attempts == s.attempts + [a];
    assert s.phase[t] == Queued;
    LoadUpdate(s.phase, t, Downloading(0));
    WorkUpdate(s.phase, o.retries, t, Downloading(0));
    QueueAfterDispatch(urls, s.queue, s.phase);
    TriesAfterAttempt(o, w, s.phase, s.attempts, t, Downloading(0), a);
  }

  /** The log of download calls after a dispatch. */
  lemma DispatchKeepsLog(urls: seq<string>, o: Options, w: World, nm: (string, nat) -> string, s: State)
    requires QueueInv(urls, s.queue, s.phase) && TriesInv(o, w, s.phase, s.attempts) && s.idx == |s.attempts|
    requires LogInv(nm, urls, |urls| - |s.queue|, s.attempts)
    requires |s.queue| > 0
    ensures var s' := Dispatch(urls, nm, s);
      s'.idx == |s'.attempts| && LogInv(nm, urls, |urls| - |s'.queue|, s'.attempts)
  {
    var t := |urls| - |s.queue|;
    var a := Attempt(t, 0, nm(s.queue[0], s.idx));
    assert s.phase[t] == Queued && s.queue[0] == urls[t];
    assert TaskTries(o, w, t, s.phase[t], CountTries(s.attempts, t));
    LogAfterAttempt(nm, urls, t, t + 1, s.attempts, a);
  }

  /** First tries and pauses after a dispatch. */
  lemma DispatchKeepsOrder(urls: seq<string>, o: Options, w: World, nm: (string, nat) -> string, s: State)
    requires QueueInv(urls, s.queue, s.phase) && LogInv(nm, urls, |urls| - |s.queue|, s.attempts) && FifoInv(s.attempts)
    requires PauseInv(o, w, s.phase, s.attempts, s.pauses)
    requires |s.queue| > 0
    ensures var s' := Dispatch(urls, nm, s);
      FifoInv(s'.attempts) && PauseInv(o, w, s'.phase, s'.attempts, s'.pauses)
  {
    var t := |urls| - |s.queue|;
    var a := Dispatch(urls, nm, s).attempts[|s.attempts|];
    assert Dispatch(urls, nm, s).attempts == s.attempts + [a];
    assert s.phase[t] == Queued;
    FifoAfterAttempt(s.attempts, a);
    PausesAfterAttempt(o, w, s.phase, s.attempts, s.pauses, t, Downloading(0), a);
  }

  /** A step of a task in flight keeps the invariant and uses up one step of work. */
  lemma ProgressKeeps(urls: seq<string>, o: Options, w: World, nm: (string, nat) -> string, s: State, t: nat)
    requires Inv(urls, o, w, nm, s) && t < |s.phase| && InFlight(s.phase[t])
    ensures Inv(urls, o, w, nm, Progress(urls, o, w, nm, s, t))
    ensures Work(Progress(urls, o, w, nm, s, t).phase, o.retries) < Work(s.phase, o.retries)
  {
    match s.phase[t]
    case Downloading(k) =>
      if w.succeeds(t, k) || !(k < o.retries) {
        PauseStartKeeps(urls, o, w, nm, s, t, k);
      } else {
        RetryKeeps(urls, o, w, nm, s, t, k);
      }
    case Pausing =>
      FinishKeeps(urls, o, w, nm, s, t);
  }

  lemma RetryKeeps(urls: seq<string>, o: Options, w: World, nm: (string, nat) -> string, s: State, t: nat, k: nat)
    requires Inv(urls, o, w, nm, s) && t < |s.phase| && s.phase[t] == Downloading(k)
    requires !(w.succeeds(t, k) || !(k < o.retries))
    ensures Inv(urls, o, w, nm, Progress(urls, o, w, nm, s, t))
    ensures Work(Progress(urls, o, w, nm, s, t).phase, o.retries) < Work(s.phase, o.retries)
  {
    var a := Attempt(t, k + 1, nm(urls[t], s.idx));
    var p := Downloading(k + 1);
    var s' := s.(phase := s.phase[t := p], idx := s.idx + 1, attempts := s.attempts + [a]);
    assert Progress(urls, o, w, nm, s, t) == s';
    assert QueueInv(urls, s'.queue, s'.phase) by { QueueAfterPhase(urls, s.queue, s.phase, t, p); }
    assert LoadInv(o, s'.phase, s'.active as nat) by { LoadUpdate(s.phase, t, p); }
    assert TriesInv(o, w, s'.phase, s'.attempts) by {
      TriesAfterRetry(o, w, t, k, CountTries(s.attempts, t));
      TriesAfterAttempt(o, w, s.phase, s.attempts, t, p, a);
    }
    assert LogInv(nm, urls, |urls| - |s'.queue|, s'.attempts) by {
      LogAfterAttempt(nm, urls, |urls| - |s.queue|, |urls| - |s.queue|, s.attempts, a);
    }
    assert FifoInv(s'.attempts) by { FifoAfterAttempt(s.attempts, a); }
    assert PauseInv(o, w, s'.phase, s'.attempts, s'.pauses) by {
      PausesAfterAttempt(o, w, s.phase, s.attempts, s.pauses, t, p, a);
    }
    assert ReleaseInv(o, s'.phase, s'.attempts, s'.pauses, s'.releases, s'.active as nat) by {
      ReleasesAfterAttempt(o, s.phase, s.attempts, s.pauses, s.releases, s.active as nat, t, p, a, s.active as nat);
    }
    WorkUpdate(s.phase, o.retries, t, p);
  }

  lemma PauseStartKeeps(urls: seq<string>, o: Options, w: World, nm: (string, nat) -> string, s: State, t: nat, k: nat)
    requires Inv(urls, o, w, nm, s) && t < |s.phase| && s.phase[t] == Downloading(k)
    requires w.succeeds(t, k) || !(k < o.retries)
    ensures Inv(urls, o, w, nm, Progress(urls, o, w, nm, s, t))
    ensures Work(Progress(urls, o, w, nm, s, t).phase, o.retries) < Work(s.phase, o.retries)
  {
    var q := Pause(t, PacingWait(w.random(t), o.delayMin, o.delayMax), s.idx);
    var s' := s.(phase := s.phase[t := Pausing], pauses := s.pauses + [q]);
    assert Progress(urls, o, w, nm, s, t) == s';
    assert QueueInv(urls, s'.queue, s'.phase) by { QueueAfterPhase(urls, s.queue, s.phase, t, Pausing); }
    assert LoadInv(o, s'.phase, s'.active as nat) by { LoadUpdate(s.phase, t, Pausing); }
    assert TriesInv(o, w, s'.phase, s'.attempts) by { TriesAfterPhase(o, w, s.phase, s.attempts, t, Pausing); }
    assert PauseInv(o, w, s'.phase, s'.attempts, s'.pauses) by {
      PausesAfterPause(o, w, s.phase, s.attempts, s.pauses, t, q);
    }
    assert ReleaseInv(o, s'.phase, s'.attempts, s'.pauses, s'.releases, s'.active as nat) by {
      ReleasesAfterPause(o, s.phase, s.attempts, s.pauses, s.releases, s.active as nat, t, q);
    }
    WorkUpdate(s.phase, o.retries, t, Pausing);
  }

  lemma FinishKeeps(urls: seq<string>, o: Options, w: World, nm: (string, nat) -> string, s: State, t: nat)
    requires Inv(urls, o, w, nm, s) && t < |s.phase| && s.phase[t] == Pausing
    ensures Inv(urls, o, w, nm, Progress(urls, o, w, nm, s, t))
    ensures Work(Progress(urls, o, w, nm, s, t).phase, o.retries) < Work(s.phase, o.retries)
  {
    LoadUpdate(s.phase, t, Done);
    WorkUpdate(s.phase, o.retries, t, Done);
    QueueAfterPhase(urls, s.queue, s.phase, t, Done);
    TriesAfterPhase(o, w, s.phase, s.attempts, t, Done);
    PausesAfterFinish(o, w, s.phase, s.attempts, s.pauses, t);
    ReleasesAfterFinish(o, s.phase, s.attempts, s.pauses, s.releases, s.active as nat, t);
  }

  /** With the queue empty and no slot taken, every URL is done. */
  lemma AllDone(urls: seq<string>, o: Options, w: World, nm: (string, nat) -> string, s: State)
    requires Inv(urls, o, w, nm, s) && |s.queue| == 0 && s.active == 0
    ensures forall t :: 0 <= t < |urls| ==> s.phase[t] == Done
    ensures forall t :: 0 <= t < |urls| ==> CountTries(s.attempts, t) == Tries(w, o.retries, t)
    ensures forall t :: 0 <= t < |urls| ==> CountPauses(s.pauses, t) == 1
    ensures forall t :: 0 <= t < |urls| ==> CountReleases(s.releases, t) == 1
  {
    LoadZero(s.phase);
    forall t | 0 <= t < |urls|
      ensures s.phase[t] == Done
    {
      assert !InFlight(s.phase[t]) && s.phase[t] != Queued;
    }
    forall t | 0 <= t < |urls|
      ensures CountTries(s.attempts, t) == Tries(w, o.retries, t)
    {
      assert TaskTries(o, w, t, s.phase[t], CountTries(s.attempts, t));
    }
  }

  // ---------------------------------------------------------------------------
  // downloadMany

  /**
   * What `downloadMany(urls, options)` does, as seen in its logs:
   * - URL t is tried exactly `Tries` times;
   * - attempt k is of a URL of the list and asks for `parseTemplate(template, url, k, pageTitle)`;
   * - tries are numbered per URL, and first tries follow the order of the list;
   * - each URL pauses once, after all its tries, for `PacingWait` of its draw;
   * - each URL's slot is released once, after all its tries and its pause, in the order made;
   * - each download call is made with at most `concurrency` URLs started and not yet released.
   */
  ghost predicate ManyOutcome(urls: seq<string>, o: Options, w: World,
                              attempts: seq<Attempt>, pauses: seq<Pause>, releases: seq<Release>)
  {
    && (forall t :: 0 <= t < |urls| ==> CountTries(attempts, t) == Tries(w, o.retries, t))
    && (forall k :: 0 <= k < |attempts| ==>
          attempts[k].task < |urls| &&
          attempts[k].name == ParseTemplate(w.lib, w.documentTitle, o.template, urls[attempts[k].task], k, o.pageTitle))
    && TryNumbersInv(attempts) && FifoInv(attempts)
    && (forall t :: 0 <= t < |urls| ==> CountPauses(pauses, t) == 1)
    && (forall j :: 0 <= j < |pauses| ==>
          && pauses[j].task < |urls|
          && pauses[j].ms == PacingWait(w.random(pauses[j].task), o.delayMin, o.delayMax)
          && forall k :: 0 <= k < |attempts| && attempts[k].task == pauses[j].task ==> k < pauses[j].after <= |attempts|)
    && (forall t :: 0 <= t < |urls| ==> CountReleases(releases, t) == 1)
    && (forall j :: 0 <= j < |releases| ==>
          && releases[j].task < |urls| && releases[j].after <= |attempts|
          && (forall k :: 0 <= k < |attempts| && attempts[k].task == releases[j].task ==> k < releases[j].after)
          && forall i :: 0 <= i < |pauses| && pauses[i].task == releases[j].task ==> pauses[i].after <= releases[j].after)
    && (forall j1, j2 :: 0 <= j1 < j2 < |releases| ==> releases[j1].after <= releases[j2].after)
    && SlotBound(o, attempts, releases)
  }

  /**
   * `downloadMany(urls, options)`. The dispatch loop runs while the queue is not empty: below
   * the limit it may start the next URL, and while any URL is in flight it may instead let one
   * of them take its next step (the dispatch loop sleeping its 50 ms). The second loop lets the
   * URLs in flight finish. The result is the log of download calls, of pauses and of slot releases.
   *
   * With `concurrency` 0 and a URL queued the source spins for ever; it is excluded.
   */
  method DownloadMany(urls: seq<string>, o: Options, w: World)
    returns (attempts: seq<Attempt>, pauses: seq<Pause>, releases: seq<Release>)
    requires o.concurrency >= 1 || urls == []
    ensures ManyOutcome(urls, o, w, attempts, pauses, releases)
  {
    var nm := NameOf(o, w);
    var s := Start(urls);
    StartKeeps(urls, o, w, nm);
    while |s.queue| > 0
      invariant Inv(urls, o, w, nm, s)
      decreases Work(s.phase, o.retries)
    {
      var dispatchNow: bool :| (dispatchNow ==> s.active < o.concurrency) && (!dispatchNow ==> s.active > 0);
      if dispatchNow {
        DispatchKeeps(urls, o, w, nm, s);
        s := Dispatch(urls, nm, s);
      } else {
        LoadPositive(s.phase);
        var t :| 0 <= t < |s.phase| && InFlight(s.phase[t]);
        ProgressKeeps(urls, o, w, nm, s, t);
        s := Progress(urls, o, w, nm, s, t);
      }
    }
    while s.active > 0
      invariant Inv(urls, o, w, nm, s) && |s.queue| == 0
      decreases Work(s.phase, o.retries)
    {
      LoadPositive(s.phase);
      var t :| 0 <= t < |s.phase| && InFlight(s.phase[t]);
      ProgressKeeps(urls, o, w, nm, s, t);
      s := Progress(urls, o, w, nm, s, t);
    }
    AllDone(urls, o, w, nm, s);
    attempts, pauses, releases := s.attempts, s.pauses, s.releases;
  }
}
