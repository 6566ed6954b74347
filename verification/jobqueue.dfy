/**
 * The job queue: admission with duplicate suppression, the pull that hands the
 * front job to a consumer, the per-job timeout removal and the periodic sweep.
 * The clock is the parameter `now`; every operation is a function from the old
 * server state to the new one.
 */
module JobQueue {
  import opened Wrappers
  import opened JsStrings
  import opened Patterns
  import opened Webhook

  /** Age, in milliseconds, at which a queued job is no longer handed out. */
  const JobTimeoutMs: int := 4000
  /** Age, in milliseconds, below which a queued job with the same id makes a new one a duplicate. */
  const DuplicateWindowMs: int := 300000

  /** The ingestion channel a job arrived on: one per webhook route, plus the catch-all. */
  datatype Category = Free | Basico | Highlight | Premium | Essencial | Universal

  /** The five categories that have a per-webhook counter. */
  const CountedCategories: set<Category> := {Free, Basico, Highlight, Premium, Essencial}

  /** A queued job: the parsed job with the category the route stamped on it. */
  datatype Entry = Entry(job: Job, category: Category)

  datatype Stats = Stats(
    totalReceived: nat,
    totalProcessed: nat,
    totalFailed: nat,
    totalExpired: nat,
    lastUpdate: Option<int>,
    byWebhook: map<Category, nat>)

  datatype Server = Server(queue: seq<Entry>, stats: Stats)

  function InitialStats(): (s: Stats)
    ensures s.byWebhook.Keys == CountedCategories
  {
    Stats(0, 0, 0, 0, None, map c | c in CountedCategories :: 0)
  }

  /** Adds one to the counter of `c`; the catch-all category has none. */
  function Bump(m: map<Category, nat>, c: Category): (r: map<Category, nat>)
    ensures r.Keys == m.Keys
    ensures c in m ==> r[c] == m[c] + 1
    ensures forall d | d in m && d != c :: r[d] == m[d]
  {
    if c in m then m[c := m[c] + 1] else m
  }

  // ----- admission -----

  /** `queue.some(j => j.jobId === id && id !== null && now - j.time < 300000)`. */
  function RecentWithId(queue: seq<Entry>, id: Option<JsString>, now: int): (b: bool)
    ensures b <==> id.Some? && exists i | 0 <= i < |queue| ::
                                 queue[i].job.jobId == id && now - queue[i].job.time < DuplicateWindowMs
  {
    if |queue| == 0 then false
    else if queue[0].job.jobId == id && id.Some? && now - queue[0].job.time < DuplicateWindowMs then true
    else
      var b := RecentWithId(queue[1..], id, now);
      assert forall i | 0 < i < |queue| :: queue[i] == queue[1..][i - 1];
      b
  }

  /** The duplicate test; jobs on the highlight route are never duplicates. */
  predicate IsDuplicate(queue: seq<Entry>, job: Job, category: Category, now: int) {
    category != Highlight && RecentWithId(queue, job.jobId, now)
  }

  /**
   * `processWebhook` after the parse: a failed parse counts a failure; a
   * duplicate changes nothing; any other job goes to the back of the queue.
   */
  function Admit(s: Server, parsed: Option<Job>, category: Category, now: int): (r: Server)
    ensures parsed.None? ==> r == s.(stats := s.stats.(totalFailed := s.stats.totalFailed + 1))
    ensures parsed.Some? ==>
              var job := parsed.value;
              var dropped := && category != Highlight
                             && job.jobId.Some?
                             && exists i | 0 <= i < |s.queue| ::
                                  s.queue[i].job.jobId == job.jobId && now - s.queue[i].job.time < DuplicateWindowMs;
              && (dropped ==> r == s)
              && (!dropped ==> && r.queue == s.queue + [Entry(job, category)]
                               && r.stats.totalReceived == s.stats.totalReceived + 1
                               && r.stats.totalProcessed == s.stats.totalProcessed
                               && r.stats.totalFailed == s.stats.totalFailed
                               && r.stats.totalExpired == s.stats.totalExpired
                               && r.stats.lastUpdate == Some(now)
                               && r.stats.byWebhook == Bump(s.stats.byWebhook, category))
  {
    match parsed
    case None => s.(stats := s.stats.(totalFailed := s.stats.totalFailed + 1))
    case Some(job) =>
      if IsDuplicate(s.queue, job, category, now) then s
      else
        Server(s.queue + [Entry(job, category)],
               s.stats.(totalReceived := s.stats.totalReceived + 1,
                        byWebhook := Bump(s.stats.byWebhook, category),
                        lastUpdate := Some(now)))
  }

  /**
   * `processWebhook(req, res, category)` with the body and the clock reading
   * as parameters. A request either counts a failure, when no embed is
   * accepted, or leaves the queue alone, or appends one well-formed entry
   * and counts it as received; pulls and expiries are never counted here.
   */
  function ProcessWebhook(s: Server, body: Body, category: Category, now: int): (r: Server)
    ensures r.stats.totalProcessed == s.stats.totalProcessed && r.stats.totalExpired == s.stats.totalExpired
    ensures r.stats.totalFailed == s.stats.totalFailed + 1 <==> !exists i :: FirstAccepted(EmbedsOf(body), i, now)
    ensures r.stats.totalFailed != s.stats.totalFailed + 1 ==> r.stats.totalFailed == s.stats.totalFailed
    ensures r.queue == s.queue || |r.queue| == |s.queue| + 1
    ensures |r.queue| == |s.queue| + 1 <==> r.stats.totalReceived == s.stats.totalReceived + 1
    ensures |r.queue| != |s.queue| + 1 ==> r.stats.totalReceived == s.stats.totalReceived
    ensures |r.queue| == |s.queue| + 1 ==>
              && r.queue[..|s.queue|] == s.queue
              && r.queue[|s.queue|].category == category
              && r.queue[|s.queue|].job.time == now
              && WellFormedJob(r.queue[|s.queue|].job)
  {
    ParsedJobWellFormed(body, now);
    var r := Admit(s, ParseWebhook(body, now), category, now);
    assert |r.queue| == |s.queue| + 1 ==> r.queue[..|s.queue|] == s.queue;
    r
  }

  /**
   * A webhook grows the queue by one entry exactly when an embed is
   * accepted and its job is not a recent duplicate on this route; the new
   * entry is that embed's well-formed job, stamped with the clock reading.
   */
  lemma WebhookAdmission(s: Server, body: Body, category: Category, now: int)
    ensures var r := ProcessWebhook(s, body, category, now);
            var es := EmbedsOf(body);
            && (|r.queue| == |s.queue| + 1 <==>
                  exists i :: FirstAccepted(es, i, now) && !IsDuplicate(s.queue, ExtractEmbed(es[i], now).job, category, now))
            && (|r.queue| != |s.queue| + 1 ==> r.queue == s.queue)
            && (|r.queue| == |s.queue| + 1 ==>
                  && r.queue[..|s.queue|] == s.queue
                  && r.queue[|s.queue|].category == category
                  && r.queue[|s.queue|].job.time == now
                  && WellFormedJob(r.queue[|s.queue|].job))
  {
    ParsedJobWellFormed(body, now);
    var r := ProcessWebhook(s, body, category, now);
    if |r.queue| == |s.queue| + 1 {
      assert r.queue[..|s.queue|] == s.queue;
    }
  }

  // ----- expiry -----

  predicate IsLive(e: Entry, now: int) {
    now - e.job.time < JobTimeoutMs
  }

  /** `queue.filter(j => now - j.time < 4000)`. */
  function FilterLive(queue: seq<Entry>, now: int): (r: seq<Entry>)
    ensures |r| <= |queue|
    ensures forall k | 0 <= k < |r| :: IsLive(r[k], now)
    ensures forall e :: e in r <==> e in queue && IsLive(e, now)
  {
    if |queue| == 0 then []
    else
      var rest := FilterLive(queue[1..], now);
      assert queue == [queue[0]] + queue[1..];
      if IsLive(queue[0], now) then [queue[0]] + rest else rest
  }

  /** Filtering keeps every live entry as often as it occurs, and no expired one. */
  lemma {:induction false} FilterLiveCount(queue: seq<Entry>, now: int, e: Entry)
    ensures multiset(FilterLive(queue, now))[e] == if IsLive(e, now) then multiset(queue)[e] else 0
    decreases |queue|
  {
    if |queue| > 0 {
      FilterLiveCount(queue[1..], now, e);
      assert queue == [queue[0]] + queue[1..];
    }
  }

  /** Filtering keeps order: it distributes over concatenation. */
  lemma {:induction false} FilterLiveAppend(a: seq<Entry>, b: seq<Entry>, now: int)
    ensures FilterLive(a + b, now) == FilterLive(a, now) + FilterLive(b, now)
    decreases |a|
  {
    if |a| == 0 {
      assert a + b == b;
    } else {
      assert (a + b)[1..] == a[1..] + b;
      FilterLiveAppend(a[1..], b, now);
    }
  }

  /** The filtered queue starts with the earliest live entry. */
  lemma {:induction false} FilterLiveHead(queue: seq<Entry>, now: int)
    ensures FilterLive(queue, now) != [] ==>
              exists i | 0 <= i < |queue| ::
                && FilterLive(queue, now)[0] == queue[i]
                && IsLive(queue[i], now)
                && forall k | 0 <= k < i :: !IsLive(queue[k], now)
    decreases |queue|
  {
    if |queue| > 0 && !IsLive(queue[0], now) {
      FilterLiveHead(queue[1..], now);
      if FilterLive(queue, now) != [] {
        var i :| 0 <= i < |queue| - 1 && FilterLive(queue[1..], now)[0] == queue[1..][i]
                 && IsLive(queue[1..][i], now) && forall k | 0 <= k < i :: !IsLive(queue[1..][k], now);
        assert forall k | 0 < k <= i :: queue[k] == queue[1..][k - 1];
        assert FilterLive(queue, now)[0] == queue[i + 1];
      }
    } else if |queue| > 0 {
      assert FilterLive(queue, now)[0] == queue[0];
    }
  }

  /** The sweep run every second: drops expired entries and touches no counter. */
  function Sweep(s: Server, now: int): (r: Server)
    ensures r.stats == s.stats
    ensures forall e :: e in r.queue <==> e in s.queue && IsLive(e, now)
  {
    s.(queue := FilterLive(s.queue, now))
  }

  // ----- the pull -----

  /** What a pull gives: the new server state and the job handed out, if any. */
  datatype Pull = Pull(server: Server, job: Option<Entry>)

  /**
   * The `/get-job` handler: drops expired entries, then hands out the front
   * one. Expired entries dropped here are not counted as expired.
   */
  function GetJob(s: Server, now: int): (r: Pull)
    ensures r.job.Some? <==> exists i | 0 <= i < |s.queue| :: IsLive(s.queue[i], now)
    ensures r.job.Some? ==> IsLive(r.job.value, now)
    ensures r.job.Some? ==> multiset(r.server.queue) + multiset{r.job.value} == multiset(FilterLive(s.queue, now))
    ensures r.job.Some? ==> [r.job.value] + r.server.queue == FilterLive(s.queue, now)
    ensures r.job.None? ==> r.server.queue == [] == FilterLive(s.queue, now)
    ensures r.server.stats.totalProcessed == s.stats.totalProcessed + (if r.job.Some? then 1 else 0)
    ensures r.server.stats == s.stats.(totalProcessed := r.server.stats.totalProcessed)
  {
    var live := FilterLive(s.queue, now);
    if |live| > 0 then
      assert live == [live[0]] + live[1..];
      Pull(Server(live[1..], s.stats.(totalProcessed := s.stats.totalProcessed + 1)), Some(live[0]))
    else
      assert forall i | 0 <= i < |s.queue| :: s.queue[i] in s.queue;
      Pull(s.(queue := live), None)
  }

  /** The pull is first-in first-out: it hands out the earliest-appended live entry. */
  lemma GetJobIsFifo(s: Server, now: int)
    ensures var r := GetJob(s, now);
            r.job.Some? ==> exists i | 0 <= i < |s.queue| ::
                              && r.job.value == s.queue[i]
                              && forall k | 0 <= k < i :: !IsLive(s.queue[k], now)
  {
    FilterLiveHead(s.queue, now);
  }

  /** A job inserted at time `t` is never handed out at `now >= t + 4000`. */
  lemma NeverExpiredDelivery(s: Server, now: int)
    ensures var r := GetJob(s, now);
            r.job.Some? ==> r.job.value.job.time > now - JobTimeoutMs
  {
  }

  /** An entry once handed out is gone: its count in the queue drops. */
  lemma DeliveredLeaves(s: Server, now: int)
    ensures var r := GetJob(s, now);
            r.job.Some? ==> multiset(r.server.queue)[r.job.value] < multiset(s.queue)[r.job.value]
  {
    var r := GetJob(s, now);
    if r.job.Some? {
      var e := r.job.value;
      FilterLiveCount(s.queue, now, e);
      assert multiset(r.server.queue)[e] + 1 == multiset(FilterLive(s.queue, now))[e];
    }
  }

  /** Sweeping first changes nothing about the pull. */
  lemma SweepThenGetJob(s: Server, now: int)
    ensures GetJob(Sweep(s, now), now) == GetJob(s, now)
  {
    FilterLiveTwice(s.queue, now, now);
  }

  /** Filtering at an earlier time and then at a later one is filtering at the later one. */
  lemma {:induction false} FilterLiveTwice(queue: seq<Entry>, t1: int, t2: int)
    requires t1 <= t2
    ensures FilterLive(FilterLive(queue, t1), t2) == FilterLive(queue, t2)
    decreases |queue|
  {
    if |queue| > 0 {
      FilterLiveTwice(queue[1..], t1, t2);
      if IsLive(queue[0], t1) {
        var rest := FilterLive(queue[1..], t1);
        assert ([queue[0]] + rest)[1..] == rest;
      }
    }
  }

  /**
   * Two pulls in a row hand out entries in queue order: the second one is
   * the next entry of the queue that is live at the second pull, after
   * the first one if that is still live.
   */
  lemma SuccessivePulls(s: Server, now: int, later: int)
    requires now <= later
    ensures var r1 := GetJob(s, now);
            var r2 := GetJob(r1.server, later);
            var live := FilterLive(s.queue, later);
            var k := if r1.job.Some? && IsLive(r1.job.value, later) then 1 else 0;
            && (r1.job.Some? ==> r1.job.value == FilterLive(s.queue, now)[0])
            && (r1.job.Some? && k == 1 ==> live[0] == r1.job.value)
            && (r2.job.Some? <==> k < |live|)
            && (r2.job.Some? ==> r2.job.value == live[k])
  {
    var r1 := GetJob(s, now);
    FilterLiveTwice(s.queue, now, later);
    if r1.job.Some? {
      FilterLiveAppend([r1.job.value], r1.server.queue, later);
      assert FilterLive([r1.job.value], later) == if IsLive(r1.job.value, later) then [r1.job.value] else [];
    }
  }

  /** Sweeps are idempotent and compose: the later sweep decides. */
  lemma SweepTwice(s: Server, t1: int, t2: int)
    requires t1 <= t2
    ensures Sweep(Sweep(s, t1), t2) == Sweep(s, t2)
  {
    FilterLiveTwice(s.queue, t1, t2);
  }

  // ----- timeout removal -----

  /** The `findIndex` predicate of the timeout callback. */
  predicate TimeoutMatches(j: Entry, job: Entry) {
    || (j.job.jobId == job.job.jobId && job.job.jobId.Some?)
    || (j.job.name == job.job.name && j.job.time == job.job.time)
  }

  /** `queue.findIndex(...)`: the first matching index. */
  function FindTimedOut(queue: seq<Entry>, job: Entry): (r: Option<nat>)
    ensures r.Some? ==> r.value < |queue| && TimeoutMatches(queue[r.value], job)
    ensures r.Some? ==> forall k | 0 <= k < r.value :: !TimeoutMatches(queue[k], job)
    ensures r.None? ==> forall k | 0 <= k < |queue| :: !TimeoutMatches(queue[k], job)
  {
    if |queue| == 0 then None
    else if TimeoutMatches(queue[0], job) then Some(0)
    else
      var r := FindTimedOut(queue[1..], job);
      assert forall k | 0 < k < |queue| :: queue[k] == queue[1..][k - 1];
      match r
      case Some(i) => Some(i + 1)
      case None => None
  }

  /**
   * The callback `scheduleJobRemoval` sets for `job`, 4 seconds after admission:
   * removes the first entry with the same id, or with the same name and time,
   * and counts it as expired; with no such entry nothing changes.
   */
  function RemoveOnTimeout(s: Server, job: Entry): (r: Server)
    ensures (forall k | 0 <= k < |s.queue| :: !TimeoutMatches(s.queue[k], job)) <==> r == s
    ensures r != s ==> exists i | 0 <= i < |s.queue| ::
                         && TimeoutMatches(s.queue[i], job)
                         && (forall k | 0 <= k < i :: !TimeoutMatches(s.queue[k], job))
                         && r.queue == s.queue[..i] + s.queue[i + 1..]
    ensures r != s ==> r.stats == s.stats.(totalExpired := s.stats.totalExpired + 1)
  {
    match FindTimedOut(s.queue, job)
    case Some(i) =>
      var q := s.queue[..i] + s.queue[i + 1..];
      assert |q| < |s.queue|;
      Server(q, s.stats.(totalExpired := s.stats.totalExpired + 1))
    case None => s
  }

  // ----- the response -----

  /** The `job` object of a successful `/get-job` answer; `timestamp` stays a number. */
  datatype JobResponse = JobResponse(
    jobId: Option<JsString>,
    brainrotName: JsString,
    currentPlayers: JsString,
    maxPlayers: Option<JsString>,
    value: JsString,
    category: Category,
    timestamp: int)

  /** `players.split('/')[0]` and `players.split('/')[1]`, the latter `undefined` when there is no `/`. */
  function PlayerCounts(players: JsString): (r: (JsString, Option<JsString>))
    ensures Slash !in r.0
    ensures r.1.None? <==> Slash !in players
    ensures r.1.None? ==> r.0 == players
    ensures r.1.Some? ==> Slash !in r.1.value && r.0 + [Slash] + r.1.value <= players
    ensures r.1.Some? ==> var n := |r.0| + 1 + |r.1.value|; n == |players| || players[n] == Slash
  {
    var pieces := Split(players, Slash);
    JsStrings.JoinFirstPiece(pieces, Slash);
    if |pieces| > 1 then
      JoinSecondPiece(pieces, Slash);
      (pieces[0], Some(pieces[1]))
    else (pieces[0], None)
  }

  /**
   * The first two pieces of a join stand at its front, separated by the
   * separator, and the second one ends at the end of the join or at a separator.
   */
  lemma JoinSecondPiece(p: seq<JsString>, sep: CodeUnit)
    requires |p| > 1
    ensures p[0] + [sep] + p[1] <= Join(p, sep)
    ensures var n := |p[0]| + 1 + |p[1]|; n == |Join(p, sep)| || Join(p, sep)[n] == sep
  {
    var n := |p[0]| + 1 + |p[1]|;
    if |p| > 2 {
      var tail := Join(p[2..], sep);
      assert Join(p[1..], sep) == p[1] + [sep] + tail;
      assert Join(p, sep) == p[0] + [sep] + (p[1] + [sep] + tail);
      assert Join(p, sep)[n] == sep;
    } else {
      assert Join(p[1..], sep) == p[1];
    }
  }

  /** Shapes the handed-out entry into the answer. */
  function Respond(e: Entry): (r: JobResponse)
    ensures r.jobId == e.job.jobId && r.brainrotName == e.job.name && r.value == e.job.value
    ensures r.category == e.category && r.timestamp == e.job.time
    ensures (r.currentPlayers, r.maxPlayers) == PlayerCounts(e.job.players)
  {
    var (current, max) := PlayerCounts(e.job.players);
    JobResponse(e.job.jobId, e.job.name, current, max, e.job.value, e.category, e.job.time)
  }

  /** A `<digits>/<digits>` count splits into its two numbers, which join back to it. */
  lemma PlayerCountsOfPair(players: JsString)
    requires IsPlayersText(players)
    ensures var (current, max) := PlayerCounts(players);
            && max.Some?
            && current + [Slash] + max.value == players
            && |current| > 0 && AllOf(current, IsDigit)
            && |max.value| > 0 && AllOf(max.value, IsDigit)
  {
    var k :| 0 < k < |players| - 1 && players[k] == Slash
             && AllOf(players[..k], IsDigit) && AllOf(players[k + 1..], IsDigit);
    var pieces := [players[..k], players[k + 1..]];
    assert Slash !in pieces[0] by {
      forall m | 0 <= m < |pieces[0]| ensures pieces[0][m] != Slash { assert IsDigit(pieces[0][m]); }
    }
    assert Slash !in pieces[1] by {
      forall m | 0 <= m < |pieces[1]| ensures pieces[1][m] != Slash { assert IsDigit(pieces[1][m]); }
    }
    assert Join(pieces, Slash) == players;
    SplitJoin(pieces, Slash);
  }

  /** The sentinel `N/A` answers with current players `N` and max players `A`. */
  lemma PlayerCountsOfSentinel()
    ensures PlayerCounts(NotAvailable) == (Lit("N"), Some(Lit("A")))
  {
    var pieces := [Lit("N"), Lit("A")];
    assert Join(pieces, Slash) == NotAvailable;
    SplitJoin(pieces, Slash);
  }

  // ----- invariants across operations -----

  /** Entry `b`, later in the queue than `a`, would not have been admitted as a duplicate of `a`. */
  predicate NotDuplicateOf(a: Entry, b: Entry) {
    (b.category != Highlight && b.job.jobId.Some? && a.job.jobId == b.job.jobId) ==>
      b.job.time - a.job.time >= DuplicateWindowMs
  }

  /** No queued non-highlight job repeats the id of an earlier queued job admitted less than the window before it. */
  ghost predicate NoRecentDuplicates(q: seq<Entry>) {
    forall i, j | 0 <= i < j < |q| :: NotDuplicateOf(q[i], q[j])
  }

  /** The server state every operation keeps. */
  ghost predicate Valid(s: Server) {
    s.stats.byWebhook.Keys == CountedCategories && NoRecentDuplicates(s.queue)
  }

  lemma InitialValid()
    ensures Valid(Server([], InitialStats()))
  {
  }

  lemma {:induction false} FilterKeepsNoRecentDuplicates(q: seq<Entry>, now: int)
    requires NoRecentDuplicates(q)
    ensures NoRecentDuplicates(FilterLive(q, now))
    decreases |q|
  {
    if |q| > 0 {
      assert NoRecentDuplicates(q[1..]) by {
        forall i, j | 0 <= i < j < |q| - 1 ensures NotDuplicateOf(q[1..][i], q[1..][j]) {
          assert q[1..][i] == q[i + 1] && q[1..][j] == q[j + 1];
        }
      }
      FilterKeepsNoRecentDuplicates(q[1..], now);
      var rest := FilterLive(q[1..], now);
      if IsLive(q[0], now) {
        var r := [q[0]] + rest;
        forall i, j | 0 <= i < j < |r| ensures NotDuplicateOf(r[i], r[j]) {
          if i > 0 {
            assert r[i] == rest[i - 1] && r[j] == rest[j - 1];
          } else {
            assert r[j] in q[1..];
            var m :| 0 <= m < |q| - 1 && q[1..][m] == r[j];
            assert NotDuplicateOf(q[0], q[m + 1]);
          }
        }
      }
    }
  }

  /** Appending a job admitted at its own time, not a recent duplicate, keeps the invariant. */
  lemma AppendKeepsNoRecentDuplicates(q: seq<Entry>, job: Job, category: Category)
    requires NoRecentDuplicates(q)
    requires !IsDuplicate(q, job, category, job.time)
    ensures NoRecentDuplicates(q + [Entry(job, category)])
  {
    var r := q + [Entry(job, category)];
    forall i, j | 0 <= i < j < |r| ensures NotDuplicateOf(r[i], r[j]) {
      assert r[i] == q[i];
      if j < |q| {
        assert r[j] == q[j];
      }
    }
  }

  lemma ProcessWebhookKeepsValid(s: Server, body: Body, category: Category, now: int)
    requires Valid(s)
    ensures Valid(ProcessWebhook(s, body, category, now))
  {
    ParsedJobWellFormed(body, now);
    var parsed := ParseWebhook(body, now);
    if parsed.Some? && !IsDuplicate(s.queue, parsed.value, category, now) {
      AppendKeepsNoRecentDuplicates(s.queue, parsed.value, category);
    }
  }

  lemma GetJobKeepsValid(s: Server, now: int)
    requires Valid(s)
    ensures Valid(GetJob(s, now).server)
  {
    FilterKeepsNoRecentDuplicates(s.queue, now);
    var live := FilterLive(s.queue, now);
    if |live| > 0 {
      forall i, j | 0 <= i < j < |live| - 1 ensures NotDuplicateOf(live[1..][i], live[1..][j]) {
        assert live[1..][i] == live[i + 1] && live[1..][j] == live[j + 1];
      }
    }
  }

  lemma SweepKeepsValid(s: Server, now: int)
    requires Valid(s)
    ensures Valid(Sweep(s, now))
  {
    FilterKeepsNoRecentDuplicates(s.queue, now);
  }

  lemma RemoveOnTimeoutKeepsValid(s: Server, job: Entry)
    requires Valid(s)
    ensures Valid(RemoveOnTimeout(s, job))
  {
    var r := RemoveOnTimeout(s, job);
    if r != s {
      var i :| 0 <= i < |s.queue| && r.queue == s.queue[..i] + s.queue[i + 1..];
      RemoveAtKeepsNoRecentDuplicates(s.queue, i);
    }
  }

  /** Removing one entry keeps the no-recent-duplicates invariant. */
  lemma RemoveAtKeepsNoRecentDuplicates(q: seq<Entry>, i: nat)
    requires i < |q|
    requires NoRecentDuplicates(q)
    ensures NoRecentDuplicates(q[..i] + q[i + 1..])
  {
    var r := q[..i] + q[i + 1..];
    forall a, b | 0 <= a < b < |r| ensures NotDuplicateOf(r[a], r[b]) {
      RemoveAtIndex(q, i, a);
      RemoveAtIndex(q, i, b);
    }
  }

  lemma RemoveAtIndex(q: seq<Entry>, i: nat, a: nat)
    requires i < |q| && a < |q| - 1
    ensures (q[..i] + q[i + 1..])[a] == q[if a < i then a else a + 1]
  {
  }

  /** A resend of a queued id on a non-highlight route within the window is dropped. */
  lemma ResendIsDropped(s: Server, job: Job, c1: Category, resend: Job, c2: Category, now: int)
    requires job.jobId.Some? && resend.jobId == job.jobId
    requires c2 != Highlight
    requires now - job.time < DuplicateWindowMs
    requires !IsDuplicate(s.queue, job, c1, job.time)
    ensures var s1 := Admit(s, Some(job), c1, job.time);
            Admit(s1, Some(resend), c2, now) == s1
  {
    var s1 := Admit(s, Some(job), c1, job.time);
    assert s1.queue[|s.queue|].job == job;
  }

  /**
   * After a sweep, duplicate suppression only sees entries younger than the
   * 4000 ms lifetime, so the 300000 ms window never comes into play.
   */
  lemma SweptDuplicateWindow(s: Server, job: Job, category: Category, now: int)
    ensures IsDuplicate(Sweep(s, now).queue, job, category, now) <==>
              && category != Highlight
              && job.jobId.Some?
              && exists i | 0 <= i < |s.queue| ::
                   s.queue[i].job.jobId == job.jobId && now - s.queue[i].job.time < JobTimeoutMs
  {
    var q := Sweep(s, now).queue;
    if IsDuplicate(q, job, category, now) {
      var i :| 0 <= i < |q| && q[i].job.jobId == job.jobId && now - q[i].job.time < DuplicateWindowMs;
      assert q[i] in s.queue;
    }
    if category != Highlight && job.jobId.Some?
       && exists i | 0 <= i < |s.queue| :: s.queue[i].job.jobId == job.jobId && now - s.queue[i].job.time < JobTimeoutMs {
      var i :| 0 <= i < |s.queue| && s.queue[i].job.jobId == job.jobId && now - s.queue[i].job.time < JobTimeoutMs;
      assert s.queue[i] in q;
    }
  }

  /** An entry not in the queue is never handed out, and no operation but admission brings it back. */
  lemma AbsentStaysAbsent(s: Server, e: Entry, now: int, job: Entry)
    requires e !in s.queue
    ensures GetJob(s, now).job != Some(e)
    ensures e !in GetJob(s, now).server.queue
    ensures e !in Sweep(s, now).queue
    ensures e !in RemoveOnTimeout(s, job).queue
  {
    var live := FilterLive(s.queue, now);
    if |live| > 0 {
      assert live[0] in live;
      assert forall x | x in live[1..] :: x in live;
    }
    var r := RemoveOnTimeout(s, job);
    if r != s {
      var i :| 0 <= i < |s.queue| && r.queue == s.queue[..i] + s.queue[i + 1..];
      assert forall x | x in r.queue :: x in s.queue;
    }
  }

  /** An entry queued once is handed out at most once: after the pull it is gone. */
  lemma NoDoubleDelivery(s: Server, now: int)
    ensures var r := GetJob(s, now);
            r.job.Some? && multiset(s.queue)[r.job.value] == 1 ==> r.job.value !in r.server.queue
  {
    DeliveredLeaves(s, now);
  }
}
