/**
 * Specification of the paged fetch of one muscle's exercises, with its retry
 * counter, exponential backoff, restart after an exception and page assembly.
 *
 * The HTTP layer is a finite script of responses, consumed one per request.
 * `Fetch` is the behaviour of the fetch loop as a state machine over that script;
 * the lemmas below state what it does.
 */
module Fetching {
  import opened Wrappers

  /** The command's `$maxRetries`. */
  const MaxRetries: nat := 3
  /** The fixed pause, in seconds, after each later page. */
  const PagePause: nat := 2

  type Retry = n: nat | n >= 1 witness 1

  /** A raw record of the upstream API, with the fields the command reads. */
  datatype Record = Record(
    exerciseId: string,
    name: string,
    gifUrl: string,
    targetMuscles: seq<string>,
    bodyParts: seq<string>,
    equipments: seq<string>,
    secondaryMuscles: seq<string>,
    instructions: seq<string>)

  /** A decoded page body: `data`, and `metadata.totalPages` and `metadata.nextPage`. */
  datatype Page = Page(data: seq<Record>, totalPages: int, nextPage: Option<string>)

  /** What one request yields: a status with its decoded body, or an exception
      (transport failure, or a body that cannot be read). */
  datatype Response = Reply(status: int, body: Page) | Thrown

  /** A request target: the muscle's first page, or a `nextPage` link. */
  datatype Url = MuscleUrl(muscle: string) | NextPageUrl(link: string)

  /** A sleep: the backoff before the given retry, or the pause after a later page. */
  datatype Wait = Backoff(retry: Retry) | Pause

  /** How a fetch ends: with records, by rethrowing, or because the script ran out. */
  datatype Fetched = Records(list: seq<Record>) | Raised | ScriptEnded

  /** A whole fetch: its result, the requests issued and the sleeps taken, in order. */
  datatype Run = Run(result: Fetched, gets: seq<Url>, waits: seq<Wait>)

  /** Where the loop is: about to request the first page, or paging with the records
      so far, the next link, the current page number and page 1's `totalPages`. */
  datatype Phase =
    | FirstPage
    | LaterPages(acc: seq<Record>, next: Option<string>, current: int, total: int)

  predicate Successful(status: int) {
    200 <= status < 300
  }

  /** PHP truthiness of a nullable string: null, "" and "0" are false. */
  predicate Truthy(s: Option<string>) {
    s.Some? && s.value != "" && s.value != "0"
  }

  function Pow2(n: nat): (p: nat)
    ensures p >= 1
  {
    if n == 0 then 1 else 2 * Pow2(n - 1)
  }

  /** Seconds slept for one wait: `retryDelay * 2^(retry - 1)`, or the page pause. */
  function Seconds(retryDelay: nat, w: Wait): nat {
    match w
    case Backoff(n) => retryDelay * Pow2(n - 1)
    case Pause => PagePause
  }

  function Durations(retryDelay: nat, ws: seq<Wait>): seq<nat> {
    seq(|ws|, i requires 0 <= i < |ws| => Seconds(retryDelay, ws[i]))
  }

  lemma DurationsAppend(retryDelay: nat, a: seq<Wait>, b: seq<Wait>)
    ensures Durations(retryDelay, a + b) == Durations(retryDelay, a) + Durations(retryDelay, b)
  {
  }

  /** A run preceded by earlier requests and sleeps. */
  function Prefix(gets: seq<Url>, waits: seq<Wait>, r: Run): Run {
    Run(r.result, gets + r.gets, waits + r.waits)
  }

  /** The request the loop issues next in phase `ph`. */
  function Target(muscle: string, ph: Phase): Url
    requires ph.LaterPages? ==> ph.next.Some?
  {
    if ph.FirstPage? then MuscleUrl(muscle) else NextPageUrl(ph.next.value)
  }

  /** The loop goes on and issues a request (the two `while` conditions). */
  predicate Continues(n: nat, ph: Phase) {
    match ph
    case FirstPage => n < MaxRetries
    case LaterPages(_, next, current, total) => Truthy(next) && current < total
  }

  /** What one response does to the loop: stop with a result, or go on after the
      given sleeps with a new retry count and phase. */
  datatype Move = Stop(result: Fetched) | Go(waits: seq<Wait>, n: nat, ph: Phase)

  /** The loop's reaction to one response in phase `ph` at retry count `n`. */
  function React(n: nat, ph: Phase, resp: Response): Move {
    match resp
    case Thrown =>
      // the `catch`: rethrow once the budget is spent, else back off and restart at page 1
      if n + 1 >= MaxRetries then Stop(Raised) else Go([Backoff(n + 1)], n + 1, FirstPage)
    case Reply(status, page) =>
      if status == 429 then
        // retry the same page; the inner loop does not look at the budget
        Go([Backoff(n + 1)], n + 1, ph)
      else if !Successful(status) then
        Stop(Records(if ph.FirstPage? then [] else ph.acc))
      else if ph.FirstPage? then
        Go([], n, LaterPages(page.data, page.nextPage, 1, page.totalPages))
      else
        Go([Pause], n, LaterPages(ph.acc + page.data, page.nextPage, ph.current + 1, ph.total))
  }

  /** The fetch loop, from retry count `n` in phase `ph`, over the responses `rs`. */
  function Fetch(muscle: string, retryDelay: nat, n: nat, ph: Phase, rs: seq<Response>): (r: Run)
    ensures |r.waits| <= |r.gets| <= |rs|
    ensures r.result == ScriptEnded ==> |r.gets| == |rs|
    decreases |rs|
  {
    if !Continues(n, ph) then
      // the outer loop gives up with nothing, or the inner loop has finished paging
      Run(Records(if ph.FirstPage? then [] else ph.acc), [], [])
    else if rs == [] then
      Run(ScriptEnded, [], [])
    else
      var u := Target(muscle, ph);
      match React(n, ph, rs[0])
      case Stop(result) => Run(result, [u], [])
      case Go(w, n', ph') => Prefix([u], w, Fetch(muscle, retryDelay, n', ph', rs[1..]))
  }

  /** A whole fetch of one muscle, starting with no retries on page 1. */
  function FetchMuscle(muscle: string, retryDelay: nat, rs: seq<Response>): Run {
    Fetch(muscle, retryDelay, 0, FirstPage, rs)
  }

  /** One step that goes on: the run is the step's request and sleeps followed by the
      run from the new retry count and phase. */
  lemma FetchGoes(muscle: string, retryDelay: nat, n: nat, ph: Phase, rs: seq<Response>)
    requires Continues(n, ph) && rs != [] && React(n, ph, rs[0]).Go?
    ensures var mv := React(n, ph, rs[0]);
            Fetch(muscle, retryDelay, n, ph, rs) == Prefix([Target(muscle, ph)], mv.waits, Fetch(muscle, retryDelay, mv.n, mv.ph, rs[1..]))
  {
  }

  /** The only first-page request a fetch makes is its own muscle's. */
  lemma {:induction false} FetchRequestsOnlyItsMuscle(muscle: string, retryDelay: nat, n: nat, ph: Phase, rs: seq<Response>)
    ensures forall u :: u in Fetch(muscle, retryDelay, n, ph, rs).gets && u.MuscleUrl? ==> u.muscle == muscle
    decreases |rs|
  {
    if Continues(n, ph) && rs != [] && React(n, ph, rs[0]).Go? {
      var mv := React(n, ph, rs[0]);
      FetchGoes(muscle, retryDelay, n, ph, rs);
      FetchRequestsOnlyItsMuscle(muscle, retryDelay, mv.n, mv.ph, rs[1..]);
    }
  }

  // ---------------------------------------------------------------------------
  // Backoff schedule.

  /** The retry numbers of the backoffs among `ws`, in order. */
  function Retries(ws: seq<Wait>): seq<nat> {
    if ws == [] then []
    else (if ws[0].Backoff? then [ws[0].retry as nat] else []) + Retries(ws[1..])
  }

  /** The seconds of the backoffs among `ws`, in order. */
  function BackoffSeconds(retryDelay: nat, ws: seq<Wait>): seq<nat> {
    if ws == [] then []
    else (if ws[0].Backoff? then [Seconds(retryDelay, ws[0])] else []) + BackoffSeconds(retryDelay, ws[1..])
  }

  lemma RetriesCons(w: Wait, tail: seq<Wait>)
    ensures Retries([w] + tail) == (if w.Backoff? then [w.retry as nat] else []) + Retries(tail)
  {
    assert ([w] + tail)[1..] == tail;
  }

  /** `rt` is k, k+1, k+2, ... */
  predicate CountsFrom(rt: seq<nat>, k: nat) {
    forall i :: 0 <= i < |rt| ==> rt[i] == k + i
  }

  lemma ConsecutiveCons(k: nat, tail: seq<nat>)
    requires CountsFrom(tail, k + 1)
    ensures CountsFrom([k] + tail, k)
  {
    forall i | 1 <= i < |[k] + tail|
      ensures ([k] + tail)[i] == k + i
    {
      assert ([k] + tail)[i] == tail[i - 1];
    }
  }

  lemma {:induction false} RetriesAppend(a: seq<Wait>, b: seq<Wait>)
    ensures Retries(a + b) == Retries(a) + Retries(b)
  {
    if a == [] {
      assert a + b == b;
    } else {
      assert (a + b)[0] == a[0] && (a + b)[1..] == a[1..] + b;
      RetriesAppend(a[1..], b);
    }
  }

  /** A step backs off at most once, with the next retry number, and counts exactly
      the backoffs it sleeps. */
  lemma ReactCounts(n: nat, ph: Phase, resp: Response)
    requires React(n, ph, resp).Go?
    ensures var mv := React(n, ph, resp);
            && mv.n == n + |Retries(mv.waits)|
            && CountsFrom(Retries(mv.waits), n + 1)
  {
    var mv := React(n, ph, resp);
    assert mv.waits == [] || mv.waits == [Pause] || mv.waits == [Backoff(n + 1)];
    if mv.waits != [] {
      RetriesCons(mv.waits[0], []);
      assert [mv.waits[0]] + [] == mv.waits;
    }
  }

  lemma ConsecutiveAppend(a: seq<nat>, b: seq<nat>, k: nat)
    requires CountsFrom(a, k) && CountsFrom(b, k + |a|)
    ensures CountsFrom(a + b, k)
  {
    forall i | |a| <= i < |a + b|
      ensures (a + b)[i] == k + i
    {
      assert (a + b)[i] == b[i - |a|];
    }
  }

  /** From retry count `n`, the backoffs carry the numbers n+1, n+2, ... without a gap,
      over all pages: the counter is shared by both loops and never reset. */
  lemma {:induction false} RetriesAreConsecutive(muscle: string, retryDelay: nat, n: nat, ph: Phase, rs: seq<Response>)
    ensures CountsFrom(Retries(Fetch(muscle, retryDelay, n, ph, rs).waits), n + 1)
    decreases |rs|
  {
    if Continues(n, ph) && rs != [] && React(n, ph, rs[0]).Go? {
      var mv := React(n, ph, rs[0]);
      var t := Fetch(muscle, retryDelay, mv.n, mv.ph, rs[1..]);
      FetchGoes(muscle, retryDelay, n, ph, rs);
      RetriesAreConsecutive(muscle, retryDelay, mv.n, mv.ph, rs[1..]);
      ReactCounts(n, ph, rs[0]);
      RetriesAppend(mv.waits, t.waits);
      ConsecutiveAppend(Retries(mv.waits), Retries(t.waits), n + 1);
    }
  }

  lemma {:induction false} BackoffSecondsOfRetries(retryDelay: nat, ws: seq<Wait>)
    ensures var rt := Retries(ws);
            var bs := BackoffSeconds(retryDelay, ws);
            |bs| == |rt| && forall i :: 0 <= i < |rt| ==> rt[i] >= 1 && bs[i] == retryDelay * Pow2(rt[i] - 1)
  {
    if ws != [] {
      var rt, bs := Retries(ws), BackoffSeconds(retryDelay, ws);
      var rt', bs' := Retries(ws[1..]), BackoffSeconds(retryDelay, ws[1..]);
      BackoffSecondsOfRetries(retryDelay, ws[1..]);
      if ws[0].Backoff? {
        assert rt == [ws[0].retry as nat] + rt' && bs == [Seconds(retryDelay, ws[0])] + bs';
        forall i | 1 <= i < |rt|
          ensures rt[i] >= 1 && bs[i] == retryDelay * Pow2(rt[i] - 1)
        {
          assert rt[i] == rt'[i - 1] && bs[i] == bs'[i - 1];
        }
      } else {
        assert rt == rt' && bs == bs';
      }
    }
  }

  /** The i-th backoff of a muscle's fetch (counting from 0, across all its pages)
      sleeps `retryDelay * 2^i`: base, 2 x base, 4 x base, ... */
  lemma BackoffSchedule(muscle: string, retryDelay: nat, rs: seq<Response>)
    ensures var bs := BackoffSeconds(retryDelay, FetchMuscle(muscle, retryDelay, rs).waits);
            forall i :: 0 <= i < |bs| ==> bs[i] == retryDelay * Pow2(i)
  {
    var ws := FetchMuscle(muscle, retryDelay, rs).waits;
    var rt := Retries(ws);
    var bs := BackoffSeconds(retryDelay, ws);
    RetriesAreConsecutive(muscle, retryDelay, 0, FirstPage, rs);
    BackoffSecondsOfRetries(retryDelay, ws);
    forall i | 0 <= i < |bs|
      ensures bs[i] == retryDelay * Pow2(i)
    {
      assert rt[i] == i + 1;
    }
  }

  /** A fetch only rethrows once the budget is spent: the last response was an
      exception and, counting the retries before `n`, at least two retries were slept. */
  lemma {:induction false} RaisesOnlyWhenBudgetSpent(muscle: string, retryDelay: nat, n: nat, ph: Phase, rs: seq<Response>)
    requires Fetch(muscle, retryDelay, n, ph, rs).result == Raised
    ensures var r := Fetch(muscle, retryDelay, n, ph, rs);
            |r.gets| >= 1 && rs[|r.gets| - 1] == Thrown && n + |Retries(r.waits)| >= MaxRetries - 1
    decreases |rs|
  {
    var r := Fetch(muscle, retryDelay, n, ph, rs);
    assert Continues(n, ph) && rs != [];
    var mv := React(n, ph, rs[0]);
    if mv.Go? {
      var t := Fetch(muscle, retryDelay, mv.n, mv.ph, rs[1..]);
      FetchGoes(muscle, retryDelay, n, ph, rs);
      RaisesOnlyWhenBudgetSpent(muscle, retryDelay, mv.n, mv.ph, rs[1..]);
      ReactCounts(n, ph, rs[0]);
      RetriesAppend(mv.waits, t.waits);
      assert rs[|r.gets| - 1] == rs[1..][|t.gets| - 1];
    } else {
      assert r.waits == [];
    }
  }

  /** Three rate-limit answers on page 1 end the outer loop: sleeps of base, 2 x base
      and 4 x base, then an empty result and no exception. */
  lemma ThreeRateLimitsOnFirstPage(muscle: string, retryDelay: nat, b1: Page, b2: Page, b3: Page, rest: seq<Response>)
    ensures var r := FetchMuscle(muscle, retryDelay, [Reply(429, b1), Reply(429, b2), Reply(429, b3)] + rest);
            && r.result == Records([])
            && r.gets == [MuscleUrl(muscle), MuscleUrl(muscle), MuscleUrl(muscle)]
            && Durations(retryDelay, r.waits) == [retryDelay, 2 * retryDelay, 4 * retryDelay]
  {
    var rs := [Reply(429, b1), Reply(429, b2), Reply(429, b3)] + rest;
    var u := MuscleUrl(muscle);
    var r3 := Fetch(muscle, retryDelay, 3, FirstPage, rs[3..]);
    assert r3 == Run(Records([]), [], []);
    var r2 := Fetch(muscle, retryDelay, 2, FirstPage, rs[2..]);
    assert rs[2..][0] == Reply(429, b3) && rs[2..][1..] == rs[3..];
    assert r2 == Prefix([u], [Backoff(3)], r3);
    var r1 := Fetch(muscle, retryDelay, 1, FirstPage, rs[1..]);
    assert rs[1..][0] == Reply(429, b2) && rs[1..][1..] == rs[2..];
    assert r1 == Prefix([u], [Backoff(2)], r2);
    assert FetchMuscle(muscle, retryDelay, rs) == Prefix([u], [Backoff(1)], r1);
    assert Pow2(2) == 4;
  }

  /** Three exceptions on page 1: the third is rethrown after sleeps of base and 2 x base. */
  lemma ThreeExceptionsOnFirstPage(muscle: string, retryDelay: nat, rest: seq<Response>)
    ensures var r := FetchMuscle(muscle, retryDelay, [Thrown, Thrown, Thrown] + rest);
            && r.result == Raised
            && r.gets == [MuscleUrl(muscle), MuscleUrl(muscle), MuscleUrl(muscle)]
            && Durations(retryDelay, r.waits) == [retryDelay, 2 * retryDelay]
  {
    var rs := [Thrown, Thrown, Thrown] + rest;
    var u := MuscleUrl(muscle);
    var r2 := Fetch(muscle, retryDelay, 2, FirstPage, rs[2..]);
    assert rs[2..][0] == Thrown;
    assert r2 == Run(Raised, [u], []);
    var r1 := Fetch(muscle, retryDelay, 1, FirstPage, rs[1..]);
    assert rs[1..][0] == Thrown && rs[1..][1..] == rs[2..];
    assert r1 == Prefix([u], [Backoff(2)], r2);
    assert FetchMuscle(muscle, retryDelay, rs) == Prefix([u], [Backoff(1)], r1);
  }

  /** An exception on a later page, within budget, backs off and starts the muscle over
      from page 1: the pages fetched so far are dropped. */
  lemma RestartAfterException(muscle: string, retryDelay: nat, n: nat, acc: seq<Record>, next: Option<string>,
                              current: int, total: int, rest: seq<Response>)
    requires Truthy(next) && current < total && n + 1 < MaxRetries
    ensures Fetch(muscle, retryDelay, n, LaterPages(acc, next, current, total), [Thrown] + rest)
         == Prefix([NextPageUrl(next.value)], [Backoff(n + 1)], Fetch(muscle, retryDelay, n + 1, FirstPage, rest))
  {
    assert ([Thrown] + rest)[1..] == rest;
  }

  /** A failing status other than 429 ends the fetch: with nothing on page 1, with the
      pages fetched so far on a later page. */
  lemma FailureStatusEndsFetch(muscle: string, retryDelay: nat, n: nat, ph: Phase, status: int, body: Page, rest: seq<Response>)
    requires Continues(n, ph) && status != 429 && !Successful(status)
    ensures Fetch(muscle, retryDelay, n, ph, [Reply(status, body)] + rest)
         == Run(Records(if ph.FirstPage? then [] else ph.acc), [Target(muscle, ph)], [])
  {
  }

  // ---------------------------------------------------------------------------
  // Pagination assembly.

  function Concat(ps: seq<Page>): seq<Record> {
    if ps == [] then [] else ps[0].data + Concat(ps[1..])
  }

  /** The `nextPage` links of `ps`, as requests. */
  function Links(ps: seq<Page>): seq<Url>
    requires forall i :: 0 <= i < |ps| ==> ps[i].nextPage.Some?
  {
    if ps == [] then [] else [NextPageUrl(ps[0].nextPage.value)] + Links(ps[1..])
  }

  function Pauses(k: nat): (ws: seq<Wait>)
    ensures |ws| == k && forall i :: 0 <= i < k ==> ws[i] == Pause
  {
    if k == 0 then [] else [Pause] + Pauses(k - 1)
  }

  /** The responses serving `ps` successfully, with the given statuses. */
  predicate Serves(rs: seq<Response>, ps: seq<Page>) {
    |rs| == |ps| && forall i :: 0 <= i < |rs| ==> rs[i].Reply? && Successful(rs[i].status) && rs[i].body == ps[i]
  }

  /** The stop rule of the inner loop, for a series of k pages whose first declares
      `totalPages`: pages 1..k-1 carry a link and lie below the page count, page k
      has no link or reaches the count. */
  predicate IsSeries(ps: seq<Page>) {
    && |ps| >= 1
    && (forall i :: 0 <= i < |ps| - 1 ==> Truthy(ps[i].nextPage) && i + 1 < ps[0].totalPages)
    && (!Truthy(ps[|ps| - 1].nextPage) || |ps| >= ps[0].totalPages)
  }

  lemma {:induction false} ConcatAppend(a: seq<Page>, b: seq<Page>)
    ensures Concat(a + b) == Concat(a) + Concat(b)
  {
    if a == [] {
      assert a + b == b;
    } else {
      assert (a + b)[0] == a[0];
      assert (a + b)[1..] == a[1..] + b;
      ConcatAppend(a[1..], b);
      assert Concat(a + b) == a[0].data + (Concat(a[1..]) + Concat(b));
    }
  }

  lemma {:induction false} LaterPagesOfSeries(muscle: string, retryDelay: nat, n: nat, ps: seq<Page>, i: nat,
                                              acc: seq<Record>, rs: seq<Response>, rest: seq<Response>)
    requires IsSeries(ps) && 1 <= i <= |ps|
    requires acc == Concat(ps[..i])
    requires Serves(rs, ps[i..])
    ensures forall j :: i - 1 <= j < |ps| - 1 ==> ps[j].nextPage.Some?
    ensures Fetch(muscle, retryDelay, n, LaterPages(acc, ps[i - 1].nextPage, i, ps[0].totalPages), rs + rest)
         == Run(Records(Concat(ps)), Links(ps[i - 1..|ps| - 1]), Pauses(|ps| - i))
    decreases |ps| - i
  {
    var ph := LaterPages(acc, ps[i - 1].nextPage, i, ps[0].totalPages);
    if i == |ps| {
      assert ps[..i] == ps;
      assert ps[i - 1..|ps| - 1] == [];
    } else {
      assert Continues(n, ph);
      assert (rs + rest)[0] == rs[0] && rs[0] == Reply(rs[0].status, ps[i]);
      assert (rs + rest)[1..] == rs[1..] + rest;
      assert ps[..i + 1] == ps[..i] + [ps[i]];
      ConcatAppend(ps[..i], [ps[i]]);
      assert Concat([ps[i]]) == ps[i].data;
      LaterPagesOfSeries(muscle, retryDelay, n, ps, i + 1, acc + ps[i].data, rs[1..], rest);
      assert ps[i - 1..|ps| - 1][1..] == ps[i..|ps| - 1];
    }
  }

  /** A series of k successfully served pages, followed by anything: the fetch returns
      the pages' records in page order, requests page 1 and then each `nextPage` link,
      and sleeps the fixed pause once per later page and never otherwise. */
  lemma {:induction false} PaginationAssembly(muscle: string, retryDelay: nat, ps: seq<Page>, rs: seq<Response>, rest: seq<Response>)
    requires IsSeries(ps) && Serves(rs, ps)
    ensures forall j :: 0 <= j < |ps| - 1 ==> ps[j].nextPage.Some?
    ensures FetchMuscle(muscle, retryDelay, rs + rest)
         == Run(Records(Concat(ps)), [MuscleUrl(muscle)] + Links(ps[..|ps| - 1]), Pauses(|ps| - 1))
  {
    var all := rs + rest;
    assert all[0] == Reply(rs[0].status, ps[0]) && Successful(rs[0].status);
    assert all[1..] == rs[1..] + rest;
    var ph := LaterPages(ps[0].data, ps[0].nextPage, 1, ps[0].totalPages);
    assert FetchMuscle(muscle, retryDelay, all) == Prefix([MuscleUrl(muscle)], [], Fetch(muscle, retryDelay, 0, ph, all[1..]));
    assert ps[..1] == [ps[0]];
    assert Concat([ps[0]]) == ps[0].data;
    assert Serves(rs[1..], ps[1..]);
    LaterPagesOfSeries(muscle, retryDelay, 0, ps, 1, ps[0].data, rs[1..], rest);
    assert ps[0..|ps| - 1] == ps[..|ps| - 1];
  }

  /** Three linked pages, each declaring three pages: all records in page order, two pauses. */
  lemma ThreePageSeries(muscle: string, retryDelay: nat, d1: seq<Record>, d2: seq<Record>, d3: seq<Record>,
                        l2: string, l3: string, rest: seq<Response>)
    requires l2 != "" && l2 != "0" && l3 != "" && l3 != "0"
    ensures var r := FetchMuscle(muscle, retryDelay,
                [Reply(200, Page(d1, 3, Some(l2))), Reply(200, Page(d2, 3, Some(l3))), Reply(200, Page(d3, 3, None))] + rest);
            && r.result == Records(d1 + d2 + d3)
            && r.gets == [MuscleUrl(muscle), NextPageUrl(l2), NextPageUrl(l3)]
            && Durations(retryDelay, r.waits) == [PagePause, PagePause]
  {
    var ps := [Page(d1, 3, Some(l2)), Page(d2, 3, Some(l3)), Page(d3, 3, None)];
    var rs := [Reply(200, ps[0]), Reply(200, ps[1]), Reply(200, ps[2])];
    assert Serves(rs, ps);
    PaginationAssembly(muscle, retryDelay, ps, rs, rest);
    assert ps[1..] == [ps[1], ps[2]] && ps[1..][1..] == [ps[2]] && ps[1..][1..][1..] == [];
    assert Concat([ps[2]]) == d3;
    assert Concat(ps[1..]) == d2 + d3;
    assert Concat(ps) == d1 + (d2 + d3);
    var firsts := ps[..2];
    assert firsts == [ps[0], ps[1]] && firsts[1..] == [ps[1]] && firsts[1..][1..] == [];
    assert Links(firsts[1..][1..]) == [];
    assert Links(firsts[1..]) == [NextPageUrl(l3)];
    assert Links(firsts) == [NextPageUrl(l2), NextPageUrl(l3)];
    assert Pauses(2) == [Pause, Pause];
  }
}
