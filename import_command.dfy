/**
 * The import command as a class over its state: the exercise store, the cached
 * resume cursor, the HTTP script with the log of requests, the log of sleeps and
 * the database's write script. Each method is proved to do what the corresponding
 * specification function in Fetching, Upserting and Walking says.
 */
module ImportCommand {
  import opened Wrappers
  import opened ExerciseModel
  import opened Fetching
  import opened Upserting
  import opened Walking
  import opened Statistics

  /** How the inner paging loop hands back to the outer loop: with the fetch's result,
      or to restart at page 1 after an exception within the budget. */
  datatype PagingEnd = Ended(result: Fetched) | Restart

  /** The rest of the fetch after the paging loop ended this way. */
  function Continuation(muscle: string, retryDelay: nat, ending: PagingEnd, n: nat, rs: seq<Response>): Run {
    match ending
    case Ended(result) => Run(result, [], [])
    case Restart => Fetch(muscle, retryDelay, n, FirstPage, rs)
  }

  /** How one muscle of the walk ends: on to the next muscle, with an exception that
      reaches `handle`, or with the HTTP script spent. */
  datatype MuscleEnd = Next | Threw | OutOfResponses

  /** The sleeps taken in reacting to one response. */
  function WaitsOf(mv: Move): seq<Wait> {
    if mv.Go? then mv.waits else []
  }

  /** How far a fetch that began in state e0 has come in state e: the requests and
      sleeps logged so far, then `rest`, make up the whole run `init`; the responses
      left are those after the ones consumed; nothing else has changed. */
  predicate Tracked(e0: Env, e: Env, retryDelay: nat, init: Run, gets: seq<Url>, waits: seq<Wait>, rest: Run) {
    && init == Prefix(gets, waits, rest)
    && |gets| + |e.responses| == |e0.responses| && e0.responses[|gets|..] == e.responses
    && e.requested == e0.requested + gets && e.slept == e0.slept + Durations(retryDelay, waits)
    && e.store == e0.store && e.cursor == e0.cursor && e.dbFaults == e0.dbFaults
  }

  /** One more request and the reaction to its response: the request and the sleeps
      of the reaction join the log, and the rest of the run is what the reaction
      leads to. */
  lemma Stepped(e0: Env, e: Env, e': Env, retryDelay: nat, init: Run, gets: seq<Url>, waits: seq<Wait>,
                waits': seq<Wait>, muscle: string, n: nat, ph: Phase)
    requires Continues(n, ph) && e.responses != []
    requires Tracked(e0, e, retryDelay, init, gets, waits, Fetch(muscle, retryDelay, n, ph, e.responses))
    requires waits' == waits + WaitsOf(React(n, ph, e.responses[0]))
    requires e' == e.(responses := e.responses[1..], requested := e.requested + [Target(muscle, ph)],
                      slept := e0.slept + Durations(retryDelay, waits'))
    ensures var mv := React(n, ph, e.responses[0]);
            Tracked(e0, e', retryDelay, init, gets + [Target(muscle, ph)], waits',
                    if mv.Stop? then Run(mv.result, [], []) else Fetch(muscle, retryDelay, mv.n, mv.ph, e'.responses))
  {
    var mv, u := React(n, ph, e.responses[0]), Target(muscle, ph);
    assert e0.responses[|gets| + 1..] == e.responses[1..];
    if mv.Stop? {
      assert gets + [u] + [] == gets + [u] && waits + [] == waits;
    } else {
      var t := Fetch(muscle, retryDelay, mv.n, mv.ph, e.responses[1..]);
      assert gets + ([u] + t.gets) == (gets + [u]) + t.gets;
      assert waits + (mv.waits + t.waits) == (waits + mv.waits) + t.waits;
    }
  }

  /** A tracked fetch with nothing left to do: its result is the run's, and the state
      is the one the run leads to. */
  lemma Finished(e0: Env, e: Env, retryDelay: nat, init: Run, gets: seq<Url>, waits: seq<Wait>, rest: Run)
    requires Tracked(e0, e, retryDelay, init, gets, waits, rest) && rest.gets == [] && rest.waits == []
    ensures init.result == rest.result && |init.gets| <= |e0.responses| && e == AfterFetch(e0, retryDelay, init)
  {
    assert init.gets == gets && init.waits == waits;
  }

  class ImportExercisesFromApi {
    var store: map<string, Row>
    var cursor: Option<string>
    var responses: seq<Response>
    var requested: seq<Url>
    var slept: seq<nat>
    var dbFaults: seq<bool>

    function State(): Env
      reads this
    {
      Env(store, cursor, responses, requested, slept, dbFaults)
    }

    constructor(e: Env)
      ensures State() == e
    {
      store, cursor, responses := e.store, e.cursor, e.responses;
      requested, slept, dbFaults := e.requested, e.slept, e.dbFaults;
    }

    // -------------------------------------------------------------------------
    // The outside world: `Http::get`, `sleep` and `Exercise::updateOrCreate`.

    /** One request: consumes the next scripted response and logs the target. */
    method Get(u: Url) returns (resp: Response)
      requires responses != []
      modifies this
      ensures resp == old(responses[0])
      ensures responses == old(responses[1..]) && requested == old(requested) + [u]
      ensures store == old(store) && cursor == old(cursor) && slept == old(slept) && dbFaults == old(dbFaults)
    {
      resp := responses[0];
      responses := responses[1..];
      requested := requested + [u];
    }

    method Sleep(seconds: nat)
      modifies this
      ensures slept == old(slept) + [seconds]
      ensures store == old(store) && cursor == old(cursor) && responses == old(responses)
      ensures requested == old(requested) && dbFaults == old(dbFaults)
    {
      slept := slept + [seconds];
    }

    /** One write keyed by `exercise_id`; it throws when the database's script says so. */
    method UpdateOrCreate(rec: Record) returns (threw: bool)
      modifies this
      ensures threw == (old(dbFaults) != [] && old(dbFaults)[0])
      ensures State() == old(State()).(
                store := if threw then old(store) else old(store)[rec.exerciseId := RowOf(rec)],
                dbFaults := Tail(old(dbFaults)))
    {
      threw := dbFaults != [] && dbFaults[0];
      if !threw {
        store := store[rec.exerciseId := RowOf(rec)];
      }
      dbFaults := Tail(dbFaults);
    }

    /** Sleep for the backoff before retry n, and log it. */
    method WaitBeforeRetry(retryDelay: nat, n: Retry, ghost base: seq<nat>, ghost waits: seq<Wait>)
      returns (ghost waits': seq<Wait>)
      requires slept == base + Durations(retryDelay, waits)
      modifies this
      ensures waits' == waits + [Wait.Backoff(n)]
      ensures slept == base + Durations(retryDelay, waits')
      ensures store == old(store) && cursor == old(cursor) && responses == old(responses)
      ensures requested == old(requested) && dbFaults == old(dbFaults)
    {
      Sleep(retryDelay * Pow2(n - 1));
      waits' := waits + [Wait.Backoff(n)];
      DurationsAppend(retryDelay, waits, [Wait.Backoff(n)]);
    }

    // -------------------------------------------------------------------------
    // `fetchExercisesForMuscle`.

    /** The body of the outer loop up to the paging: request page 1 and react to the
        answer, or (the `catch`) to the exception. A successful page 1 is handed on
        as the paging phase; the caller then runs the inner loop. */
    method RequestFirstPage(muscle: string, retryDelay: nat, retryCount: nat, ghost base: seq<nat>, ghost waits: seq<Wait>)
      returns (mv: Move, ghost waits': seq<Wait>)
      requires retryCount < MaxRetries && responses != []
      requires slept == base + Durations(retryDelay, waits)
      modifies this
      ensures mv == React(retryCount, FirstPage, old(responses[0]))
      ensures waits' == waits + WaitsOf(mv) && slept == base + Durations(retryDelay, waits')
      ensures responses == old(responses[1..]) && requested == old(requested) + [MuscleUrl(muscle)]
      ensures store == old(store) && cursor == old(cursor) && dbFaults == old(dbFaults)
    {
      var response := Get(MuscleUrl(muscle));
      waits' := waits;
      assert waits + [] == waits;
      if response.Thrown? {
        if retryCount + 1 >= MaxRetries {
          return Stop(Raised), waits';
        }
        waits' := WaitBeforeRetry(retryDelay, retryCount + 1, base, waits);
        return Go([Wait.Backoff(retryCount + 1)], retryCount + 1, FirstPage), waits';
      }
      if response.status == 429 {
        waits' := WaitBeforeRetry(retryDelay, retryCount + 1, base, waits);
        return Go([Wait.Backoff(retryCount + 1)], retryCount + 1, FirstPage), waits';
      }
      if !Successful(response.status) {
        return Stop(Records([])), waits';
      }
      var page := response.body;
      return Go([], retryCount, LaterPages(page.data, page.nextPage, 1, page.totalPages)), waits';
    }

    /** The body of the inner loop: request the `nextPage` link and react to the answer,
        or (the outer `catch`) to the exception, which restarts at page 1. */
    method RequestNextPage(retryDelay: nat, retryCount: nat, muscleExercises: seq<Record>, nextPage: Option<string>,
                           currentPage: int, totalPages: int, ghost base: seq<nat>, ghost waits: seq<Wait>)
      returns (mv: Move, ghost waits': seq<Wait>)
      requires Truthy(nextPage) && currentPage < totalPages && responses != []
      requires slept == base + Durations(retryDelay, waits)
      modifies this
      ensures mv == React(retryCount, LaterPages(muscleExercises, nextPage, currentPage, totalPages), old(responses[0]))
      ensures waits' == waits + WaitsOf(mv) && slept == base + Durations(retryDelay, waits')
      ensures responses == old(responses[1..]) && requested == old(requested) + [NextPageUrl(nextPage.value)]
      ensures store == old(store) && cursor == old(cursor) && dbFaults == old(dbFaults)
    {
      var response := Get(NextPageUrl(nextPage.value));
      waits' := waits;
      assert waits + [] == waits;
      if response.Thrown? {
        if retryCount + 1 >= MaxRetries {
          return Stop(Raised), waits';
        }
        waits' := WaitBeforeRetry(retryDelay, retryCount + 1, base, waits);
        return Go([Wait.Backoff(retryCount + 1)], retryCount + 1, FirstPage), waits';
      }
      if response.status == 429 {
        waits' := WaitBeforeRetry(retryDelay, retryCount + 1, base, waits);
        return Go([Wait.Backoff(retryCount + 1)], retryCount + 1,
                  LaterPages(muscleExercises, nextPage, currentPage, totalPages)), waits';
      }
      if !Successful(response.status) {
        return Stop(Records(muscleExercises)), waits';
      }
      var page := response.body;
      Sleep(PagePause);
      DurationsAppend(retryDelay, waits, [Pause]);
      waits' := waits + [Pause];
      return Go([Pause], retryCount, LaterPages(muscleExercises + page.data, page.nextPage, currentPage + 1, totalPages)), waits';
    }

    /** The paged fetch with retries: the outer loop over attempts at page 1; the inner
        loop over the later pages is `FetchLaterPages`, with which it shares the retry
        counter. */
    method FetchExercisesForMuscle(muscle: string, retryDelay: nat) returns (result: Fetched)
      modifies this
      ensures var r := FetchMuscle(muscle, retryDelay, old(responses));
              && result == r.result
              && |r.gets| <= |old(responses)|
              && State() == AfterFetch(old(State()), retryDelay, r)
    {
      ghost var e0 := State();
      ghost var init := FetchMuscle(muscle, retryDelay, e0.responses);
      ghost var gets: seq<Url> := [];
      ghost var waits: seq<Wait> := [];
      var retryCount: nat := 0;
      while retryCount < MaxRetries
        invariant Tracked(e0, State(), retryDelay, init, gets, waits, Fetch(muscle, retryDelay, retryCount, FirstPage, responses))
        decreases |responses|
      {
        if responses == [] {
          Finished(e0, State(), retryDelay, init, gets, waits, Fetch(muscle, retryDelay, retryCount, FirstPage, responses));
          return ScriptEnded;
        }
        ghost var e := State();
        var mv;
        ghost var waits';
        mv, waits' := RequestFirstPage(muscle, retryDelay, retryCount, e0.slept, waits);
        Stepped(e0, e, State(), retryDelay, init, gets, waits, waits', muscle, retryCount, FirstPage);
        gets, waits := gets + [MuscleUrl(muscle)], waits';
        if mv.Stop? {
          Finished(e0, State(), retryDelay, init, gets, waits, Run(mv.result, [], []));
          return mv.result;
        }
        retryCount := mv.n;
        if mv.ph.LaterPages? {
          var ending;
          ending, retryCount, gets, waits := FetchLaterPages(muscle, retryDelay, mv.n, mv.ph.acc, mv.ph.next, mv.ph.total,
                                                             e0, init, gets, waits);
          if ending.Ended? {
            Finished(e0, State(), retryDelay, init, gets, waits, Run(ending.result, [], []));
            return ending.result;
          }
        }
      }
      Finished(e0, State(), retryDelay, init, gets, waits, Fetch(muscle, retryDelay, retryCount, FirstPage, responses));
      return Records([]);
    }

    /** The inner `while` of `fetchExercisesForMuscle`: the later pages after a
        successful page 1, with the retry counter it shares with the outer loop. The
        fetch from page 1 has so far issued `gets0` and slept `waits0`; the later pages
        and their ending continue it, and the fetch's requests and sleeps are logged. */
    method FetchLaterPages(muscle: string, retryDelay: nat, retryCount0: nat, firstData: seq<Record>,
                           firstNext: Option<string>, totalPages: int,
                           ghost e0: Env, ghost init: Run, ghost gets0: seq<Url>, ghost waits0: seq<Wait>)
      returns (ending: PagingEnd, retryCount: nat, ghost gets: seq<Url>, ghost waits: seq<Wait>)
      requires Tracked(e0, State(), retryDelay, init, gets0, waits0,
                       Fetch(muscle, retryDelay, retryCount0, LaterPages(firstData, firstNext, 1, totalPages), responses))
      modifies this
      ensures Tracked(e0, State(), retryDelay, init, gets, waits, Continuation(muscle, retryDelay, ending, retryCount, responses))
      ensures |responses| <= old(|responses|)
    {
      gets, waits := gets0, waits0;
      retryCount := retryCount0;
      var muscleExercises := firstData;
      var nextPage := firstNext;
      var currentPage := 1;
      while Truthy(nextPage) && currentPage < totalPages
        invariant Tracked(e0, State(), retryDelay, init, gets, waits,
                          Fetch(muscle, retryDelay, retryCount, LaterPages(muscleExercises, nextPage, currentPage, totalPages), responses))
        invariant |responses| <= old(|responses|)
        decreases |responses|
      {
        if responses == [] {
          return Ended(ScriptEnded), retryCount, gets, waits;
        }
        ghost var e := State();
        var mv;
        ghost var waits';
        mv, waits' := RequestNextPage(retryDelay, retryCount, muscleExercises, nextPage, currentPage, totalPages, e0.slept, waits);
        Stepped(e0, e, State(), retryDelay, init, gets, waits, waits', muscle, retryCount,
                LaterPages(muscleExercises, nextPage, currentPage, totalPages));
        gets, waits := gets + [NextPageUrl(nextPage.value)], waits';
        if mv.Stop? {
          return Ended(mv.result), retryCount, gets, waits;
        }
        retryCount := mv.n;
        if mv.ph.FirstPage? {
          return Restart, retryCount, gets, waits;
        }
        muscleExercises, nextPage, currentPage := mv.ph.acc, mv.ph.next, mv.ph.current;
      }
      return Ended(Records(muscleExercises)), retryCount, gets, waits;
    }

    // -------------------------------------------------------------------------
    // The transaction of one muscle.

    /** Save a muscle's records in batches of 50 inside one transaction: every record
        is upserted by `exercise_id`; a write that throws rolls the store back to where
        the transaction began. Once it commits, the cursor moves to the muscle. */
    method SaveMuscle(muscle: string, muscleExercises: seq<Record>) returns (committed: bool)
      modifies this
      ensures var sr := Save(old(store), muscleExercises, old(dbFaults));
              && committed == sr.saved.Committed?
              && store == (if committed then sr.saved.store else old(store))
              && cursor == (if committed then Some(muscle) else old(cursor))
              && dbFaults == sr.faultsLeft
      ensures responses == old(responses) && requested == old(requested) && slept == old(slept)
    {
      ghost var sr := Save(store, muscleExercises, dbFaults);
      var batches := Chunk(muscleExercises, BatchSize);
      assert Flatten(batches) == muscleExercises;
      var snapshot := store;
      var threw := SaveBatches(batches);
      assert dbFaults == sr.faultsLeft && (if threw then sr.saved == RolledBack else sr.saved == Committed(store));
      if threw {
        store := snapshot;
        return false;
      }
      cursor := Some(muscle);
      return true;
    }

    /** The `foreach` over the chunks inside the transaction, up to the first write that
        throws; the rollback is the caller's. */
    method SaveBatches(batches: seq<seq<Record>>) returns (threw: bool)
      modifies this
      ensures var sr := Save(old(store), Flatten(batches), old(dbFaults));
              && dbFaults == sr.faultsLeft
              && (if threw then sr.saved == RolledBack else sr.saved == Committed(store))
      ensures cursor == old(cursor) && responses == old(responses) && requested == old(requested) && slept == old(slept)
    {
      ghost var expected := Save(store, Flatten(batches), dbFaults);
      var b := 0;
      assert batches[0..] == batches;
      while b < |batches|
        invariant b <= |batches|
        invariant expected == Save(store, Flatten(batches[b..]), dbFaults)
        invariant cursor == old(cursor) && responses == old(responses) && requested == old(requested) && slept == old(slept)
      {
        FlattenFrom(batches, b);
        threw := SaveBatch(batches[b], Flatten(batches[b + 1..]));
        if threw {
          return;
        }
        b := b + 1;
      }
      assert batches[b..] == [];
      return false;
    }

    /** The inner `foreach` of the transaction: upsert the batch's records in order,
        stopping at the first write that throws. `rest` is what the transaction writes
        after this batch. */
    method SaveBatch(batch: seq<Record>, ghost rest: seq<Record>) returns (threw: bool)
      modifies this
      ensures var sr := Save(old(store), batch + rest, old(dbFaults));
              if threw then sr == SaveRun(RolledBack, dbFaults) else sr == Save(store, rest, dbFaults)
      ensures cursor == old(cursor) && responses == old(responses) && requested == old(requested) && slept == old(slept)
    {
      ghost var expected := Save(store, batch + rest, dbFaults);
      assert batch[0..] == batch;
      var j := 0;
      while j < |batch|
        invariant j <= |batch|
        invariant expected == Save(store, batch[j..] + rest, dbFaults)
        invariant cursor == old(cursor) && responses == old(responses) && requested == old(requested) && slept == old(slept)
      {
        ghost var todo := batch[j..] + rest;
        assert todo[0] == batch[j] && todo[1..] == batch[j + 1..] + rest;
        threw := UpdateOrCreate(batch[j]);
        if threw {
          return;
        }
        j := j + 1;
      }
      assert batch[|batch|..] + rest == rest;
      return false;
    }

    // -------------------------------------------------------------------------
    // `handle`.

    /** One pass of the `foreach` over the muscles: fetch the muscle's exercises and,
        when there are any, save them in one transaction. */
    method ProcessMuscle(muscle: string, retryDelay: nat) returns (end: MuscleEnd, saved: seq<Record>)
      modifies this
      ensures var st := ImportMuscle(old(State()), retryDelay, muscle);
              && State() == st.env
              && (end.OutOfResponses? <==> st.OutOfScript?)
              && (end.Threw? <==> st.Abort?)
              && (end.Next? ==> st.Proceed? && saved == st.saved)
    {
      var muscleExercises := FetchExercisesForMuscle(muscle, retryDelay);
      saved := [];
      if muscleExercises.ScriptEnded? {
        return OutOfResponses, saved;
      }
      if muscleExercises.Raised? {
        return Threw, saved;
      }
      if muscleExercises.list != [] {
        var ok := SaveMuscle(muscle, muscleExercises.list);
        if !ok {
          return Threw, saved;
        }
      }
      saved := muscleExercises.list;
      return Next, saved;
    }

    /** The command: find the start index, walk the remaining muscles, and show the
        statistics once every muscle is done. */
    method Handle(resume: bool, retryDelay: nat) returns (exit: Exit)
      modifies this
      ensures var w := Import(old(State()), resume, retryDelay);
              exit == w.exit && State() == w.env
    {
      var startIndex := 0;
      if resume {
        var lastMuscle := cursor;
        if Truthy(lastMuscle) {
          var found := IndexOf(Muscles, lastMuscle.value);
          // `array_search` answers `false` for a missing muscle, and `false + 1` is 1
          startIndex := if found.Some? then found.value + 1 else 1;
        }
      }
      assert startIndex == StartIndex(resume, cursor);
      exit := ImportMuscles(Muscles[startIndex..], retryDelay);
      if exit.Succeeded? {
        var _, _, _ := ShowStatistics();
      }
    }

    /** The `try` block of `handle`: fetch and save each remaining muscle in order, and
        clear the cursor once all are done. */
    method ImportMuscles(remainingMuscles: seq<string>, retryDelay: nat) returns (exit: Exit)
      modifies this
      ensures var w := Walk(MuscleStep(retryDelay), old(State()), remainingMuscles, 0, []);
              exit == w.exit && State() == w.env
    {
      ghost var e0 := State();
      var totalExercises: nat := 0;
      ghost var committed: seq<Batch> := [];
      ghost var todo := remainingMuscles;
      assert remainingMuscles[0..] == remainingMuscles;
      var i := 0;
      while i < |remainingMuscles|
        invariant i <= |remainingMuscles| && todo == remainingMuscles[i..]
        invariant Walk(MuscleStep(retryDelay), e0, remainingMuscles, 0, [])
               == Walk(MuscleStep(retryDelay), State(), todo, totalExercises, committed)
      {
        var muscle := remainingMuscles[i];
        ghost var e := State();
        ghost var st := ImportMuscle(e, retryDelay, muscle);
        assert todo[0] == muscle && todo[1..] == remainingMuscles[i + 1..];
        assert MuscleStep(retryDelay)(e, todo[0]) == st;
        var end, saved := ProcessMuscle(muscle, retryDelay);
        if end.OutOfResponses? {
          WalkStops(MuscleStep(retryDelay), e, todo, totalExercises, committed, st);
          return Unfinished;
        }
        if end.Threw? {
          WalkStops(MuscleStep(retryDelay), e, todo, totalExercises, committed, st);
          return Failed;
        }
        ghost var (todo0, total0, committed0) := (todo, totalExercises, committed);
        totalExercises := totalExercises + |saved|;
        committed := Appended(committed, todo[0], saved);
        todo := todo[1..];
        WalkProceeds(MuscleStep(retryDelay), e, todo0, total0, committed0, State(), saved, todo, totalExercises, committed);
        i := i + 1;
      }
      assert todo == [];
      cursor := None;
      return Succeeded(totalExercises);
    }

    // -------------------------------------------------------------------------
    // `showStatistics`.

    /** The distribution counts the command prints: by category name, by target muscle
        and by equipment, each over every stored exercise. */
    method ShowStatistics() returns (categoryCounts: map<string, nat>, muscleCounts: map<string, nat>,
                                     equipmentCounts: map<string, nat>)
      ensures Tallied(categoryCounts, store, store.Keys, Categories)
      ensures Tallied(muscleCounts, store, store.Keys, TargetMuscles)
      ensures Tallied(equipmentCounts, store, store.Keys, Equipments)
    {
      categoryCounts := CountValues(Categories);
      muscleCounts := CountValues(TargetMuscles);
      equipmentCounts := CountValues(Equipments);
    }

    /** One counting loop of `showStatistics`: for every exercise, for every value of
        the column, add one to `counts[value] ?? 0`. */
    method CountValues(c: Column) returns (counts: map<string, nat>)
      ensures Tallied(counts, store, store.Keys, c)
      ensures forall x :: Unmentioned(store, c, x) ==> x !in counts
    {
      counts := map[];
      var left := store.Keys;
      ghost var done: set<string> := {};
      while left != {}
        invariant left + done == store.Keys && left !! done
        invariant Tallied(counts, store, done, c)
        decreases left
      {
        var id :| id in left;
        var values := Values(store[id], c);
        counts := Tally(counts, values);
        forall x
          ensures Occurrences(store, done + {id}, c, x) == Count(values, x) + Occurrences(store, done, c, x)
        {
          OccurrencesRemove(store, done + {id}, c, x, id);
          assert done + {id} - {id} == done;
        }
        done := done + {id};
        left := left - {id};
      }
      forall x | Unmentioned(store, c, x)
        ensures x !in counts
      {
        TallyOmitsUnmentioned(counts, store, c, x);
      }
    }

    /** The inner `foreach` of a counting loop: add one to `counts[value] ?? 0` for
        every value of the list, in order. */
    method Tally(counts: map<string, nat>, values: seq<string>) returns (counts': map<string, nat>)
      ensures forall x :: Lookup(counts', x) == Lookup(counts, x) + Count(values, x)
      ensures (forall x :: x in counts ==> counts[x] > 0) ==> forall x :: x in counts' ==> counts'[x] > 0
    {
      counts' := counts;
      var j := 0;
      while j < |values|
        invariant j <= |values|
        invariant forall x :: Lookup(counts', x) == Lookup(counts, x) + Count(values[..j], x)
        invariant (forall x :: x in counts ==> counts[x] > 0) ==> forall x :: x in counts' ==> counts'[x] > 0
      {
        forall x
          ensures Count(values[..j + 1], x) == Count(values[..j], x) + (if values[j] == x then 1 else 0)
        {
          CountSnoc(values, j, x);
        }
        counts' := counts'[values[j] := Lookup(counts', values[j]) + 1];
        j := j + 1;
      }
      assert values[..|values|] == values;
    }
  }
}
