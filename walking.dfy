/**
 * Specification of the command's walk over the muscle list: where a resumed run
 * starts, the fetch and the all-or-nothing save per muscle, the cursor, the count
 * of imported records, and the exit code.
 */
module Walking {
  import opened Wrappers
  import opened ExerciseModel
  import opened Fetching
  import opened Upserting

  /** The command's fixed, ordered list of muscle groups. */
  const Muscles: seq<string> := [
    "abductors", "abs", "adductors", "biceps", "calves",
    "cardiovascular system", "delts", "forearms", "glutes", "hamstrings",
    "lats", "levator scapulae", "pectorals", "quads", "serratus anterior",
    "spine", "traps", "triceps", "upper back"
  ]

  /** `array_search`: the first index holding `x`, if any. */
  function IndexOf<T(==)>(xs: seq<T>, x: T): (r: Option<nat>)
    ensures r.Some? ==> r.value < |xs| && xs[r.value] == x && forall j :: 0 <= j < r.value ==> xs[j] != x
    ensures r.None? <==> x !in xs
  {
    if xs == [] then None
    else if xs[0] == x then Some(0)
    else match IndexOf(xs[1..], x)
      case Some(i) => Some(i + 1)
      case None => None
  }

  /** The first index holding `x`, or `|xs|` when there is none. */
  function Pos<T(==)>(xs: seq<T>, x: T): (p: nat)
    ensures p <= |xs|
    ensures p < |xs| <==> x in xs
  {
    match IndexOf(xs, x)
    case Some(i) => i
    case None => |xs|
  }

  /** The first index of `x` in `a + b`: its first index in `a` when `a` starts with
      it, and the length of `a` plus its first index in `b` when `a` lacks it. */
  lemma {:induction false} PosAppend<T>(a: seq<T>, b: seq<T>, x: T)
    ensures a != [] && a[0] == x ==> Pos(a + b, x) == 0
    ensures x !in a ==> Pos(a + b, x) == |a| + Pos(b, x)
  {
    if a != [] && a[0] != x {
      assert (a + b)[0] == a[0] && (a + b)[1..] == a[1..] + b;
      PosAppend(a[1..], b, x);
    } else if a == [] {
      assert a + b == b;
    }
  }

  predicate Distinct(xs: seq<string>) {
    forall a, b :: 0 <= a < b < |xs| ==> xs[a] != xs[b]
  }

  /** Where the walk starts: after the cached muscle when resuming with a cursor,
      at 1 when the cached value is not in the list (`false + 1`), else at 0. */
  function StartIndex(resume: bool, cached: Option<string>): (k: nat)
    ensures k <= |Muscles|
    ensures !(resume && Truthy(cached)) ==> k == 0
    ensures resume && Truthy(cached) && cached.value in Muscles ==>
              1 <= k && Muscles[k - 1] == cached.value && forall j :: 0 <= j < k - 1 ==> Muscles[j] != cached.value
    ensures resume && Truthy(cached) && cached.value !in Muscles ==> k == 1
  {
    if resume && Truthy(cached) then
      match IndexOf(Muscles, cached.value)
      case Some(i) => i + 1
      case None => 1
    else 0
  }

  /** No muscle group is listed twice. */
  lemma MusclesAreDistinct()
    ensures forall i, j :: 0 <= i < j < |Muscles| ==> Muscles[i] != Muscles[j]
  {
  }

  /** Every name is a word of at least three letters, so none is PHP-falsy. */
  lemma MusclesAreWords()
    ensures forall i :: 0 <= i < |Muscles| ==> |Muscles[i]| >= 3
  {
  }

  lemma DistinctAt(xs: seq<string>, i: nat, k: nat)
    requires forall a, b :: 0 <= a < b < |xs| ==> xs[a] != xs[b]
    requires i < |xs| && k < |xs| && xs[k] == xs[i]
    ensures k == i
  {
  }

  /** With a cursor on the muscle at index i, a resumed run starts at i + 1. */
  lemma ResumeStartsAfterCursor(i: nat)
    requires i < |Muscles|
    ensures StartIndex(true, Some(Muscles[i])) == i + 1
  {
    var m := Muscles[i];
    MusclesAreWords();
    assert |m| >= 3;
    assert Truthy(Some(m));
    var k := StartIndex(true, Some(m));
    MusclesAreDistinct();
    DistinctAt(Muscles, i, k - 1);
  }

  // ---------------------------------------------------------------------------
  // The walk.

  /** Everything the command reads and changes: the store keyed by `exercise_id`, the
      cached cursor, the HTTP script with the requests issued, the sleeps taken, and
      the database's write script. */
  datatype Env = Env(
    store: map<string, Row>,
    cursor: Option<string>,
    responses: seq<Response>,
    requested: seq<Url>,
    slept: seq<nat>,
    dbFaults: seq<bool>)

  /** A committed batch: the muscle and the records saved for it. */
  datatype Batch = Batch(muscle: string, records: seq<Record>)

  /** How `handle` ends: success with the total of imported records (exit code 0),
      an exception caught by its outer `try` (exit code 1), or the HTTP script ran
      out first. */
  datatype Exit = Succeeded(imported: nat) | Failed | Unfinished

  datatype Outcome = Outcome(env: Env, exit: Exit, committed: seq<Batch>)

  /** The state after one fetch. */
  function AfterFetch(e: Env, retryDelay: nat, r: Run): Env
    requires |r.gets| <= |e.responses|
  {
    e.(responses := e.responses[|r.gets|..],
       requested := e.requested + r.gets,
       slept := e.slept + Durations(retryDelay, r.waits))
  }

  /** What one muscle does to the walk. */
  datatype Step =
    | Proceed(env: Env, saved: seq<Record>)    // go on with the next muscle
    | Abort(env: Env)                          // an exception reaches `handle`
    | OutOfScript(env: Env)                    // the HTTP script ran out

  /** One iteration of the `foreach`: fetch, then save a non-empty result in one
      transaction and move the cursor to this muscle once it has committed. */
  function ImportMuscle(e: Env, retryDelay: nat, m: string): Step {
    var r := FetchMuscle(m, retryDelay, e.responses);
    var e1 := AfterFetch(e, retryDelay, r);
    match r.result
    case ScriptEnded => OutOfScript(e1)
    case Raised => Abort(e1)
    case Records(list) =>
      if list == [] then Proceed(e1, [])
      else
        var sr := Save(e1.store, list, e1.dbFaults);
        match sr.saved
        case RolledBack => Abort(e1.(dbFaults := sr.faultsLeft))
        case Committed(s) => Proceed(e1.(store := s, dbFaults := sr.faultsLeft, cursor := Some(m)), list)
  }

  /** The import step with a given retry delay. */
  function MuscleStep(retryDelay: nat): (Env, string) -> Step {
    (e: Env, m: string) => ImportMuscle(e, retryDelay, m)
  }

  /** The committed batches after one muscle's batch: unchanged when it was empty. */
  function Appended(committed: seq<Batch>, m: string, saved: seq<Record>): seq<Batch> {
    if saved == [] then committed else committed + [Batch(m, saved)]
  }

  /** The loop over the remaining muscles `todo`, with the total and the committed
      batches so far; `step` is the loop body. */
  function Walk(step: (Env, string) -> Step, e: Env, todo: seq<string>, total: nat, committed: seq<Batch>): Outcome
    decreases |todo|
  {
    if todo == [] then
      Outcome(e.(cursor := None), Succeeded(total), committed)
    else
      match step(e, todo[0])
      case OutOfScript(e1) => Outcome(e1, Unfinished, committed)
      case Abort(e1) => Outcome(e1, Failed, committed)
      case Proceed(e1, saved) =>
        Walk(step, e1, todo[1..], total + |saved|, Appended(committed, todo[0], saved))
  }

  /** A muscle whose step goes on: the walk continues with the rest of the list, the
      new total and the batch appended. */
  lemma WalkProceeds(step: (Env, string) -> Step, e: Env, todo: seq<string>, total: nat, committed: seq<Batch>,
                     e': Env, saved: seq<Record>, todo': seq<string>, total': nat, committed': seq<Batch>)
    requires todo != [] && step(e, todo[0]) == Proceed(e', saved)
    requires todo' == todo[1..] && total' == total + |saved| && committed' == Appended(committed, todo[0], saved)
    ensures Walk(step, e, todo, total, committed) == Walk(step, e', todo', total', committed')
  {
  }

  /** A muscle whose step ends the run: the walk ends there. */
  lemma WalkStops(step: (Env, string) -> Step, e: Env, todo: seq<string>, total: nat, committed: seq<Batch>, st: Step)
    requires todo != [] && step(e, todo[0]) == st && !st.Proceed?
    ensures Walk(step, e, todo, total, committed)
         == Outcome(st.env, if st.OutOfScript? then Unfinished else Failed, committed)
  {
  }

  /** The whole command: the walk over the list from the start index. */
  function Import(e: Env, resume: bool, retryDelay: nat): Outcome {
    Walk(MuscleStep(retryDelay), e, Muscles[StartIndex(resume, e.cursor)..], 0, [])
  }

  // ---------------------------------------------------------------------------
  // One muscle.

  /** The first-page requests of `log` from index k on are for muscles of `todo`. */
  predicate RequestsFrom(log: seq<Url>, k: nat, todo: seq<string>) {
    forall i :: k <= i < |log| && log[i].MuscleUrl? ==> log[i].muscle in todo
  }

  /** What a step keeps of the store: a saved batch is upserted whole; a step that
      saves nothing leaves the store as it was. */
  predicate KeepsStore(e: Env, st: Step) {
    st.env.store == if st.Proceed? then Upserted(e.store, st.saved) else e.store
  }

  /** What a step for muscle m does to the cursor: a saved batch moves it to m; a
      step that saves nothing leaves it where it was. */
  predicate KeepsCursor(e: Env, m: string, st: Step) {
    st.env.cursor == if st.Proceed? && st.saved != [] then Some(m) else e.cursor
  }

  /** What a step for muscle m does to the request log: it only grows, and the only
      first page requested is m's. */
  predicate KeepsRequests(e: Env, m: string, st: Step) {
    e.requested <= st.env.requested && RequestsFrom(st.env.requested, |e.requested|, [m])
  }

  predicate Atomic(e: Env, m: string, st: Step) {
    KeepsStore(e, st) && KeepsCursor(e, m, st) && KeepsRequests(e, m, st)
  }

  ghost predicate StoreSteps(step: (Env, string) -> Step) {
    forall e: Env, m: string :: KeepsStore(e, step(e, m))
  }

  ghost predicate CursorSteps(step: (Env, string) -> Step) {
    forall e: Env, m: string :: KeepsCursor(e, m, step(e, m))
  }

  ghost predicate RequestSteps(step: (Env, string) -> Step) {
    forall e: Env, m: string :: KeepsRequests(e, m, step(e, m))
  }

  /** One muscle saves exactly the records fetched for it, in one transaction that
      either commits them all or none; it ends the run when the fetch raised, the
      transaction rolled back, or the script ran out. */
  lemma ImportMuscleIsAtomic(e: Env, retryDelay: nat, m: string)
    ensures Atomic(e, m, ImportMuscle(e, retryDelay, m))
    ensures var r := FetchMuscle(m, retryDelay, e.responses);
            var st := ImportMuscle(e, retryDelay, m);
            && (st.OutOfScript? <==> r.result.ScriptEnded?)
            && (st.Proceed? ==> r.result.Records? && st.saved == r.result.list)
            && (st.Abort? <==>
                  || r.result.Raised?
                  || (&& r.result.Records? && r.result.list != []
                      && FaultWithin(e.dbFaults, |r.result.list|)))
  {
    var r := FetchMuscle(m, retryDelay, e.responses);
    var e1 := AfterFetch(e, retryDelay, r);
    FetchRequestsOnlyItsMuscle(m, retryDelay, 0, FirstPage, e.responses);
    forall i | |e.requested| <= i < |e1.requested| && e1.requested[i].MuscleUrl?
      ensures e1.requested[i].muscle in [m]
    {
      assert e1.requested[i] == r.gets[i - |e.requested|];
    }
    if r.result.Records? {
      SaveIsAtomic(e1.store, r.result.list, e1.dbFaults);
    }
  }

  /** A step for muscle m that goes on has requested m's first page, and that
      request comes first. */
  predicate OpensWithItsPage(e: Env, m: string, st: Step) {
    st.Proceed? ==> |e.requested| < |st.env.requested| && st.env.requested[|e.requested|] == MuscleUrl(m)
  }

  ghost predicate PageSteps(step: (Env, string) -> Step) {
    forall e: Env, m: string :: OpensWithItsPage(e, m, step(e, m))
  }

  /** One muscle goes on only after its fetch has requested the muscle's first page,
      and that is the first request it makes. */
  lemma ImportMuscleOpensWithItsPage(e: Env, retryDelay: nat, m: string)
    ensures OpensWithItsPage(e, m, ImportMuscle(e, retryDelay, m))
  {
    var r := FetchMuscle(m, retryDelay, e.responses);
    if e.responses != [] {
      assert Continues(0, FirstPage);
      assert r.gets[0] == MuscleUrl(m);
    }
  }

  lemma MuscleStepIsAtomic(retryDelay: nat)
    ensures StoreSteps(MuscleStep(retryDelay))
    ensures CursorSteps(MuscleStep(retryDelay))
    ensures RequestSteps(MuscleStep(retryDelay))
    ensures PageSteps(MuscleStep(retryDelay))
  {
    forall e: Env, m: string
      ensures Atomic(e, m, MuscleStep(retryDelay)(e, m))
      ensures OpensWithItsPage(e, m, MuscleStep(retryDelay)(e, m))
    {
      ImportMuscleIsAtomic(e, retryDelay, m);
      ImportMuscleOpensWithItsPage(e, retryDelay, m);
    }
  }

  // ---------------------------------------------------------------------------
  // What a walk does.

  function Imported(bs: seq<Batch>): seq<Record> {
    if bs == [] then [] else bs[0].records + Imported(bs[1..])
  }

  lemma {:induction false} ImportedAppend(a: seq<Batch>, b: seq<Batch>)
    ensures Imported(a + b) == Imported(a) + Imported(b)
  {
    if a == [] {
      assert a + b == b;
    } else {
      assert (a + b)[0] == a[0] && (a + b)[1..] == a[1..] + b;
      ImportedAppend(a[1..], b);
    }
  }

  /** The batches of `bs` from index k on are non-empty and for muscles of `todo`. */
  predicate BatchesFrom(bs: seq<Batch>, k: nat, todo: seq<string>) {
    forall i :: k <= i < |bs| ==> bs[i].records != [] && bs[i].muscle in todo
  }

  lemma BatchesFromAppended(bs: seq<Batch>, committed: seq<Batch>, todo: seq<string>, saved: seq<Record>)
    requires todo != []
    requires Appended(committed, todo[0], saved) <= bs
    requires BatchesFrom(bs, |Appended(committed, todo[0], saved)|, todo[1..])
    ensures committed <= bs
    ensures BatchesFrom(bs, |committed|, todo)
  {
    var c' := Appended(committed, todo[0], saved);
    forall i | |committed| <= i < |bs|
      ensures bs[i].records != [] && bs[i].muscle in todo
    {
      if i < |c'| {
        assert bs[i] == c'[i] == Batch(todo[0], saved);
      } else {
        assert bs[i].muscle in todo[1..];
      }
    }
  }

  /** The walk appends the batches it commits, each non-empty and for a muscle of `todo`. */
  lemma {:induction false} WalkCommits(step: (Env, string) -> Step, e: Env, todo: seq<string>, total: nat, committed: seq<Batch>)
    ensures committed <= Walk(step, e, todo, total, committed).committed
    ensures BatchesFrom(Walk(step, e, todo, total, committed).committed, |committed|, todo)
    decreases |todo|
  {
    if todo != [] {
      var st := step(e, todo[0]);
      if st.Proceed? {
        var c' := Appended(committed, todo[0], st.saved);
        WalkCommits(step, st.env, todo[1..], total + |st.saved|, c');
        BatchesFromAppended(Walk(step, st.env, todo[1..], total + |st.saved|, c').committed, committed, todo, st.saved);
      }
    }
  }

  lemma RequestsFromJoined(r0: seq<Url>, r1: seq<Url>, r2: seq<Url>, todo: seq<string>)
    requires todo != []
    requires r0 <= r1 <= r2
    requires RequestsFrom(r1, |r0|, [todo[0]]) && RequestsFrom(r2, |r1|, todo[1..])
    ensures r0 <= r2 && RequestsFrom(r2, |r0|, todo)
  {
    forall i | |r0| <= i < |r2| && r2[i].MuscleUrl?
      ensures r2[i].muscle in todo
    {
      if i < |r1| {
        assert r2[i] == r1[i];
        assert r2[i].muscle in [todo[0]];
      } else {
        assert r2[i].muscle in todo[1..];
      }
    }
  }

  /** The walk only adds to the request log, and the only first pages it requests are
      those of muscles in `todo`. */
  lemma {:induction false} WalkRequests(step: (Env, string) -> Step, e: Env, todo: seq<string>, total: nat, committed: seq<Batch>)
    requires RequestSteps(step)
    ensures e.requested <= Walk(step, e, todo, total, committed).env.requested
    ensures RequestsFrom(Walk(step, e, todo, total, committed).env.requested, |e.requested|, todo)
    decreases |todo|
  {
    if todo != [] {
      var st := step(e, todo[0]);
      assert KeepsRequests(e, todo[0], st);
      if st.Proceed? {
        var c' := Appended(committed, todo[0], st.saved);
        WalkRequests(step, st.env, todo[1..], total + |st.saved|, c');
        RequestsFromJoined(e.requested, st.env.requested, Walk(step, st.env, todo[1..], total + |st.saved|, c').env.requested, todo);
      } else {
        assert RequestsFrom(st.env.requested, |e.requested|, todo);
      }
    }
  }

  /** The records committed from the batch of one step on are that step's records
      followed by those committed after it. */
  lemma ImportedAfterAppended(bs: seq<Batch>, committed: seq<Batch>, m: string, saved: seq<Record>)
    requires Appended(committed, m, saved) <= bs
    ensures |committed| <= |Appended(committed, m, saved)|
    ensures Imported(bs[|committed|..]) == saved + Imported(bs[|Appended(committed, m, saved)|..])
  {
    var c' := Appended(committed, m, saved);
    assert bs[|committed|..] == c'[|committed|..] + bs[|c'|..];
    ImportedAppend(c'[|committed|..], bs[|c'|..]);
    if saved == [] {
      assert c'[|committed|..] == [];
    } else {
      assert c'[|committed|..] == [Batch(m, saved)];
      assert Imported([Batch(m, saved)]) == saved;
    }
  }

  /** The store after the walk is the store before with the walk's committed batches
      upserted in order: nothing of a rolled-back batch remains. */
  lemma {:induction false} WalkStore(step: (Env, string) -> Step, e: Env, todo: seq<string>, total: nat, committed: seq<Batch>)
    requires StoreSteps(step)
    ensures var w := Walk(step, e, todo, total, committed);
            |committed| <= |w.committed| &&
            w.env.store == Upserted(e.store, Imported(w.committed[|committed|..]))
    decreases |todo|
  {
    WalkCommits(step, e, todo, total, committed);
    var w := Walk(step, e, todo, total, committed);
    if todo == [] {
      assert w.committed[|committed|..] == [];
    } else {
      var st := step(e, todo[0]);
      assert KeepsStore(e, st);
      if st.Proceed? {
        var c' := Appended(committed, todo[0], st.saved);
        WalkProceeds(step, e, todo, total, committed, st.env, st.saved, todo[1..], total + |st.saved|, c');
        WalkStore(step, st.env, todo[1..], total + |st.saved|, c');
        WalkCommits(step, st.env, todo[1..], total + |st.saved|, c');
        ImportedAfterAppended(w.committed, committed, todo[0], st.saved);
        UpsertedAppend(e.store, st.saved, Imported(w.committed[|c'|..]));
      } else {
        WalkStops(step, e, todo, total, committed, st);
        assert w.committed[|committed|..] == [];
      }
    }
  }

  /** A walk that finishes clears the cursor and reports the running total plus the
      records it committed. */
  lemma {:induction false} WalkTotal(step: (Env, string) -> Step, e: Env, todo: seq<string>, total: nat, committed: seq<Batch>)
    ensures var w := Walk(step, e, todo, total, committed);
            && |committed| <= |w.committed|
            && (w.exit.Succeeded? ==>
                  w.env.cursor == None && w.exit.imported == total + |Imported(w.committed[|committed|..])|)
    decreases |todo|
  {
    WalkCommits(step, e, todo, total, committed);
    var w := Walk(step, e, todo, total, committed);
    if todo == [] {
      assert w.committed[|committed|..] == [];
    } else {
      var st := step(e, todo[0]);
      if st.Proceed? {
        var c' := Appended(committed, todo[0], st.saved);
        WalkProceeds(step, e, todo, total, committed, st.env, st.saved, todo[1..], total + |st.saved|, c');
        WalkTotal(step, st.env, todo[1..], total + |st.saved|, c');
        WalkCommits(step, st.env, todo[1..], total + |st.saved|, c');
        ImportedAfterAppended(w.committed, committed, todo[0], st.saved);
      } else {
        WalkStops(step, e, todo, total, committed, st);
      }
    }
  }

  /** A walk that stops leaves the cursor on the muscle of its last committed batch,
      or where it was when it committed none. */
  lemma {:induction false} WalkCursor(step: (Env, string) -> Step, e: Env, todo: seq<string>, total: nat, committed: seq<Batch>)
    requires CursorSteps(step)
    ensures var w := Walk(step, e, todo, total, committed);
            && |committed| <= |w.committed|
            && (!w.exit.Succeeded? ==>
                  w.env.cursor == if |w.committed| == |committed| then e.cursor
                                  else Some(w.committed[|w.committed| - 1].muscle))
    decreases |todo|
  {
    WalkCommits(step, e, todo, total, committed);
    var w := Walk(step, e, todo, total, committed);
    if todo != [] {
      var st := step(e, todo[0]);
      assert KeepsCursor(e, todo[0], st);
      if st.Proceed? {
        var c' := Appended(committed, todo[0], st.saved);
        WalkProceeds(step, e, todo, total, committed, st.env, st.saved, todo[1..], total + |st.saved|, c');
        WalkCursor(step, st.env, todo[1..], total + |st.saved|, c');
        WalkCommits(step, st.env, todo[1..], total + |st.saved|, c');
        if !w.exit.Succeeded? && |w.committed| == |c'| {
          assert w.env.cursor == st.env.cursor;
          if st.saved == [] {
            assert |w.committed| == |committed|;
          } else {
            assert w.committed[|w.committed| - 1] == c'[|c'| - 1] == Batch(todo[0], st.saved);
            assert |w.committed| != |committed|;
          }
        }
      } else {
        WalkStops(step, e, todo, total, committed, st);
      }
    }
  }

  /** The batches of `bs` from index k on are for muscles of `todo`, at strictly
      increasing indices of `todo`. */
  predicate InOrder(bs: seq<Batch>, k: nat, todo: seq<string>) {
    && (forall a :: k <= a < |bs| ==> Pos(todo, bs[a].muscle) < |todo|)
    && (forall a, b :: k <= a < b < |bs| ==> Pos(todo, bs[a].muscle) < Pos(todo, bs[b].muscle))
  }

  /** Every muscle of `todo` has its first page requested in `log`, and the first
      request for an earlier muscle of `todo` comes before that for a later one. */
  predicate RequestedInOrder(log: seq<Url>, todo: seq<string>) {
    && (forall i :: 0 <= i < |todo| ==> Pos(log, MuscleUrl(todo[i])) < |log|)
    && (forall i, j :: 0 <= i < j < |todo| ==> Pos(log, MuscleUrl(todo[i])) < Pos(log, MuscleUrl(todo[j])))
  }

  lemma DistinctTail(todo: seq<string>)
    requires todo != [] && Distinct(todo)
    ensures Distinct(todo[1..]) && todo[0] !in todo[1..]
    ensures todo == [todo[0]] + todo[1..]
  {
  }

  /** The positions in `todo` of the muscles after its first one. */
  lemma PosInTail(todo: seq<string>, m: string)
    requires todo != [] && m != todo[0]
    ensures Pos(todo, m) == 1 + Pos(todo[1..], m)
  {
    assert todo == [todo[0]] + todo[1..];
    PosAppend([todo[0]], todo[1..], m);
  }

  /** The position in `todo` of a batch committed by one step of the walk: 0 for the
      step's own batch, one more than in the rest of the list for a later batch. */
  lemma PosOfAppended(bs: seq<Batch>, committed: seq<Batch>, todo: seq<string>, saved: seq<Record>, a: nat)
    requires todo != [] && Distinct(todo)
    requires Appended(committed, todo[0], saved) <= bs
    requires BatchesFrom(bs, |Appended(committed, todo[0], saved)|, todo[1..])
    requires |committed| <= a < |bs|
    ensures a < |Appended(committed, todo[0], saved)| ==> Pos(todo, bs[a].muscle) == 0
    ensures a >= |Appended(committed, todo[0], saved)| ==> Pos(todo, bs[a].muscle) == 1 + Pos(todo[1..], bs[a].muscle)
  {
    var c' := Appended(committed, todo[0], saved);
    if a < |c'| {
      assert bs[a] == c'[a] == Batch(todo[0], saved);
    } else {
      DistinctTail(todo);
      assert bs[a].muscle in todo[1..];
      PosInTail(todo, bs[a].muscle);
    }
  }

  lemma InOrderAppended(bs: seq<Batch>, committed: seq<Batch>, todo: seq<string>, saved: seq<Record>)
    requires todo != [] && Distinct(todo)
    requires Appended(committed, todo[0], saved) <= bs
    requires BatchesFrom(bs, |Appended(committed, todo[0], saved)|, todo[1..])
    requires InOrder(bs, |Appended(committed, todo[0], saved)|, todo[1..])
    ensures InOrder(bs, |committed|, todo)
  {
    var k := |Appended(committed, todo[0], saved)|;
    assert k <= |committed| + 1;
    forall a | |committed| <= a < |bs|
      ensures Pos(todo, bs[a].muscle) < |todo|
      ensures a < k ==> Pos(todo, bs[a].muscle) == 0
      ensures a >= k ==> Pos(todo, bs[a].muscle) == 1 + Pos(todo[1..], bs[a].muscle)
    {
      PosOfAppended(bs, committed, todo, saved, a);
    }
  }

  /** Over a list without repeats, the walk commits its batches in the list's order:
      their muscles sit at strictly increasing indices of `todo`. */
  lemma {:induction false} WalkCommitsInOrder(step: (Env, string) -> Step, e: Env, todo: seq<string>, total: nat, committed: seq<Batch>)
    requires Distinct(todo)
    ensures var w := Walk(step, e, todo, total, committed);
            |committed| <= |w.committed| && InOrder(w.committed, |committed|, todo)
    decreases |todo|
  {
    WalkCommits(step, e, todo, total, committed);
    if todo != [] {
      var st := step(e, todo[0]);
      if st.Proceed? {
        var c' := Appended(committed, todo[0], st.saved);
        WalkProceeds(step, e, todo, total, committed, st.env, st.saved, todo[1..], total + |st.saved|, c');
        DistinctTail(todo);
        WalkCommitsInOrder(step, st.env, todo[1..], total + |st.saved|, c');
        WalkCommits(step, st.env, todo[1..], total + |st.saved|, c');
        InOrderAppended(Walk(step, st.env, todo[1..], total + |st.saved|, c').committed, committed, todo, st.saved);
      }
    }
  }

  lemma RequestedInOrderJoined(a: seq<Url>, b: seq<Url>, todo: seq<string>)
    requires todo != [] && Distinct(todo)
    requires a != [] && a[0] == MuscleUrl(todo[0])
    requires forall i :: 0 <= i < |a| && a[i].MuscleUrl? ==> a[i].muscle in [todo[0]]
    requires RequestedInOrder(b, todo[1..])
    ensures RequestedInOrder(a + b, todo)
  {
    DistinctTail(todo);
    PosAppend(a, b, MuscleUrl(todo[0]));
    forall i | 1 <= i < |todo|
      ensures Pos(a + b, MuscleUrl(todo[i])) == |a| + Pos(b, MuscleUrl(todo[1..][i - 1]))
    {
      assert todo[i] == todo[1..][i - 1];
      assert todo[i] != todo[0];
      forall t | 0 <= t < |a|
        ensures a[t] != MuscleUrl(todo[i])
      {
        assert a[t].MuscleUrl? ==> a[t].muscle in [todo[0]];
      }
      PosAppend(a, b, MuscleUrl(todo[i]));
    }
  }

  /** One step's requests followed by the rest of the walk's: the step opened with its
      muscle's first page and requested no other muscle's, so the order carries over. */
  lemma RequestsJoinedInOrder(l0: seq<Url>, l1: seq<Url>, l2: seq<Url>, todo: seq<string>)
    requires todo != [] && Distinct(todo)
    requires l0 <= l1 <= l2
    requires RequestsFrom(l1, |l0|, [todo[0]])
    requires |l0| < |l1| && l1[|l0|] == MuscleUrl(todo[0])
    requires RequestedInOrder(l2[|l1|..], todo[1..])
    ensures RequestedInOrder(l2[|l0|..], todo)
  {
    var a, b := l1[|l0|..], l2[|l1|..];
    assert l2[|l0|..] == a + b;
    forall i | 0 <= i < |a| && a[i].MuscleUrl?
      ensures a[i].muscle in [todo[0]]
    {
      assert a[i] == l1[|l0| + i];
    }
    RequestedInOrderJoined(a, b, todo);
  }

  /** A walk over a list without repeats that finishes has requested the first page
      of every muscle of `todo`, the muscles' first requests coming in list order. */
  lemma {:induction false} WalkRequestsInOrder(step: (Env, string) -> Step, e: Env, todo: seq<string>, total: nat, committed: seq<Batch>)
    requires RequestSteps(step) && PageSteps(step) && Distinct(todo)
    ensures var w := Walk(step, e, todo, total, committed);
            && |e.requested| <= |w.env.requested|
            && (w.exit.Succeeded? ==> RequestedInOrder(w.env.requested[|e.requested|..], todo))
    decreases |todo|
  {
    WalkRequests(step, e, todo, total, committed);
    if todo != [] {
      var st := step(e, todo[0]);
      if st.Proceed? {
        assert KeepsRequests(e, todo[0], st) && OpensWithItsPage(e, todo[0], st);
        var c' := Appended(committed, todo[0], st.saved);
        var w := Walk(step, st.env, todo[1..], total + |st.saved|, c');
        WalkProceeds(step, e, todo, total, committed, st.env, st.saved, todo[1..], total + |st.saved|, c');
        DistinctTail(todo);
        WalkRequestsInOrder(step, st.env, todo[1..], total + |st.saved|, c');
        WalkRequests(step, st.env, todo[1..], total + |st.saved|, c');
        if w.exit.Succeeded? {
          RequestsJoinedInOrder(e.requested, st.env.requested, w.env.requested, todo);
        }
      } else {
        WalkStops(step, e, todo, total, committed, st);
      }
    }
  }

  // ---------------------------------------------------------------------------
  // The whole command.

  /** What an import touches: the committed batches are non-empty and for muscles
      from the start index on, the only first pages requested are theirs, and the
      store is the old store with the committed batches upserted in order. */
  lemma ImportCommitsWholeBatches(e: Env, resume: bool, retryDelay: nat)
    ensures var w := Import(e, resume, retryDelay);
            var todo := Muscles[StartIndex(resume, e.cursor)..];
            && BatchesFrom(w.committed, 0, todo)
            && e.requested <= w.env.requested
            && RequestsFrom(w.env.requested, |e.requested|, todo)
            && w.env.store == Upserted(e.store, Imported(w.committed))
  {
    var step, todo := MuscleStep(retryDelay), Muscles[StartIndex(resume, e.cursor)..];
    MuscleStepIsAtomic(retryDelay);
    WalkCommits(step, e, todo, 0, []);
    WalkRequests(step, e, todo, 0, []);
    WalkStore(step, e, todo, 0, []);
    var w := Walk(step, e, todo, 0, []);
    assert w.committed[0..] == w.committed;
  }

  lemma SuffixDistinct(s: nat)
    requires s <= |Muscles|
    ensures Distinct(Muscles[s..])
  {
    MusclesAreDistinct();
    forall a, b | 0 <= a < b < |Muscles[s..]|
      ensures Muscles[s..][a] != Muscles[s..][b]
    {
      assert Muscles[s..][a] == Muscles[s + a] && Muscles[s..][b] == Muscles[s + b];
    }
  }

  /** An import goes through the remaining muscles in list order: the muscles of its
      committed batches sit at strictly increasing indices of the list from the start
      index on, and an import that finishes has requested the first page of every one
      of those muscles, the first request of each coming before that of the next. */
  lemma ImportVisitsInOrder(e: Env, resume: bool, retryDelay: nat)
    ensures var w := Import(e, resume, retryDelay);
            var todo := Muscles[StartIndex(resume, e.cursor)..];
            && InOrder(w.committed, 0, todo)
            && |e.requested| <= |w.env.requested|
            && (w.exit.Succeeded? ==> RequestedInOrder(w.env.requested[|e.requested|..], todo))
  {
    var step, s := MuscleStep(retryDelay), StartIndex(resume, e.cursor);
    var todo := Muscles[s..];
    MuscleStepIsAtomic(retryDelay);
    SuffixDistinct(s);
    WalkCommitsInOrder(step, e, todo, 0, []);
    WalkRequestsInOrder(step, e, todo, 0, []);
  }

  /** An import keeps every stored row classified by its own equipment: starting from
      such a store, every row afterwards, old or upserted, has category 1, 2 or 3 and a
      known name. */
  lemma ImportKeepsRowsClassified(e: Env, resume: bool, retryDelay: nat)
    requires AllClassified(e.store)
    ensures var store := Import(e, resume, retryDelay).env.store;
            && AllClassified(store)
            && forall id :: id in store ==> CategoryName(store[id].category) != "Unknown"
  {
    var w := Import(e, resume, retryDelay);
    ImportCommitsWholeBatches(e, resume, retryDelay);
    UpsertKeepsClassified(e.store, Imported(w.committed));
    forall id | id in w.env.store
      ensures CategoryName(w.env.store[id].category) != "Unknown"
    {
      ClassifiedRowsHaveAName(w.env.store[id].equipments);
    }
  }

  /** A walk from the start, with no total and no batches yet. */
  lemma WalkFromStart(step: (Env, string) -> Step, e: Env, todo: seq<string>)
    requires CursorSteps(step)
    ensures var w := Walk(step, e, todo, 0, []);
            && (w.exit.Succeeded? ==> w.env.cursor == None && w.exit.imported == |Imported(w.committed)|)
            && (!w.exit.Succeeded? ==>
                  w.env.cursor == if w.committed == [] then e.cursor else Some(w.committed[|w.committed| - 1].muscle))
  {
    WalkTotal(step, e, todo, 0, []);
    WalkCursor(step, e, todo, 0, []);
    var w := Walk(step, e, todo, 0, []);
    assert w.committed[0..] == w.committed;
  }

  /** A finished import clears the cursor and reports every record it committed; an
      import that stops leaves the cursor on its last committed muscle, or as it was. */
  lemma ImportCursorAndTotal(e: Env, resume: bool, retryDelay: nat)
    ensures var w := Import(e, resume, retryDelay);
            && (w.exit.Succeeded? ==> w.env.cursor == None && w.exit.imported == |Imported(w.committed)|)
            && (!w.exit.Succeeded? ==>
                  w.env.cursor == if w.committed == [] then e.cursor else Some(w.committed[|w.committed| - 1].muscle))
  {
    MuscleStepIsAtomic(retryDelay);
    WalkFromStart(MuscleStep(retryDelay), e, Muscles[StartIndex(resume, e.cursor)..]);
  }

  /** Resuming after a cursor on the muscle at index i requests no first page of that
      muscle or of any muscle before it. */
  lemma ResumeSkipsImportedMuscles(e: Env, retryDelay: nat, i: nat)
    requires i < |Muscles| && e.cursor == Some(Muscles[i])
    ensures var w := Import(e, true, retryDelay);
            forall k, j :: |e.requested| <= k < |w.env.requested| && 0 <= j <= i ==>
              w.env.requested[k] != MuscleUrl(Muscles[j])
  {
    ResumeStartsAfterCursor(i);
    ImportCommitsWholeBatches(e, true, retryDelay);
    MusclesAreDistinct();
  }

  /** A cursor on a muscle of the list from index s on makes a resumed run start
      right after that muscle. */
  lemma ResumeAfterListedMuscle(m: string, s: nat)
    requires s <= |Muscles| && m in Muscles[s..]
    ensures var k := StartIndex(true, Some(m));
            1 <= k && Muscles[k - 1] == m
  {
    var t :| 0 <= t < |Muscles[s..]| && Muscles[s..][t] == m;
    assert Muscles[s + t] == m;
    MusclesAreWords();
    assert |Muscles[s + t]| >= 3;
  }

  /** A walk that stops after committing leaves the cursor on its last committed
      muscle, one of those it was given. */
  lemma WalkLeavesCursorIn(step: (Env, string) -> Step, e: Env, todo: seq<string>, w: Outcome)
    requires CursorSteps(step) && w == Walk(step, e, todo, 0, [])
    requires !w.exit.Succeeded? && w.committed != []
    ensures w.env.cursor == Some(w.committed[|w.committed| - 1].muscle)
    ensures w.committed[|w.committed| - 1].muscle in todo
  {
    WalkFromStart(step, e, todo);
    WalkCommits(step, e, todo, 0, []);
    assert BatchesFrom(w.committed, 0, todo);
  }

  /** A run that stops after committing some batches leaves a cursor from which a
      resumed run starts right after the last committed muscle. */
  lemma ResumeContinuesAfterLastBatch(e: Env, resume: bool, retryDelay: nat)
    ensures var w := Import(e, resume, retryDelay);
            !w.exit.Succeeded? && w.committed != [] ==>
              var k := StartIndex(true, w.env.cursor);
              1 <= k && Muscles[k - 1] == w.committed[|w.committed| - 1].muscle
  {
    var s := StartIndex(resume, e.cursor);
    var todo := Muscles[s..];
    var w := Walk(MuscleStep(retryDelay), e, todo, 0, []);
    assert Import(e, resume, retryDelay) == w;
    if !w.exit.Succeeded? && w.committed != [] {
      MuscleStepIsAtomic(retryDelay);
      WalkLeavesCursorIn(MuscleStep(retryDelay), e, todo, w);
      ResumeAfterListedMuscle(w.committed[|w.committed| - 1].muscle, s);
    }
  }
}
