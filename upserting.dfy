/**
 * Specification of saving one muscle's records: the split into chunks of 50, the
 * `updateOrCreate` keyed on `exercise_id`, and the transaction that either keeps
 * every write of the batch or none.
 *
 * The database's answer to each write is a script of booleans, consumed one per
 * write: `true` makes that write throw; an empty script lets every write succeed.
 */
module Upserting {
  import opened ExerciseModel
  import opened Fetching

  const BatchSize: nat := 50

  /** A row whose category is the one its own equipment list determines. */
  predicate Classified(row: Row) {
    row.category == DetermineCategory(row.equipments)
  }

  /** Every row of the store is classified. */
  predicate AllClassified(store: map<string, Row>) {
    forall id :: id in store ==> Classified(store[id])
  }

  /** The columns `updateOrCreate` writes for a record: the row is classified by its
      own equipment. */
  function RowOf(r: Record): (row: Row)
    ensures Classified(row)
  {
    Row(r.name, r.gifUrl, r.targetMuscles, r.bodyParts, r.equipments,
        r.secondaryMuscles, r.instructions, DetermineCategory(r.equipments))
  }

  /** A written row has one of the three categories and is never shown as "Unknown". */
  lemma RowOfIsNamed(r: Record)
    ensures var row := RowOf(r);
            && (row.category == CategoryStrength || row.category == CategoryBodyweight || row.category == CategoryCardio)
            && CategoryName(row.category) != "Unknown"
  {
    ClassifiedRowsHaveAName(r.equipments);
  }

  // ---------------------------------------------------------------------------
  // Chunking.

  function Flatten<T>(ss: seq<seq<T>>): seq<T> {
    if ss == [] then [] else ss[0] + Flatten(ss[1..])
  }

  lemma FlattenFrom<T>(ss: seq<seq<T>>, b: nat)
    requires b < |ss|
    ensures Flatten(ss[b..]) == ss[b] + Flatten(ss[b + 1..])
  {
    assert ss[b..][0] == ss[b] && ss[b..][1..] == ss[b + 1..];
  }

  /** `array_chunk`: consecutive pieces of `size` items, the last possibly shorter. */
  function Chunk<T>(s: seq<T>, size: nat): (r: seq<seq<T>>)
    requires size > 0
    ensures Flatten(r) == s
    ensures forall i :: 0 <= i < |r| ==> 1 <= |r[i]| <= size
    ensures forall i :: 0 <= i < |r| - 1 ==> |r[i]| == size
    decreases |s|
  {
    if s == [] then []
    else if |s| <= size then
      assert Flatten([s]) == s + Flatten([s][1..]);
      [s]
    else
      var rest := Chunk(s[size..], size);
      assert ([s[..size]] + rest)[1..] == rest;
      assert s == s[..size] + s[size..];
      [s[..size]] + rest
  }

  // ---------------------------------------------------------------------------
  // Upsert.

  function Ids(rs: seq<Record>): set<string> {
    set r | r in rs :: r.exerciseId
  }

  /** The store after `updateOrCreate` of each record in order. */
  function Upserted(store: map<string, Row>, rs: seq<Record>): map<string, Row>
    decreases |rs|
  {
    if rs == [] then store
    else Upserted(store[rs[0].exerciseId := RowOf(rs[0])], rs[1..])
  }

  /** Upserting rows adds exactly the batch's keys and leaves every other row alone. */
  lemma {:induction false} UpsertedElsewhere(store: map<string, Row>, rs: seq<Record>)
    ensures Upserted(store, rs).Keys == store.Keys + Ids(rs)
    ensures forall id :: id in store && id !in Ids(rs) ==> Upserted(store, rs)[id] == store[id]
    decreases |rs|
  {
    if rs != [] {
      UpsertedElsewhere(store[rs[0].exerciseId := RowOf(rs[0])], rs[1..]);
      assert Ids(rs) == {rs[0].exerciseId} + Ids(rs[1..]) by {
        assert forall r :: r in rs <==> r == rs[0] || r in rs[1..];
      }
    }
  }

  /** Each id in the batch ends with the row of its last occurrence. */
  lemma {:induction false} LastOccurrenceWins(store: map<string, Row>, rs: seq<Record>, i: nat)
    requires i < |rs|
    requires forall j :: i < j < |rs| ==> rs[j].exerciseId != rs[i].exerciseId
    ensures rs[i].exerciseId in Upserted(store, rs)
    ensures Upserted(store, rs)[rs[i].exerciseId] == RowOf(rs[i])
    decreases |rs|
  {
    var s' := store[rs[0].exerciseId := RowOf(rs[0])];
    if i == 0 {
      UpsertedElsewhere(s', rs[1..]);
      assert rs[0].exerciseId !in Ids(rs[1..]) by {
        forall r | r in rs[1..] ensures r.exerciseId != rs[0].exerciseId {
          var j :| 0 <= j < |rs[1..]| && rs[1..][j] == r;
          assert rs[j + 1] == r;
        }
      }
    } else {
      LastOccurrenceWins(s', rs[1..], i - 1);
    }
  }

  lemma {:induction false} UpsertedAppend(store: map<string, Row>, a: seq<Record>, b: seq<Record>)
    ensures Upserted(store, a + b) == Upserted(Upserted(store, a), b)
    decreases |a|
  {
    if a == [] {
      assert a + b == b;
    } else {
      assert (a + b)[0] == a[0] && (a + b)[1..] == a[1..] + b;
      UpsertedAppend(store[a[0].exerciseId := RowOf(a[0])], a[1..], b);
    }
  }

  /** The last occurrence of each id of the batch, as an index. */
  lemma LastOccurrenceExists(rs: seq<Record>, id: string) returns (i: nat)
    requires id in Ids(rs)
    ensures i < |rs| && rs[i].exerciseId == id
    ensures forall j :: i < j < |rs| ==> rs[j].exerciseId != id
  {
    var k :| 0 <= k < |rs| && rs[k].exerciseId == id;
    i := k;
    while i + 1 < |rs| && exists j :: i < j < |rs| && rs[j].exerciseId == id
      invariant i < |rs| && rs[i].exerciseId == id
      decreases |rs| - i
    {
      var j :| i < j < |rs| && rs[j].exerciseId == id;
      i := j;
    }
  }

  /** Every id of the batch ends with a row classified by its own equipment, and its
      category is never shown as "Unknown". */
  lemma UpsertedRowsAreClassified(store: map<string, Row>, rs: seq<Record>)
    ensures forall id :: id in Ids(rs) ==>
              && id in Upserted(store, rs)
              && Classified(Upserted(store, rs)[id])
              && CategoryName(Upserted(store, rs)[id].category) != "Unknown"
  {
    forall id | id in Ids(rs)
      ensures id in Upserted(store, rs) && Classified(Upserted(store, rs)[id])
      ensures CategoryName(Upserted(store, rs)[id].category) != "Unknown"
    {
      var i := LastOccurrenceExists(rs, id);
      LastOccurrenceWins(store, rs, i);
      RowOfIsNamed(rs[i]);
    }
  }

  /** Upserting keeps a store whose rows are all classified that way. */
  lemma UpsertKeepsClassified(store: map<string, Row>, rs: seq<Record>)
    requires AllClassified(store)
    ensures AllClassified(Upserted(store, rs))
  {
    UpsertedElsewhere(store, rs);
    UpsertedRowsAreClassified(store, rs);
  }

  /** Saving the same batch twice gives the store saving it once gives. */
  lemma UpsertIdempotent(store: map<string, Row>, rs: seq<Record>)
    ensures Upserted(Upserted(store, rs), rs) == Upserted(store, rs)
  {
    var once := Upserted(store, rs);
    var twice := Upserted(once, rs);
    UpsertedElsewhere(store, rs);
    UpsertedElsewhere(once, rs);
    forall id | id in twice
      ensures id in once && twice[id] == once[id]
    {
      if id in Ids(rs) {
        var i := LastOccurrenceExists(rs, id);
        LastOccurrenceWins(store, rs, i);
        LastOccurrenceWins(once, rs, i);
      }
    }
  }

  // ---------------------------------------------------------------------------
  // The transaction.

  datatype Saved = Committed(store: map<string, Row>) | RolledBack

  /** What the batch does, and what is left of the database's script. */
  datatype SaveRun = SaveRun(saved: Saved, faultsLeft: seq<bool>)

  function Tail(s: seq<bool>): seq<bool> {
    if s == [] then [] else s[1..]
  }

  /** Writes the batch item by item; the first failing write aborts the whole batch. */
  function Save(store: map<string, Row>, batch: seq<Record>, faults: seq<bool>): (r: SaveRun)
    ensures |r.faultsLeft| <= |faults| && r.faultsLeft == faults[|faults| - |r.faultsLeft|..]
    decreases |batch|
  {
    if batch == [] then SaveRun(Committed(store), faults)
    else if faults != [] && faults[0] then SaveRun(RolledBack, faults[1..])
    else Save(store[batch[0].exerciseId := RowOf(batch[0])], batch[1..], Tail(faults))
  }

  /** One of the first k writes of the script fails. */
  predicate FaultWithin(faults: seq<bool>, k: nat) {
    exists i :: 0 <= i < k && i < |faults| && faults[i]
  }

  /** Past a write that succeeds, the faults ahead are those of the rest of the script. */
  lemma FaultWithinTail(faults: seq<bool>, k: nat)
    requires k > 0 && !(faults != [] && faults[0])
    ensures FaultWithin(faults, k) == FaultWithin(Tail(faults), k - 1)
  {
    if FaultWithin(faults, k) {
      var i :| 0 <= i < k && i < |faults| && faults[i];
      assert i > 0 && Tail(faults)[i - 1] == faults[i];
    }
    if FaultWithin(Tail(faults), k - 1) {
      var i :| 0 <= i < k - 1 && i < |Tail(faults)| && Tail(faults)[i];
      assert faults[i + 1] == Tail(faults)[i];
    }
  }

  /** A write that succeeds: the rest of the batch is saved on the updated store. */
  lemma SaveNext(store: map<string, Row>, batch: seq<Record>, faults: seq<bool>)
    requires batch != [] && !(faults != [] && faults[0])
    ensures var s' := store[batch[0].exerciseId := RowOf(batch[0])];
            && Save(store, batch, faults) == Save(s', batch[1..], Tail(faults))
            && Upserted(store, batch) == Upserted(s', batch[1..])
  {
  }

  /** All or nothing: the batch commits exactly when none of its writes fails, and then
      the store is the old store with every record upserted; otherwise it rolls back. */
  lemma {:induction false} SaveIsAtomic(store: map<string, Row>, batch: seq<Record>, faults: seq<bool>)
    ensures Save(store, batch, faults).saved ==
              if FaultWithin(faults, |batch|) then RolledBack else Committed(Upserted(store, batch))
    decreases |batch|
  {
    if batch == [] {
      assert !FaultWithin(faults, 0);
    } else if faults != [] && faults[0] {
      assert FaultWithin(faults, |batch|);
    } else {
      var s' := store[batch[0].exerciseId := RowOf(batch[0])];
      SaveNext(store, batch, faults);
      SaveIsAtomic(s', batch[1..], Tail(faults));
      FaultWithinTail(faults, |batch|);
    }
  }
}
