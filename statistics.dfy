/**
 * Specification of the distribution counts the command prints after a successful
 * import: how often each target muscle and each piece of equipment occurs across
 * all stored exercises.
 */
module Statistics {
  import opened ExerciseModel

  /** What a count is taken over: the category (by its display name), or one of the
      two list-valued columns. */
  datatype Column = Categories | TargetMuscles | Equipments

  /** The values a row contributes to a count. */
  function Values(row: Row, c: Column): seq<string> {
    match c
    case Categories => [CategoryName(row.category)]
    case TargetMuscles => row.targetMuscles
    case Equipments => row.equipments
  }

  /** How often x occurs in xs. */
  function Count(xs: seq<string>, x: string): nat {
    if xs == [] then 0
    else Count(xs[..|xs| - 1], x) + (if xs[|xs| - 1] == x then 1 else 0)
  }

  /** How often x occurs in column c across the rows with the given ids, whatever
      the order the rows are visited in. */
  ghost function Occurrences(store: map<string, Row>, ids: set<string>, c: Column, x: string): nat
    requires ids <= store.Keys
    decreases ids
  {
    if ids == {} then 0
    else
      var id :| id in ids;
      Count(Values(store[id], c), x) + Occurrences(store, ids - {id}, c, x)
  }

  /** Any row can be taken out first: the total does not depend on the row order. */
  lemma {:induction false} OccurrencesRemove(store: map<string, Row>, ids: set<string>, c: Column, x: string, y: string)
    requires ids <= store.Keys && y in ids
    ensures Occurrences(store, ids, c, x) == Count(Values(store[y], c), x) + Occurrences(store, ids - {y}, c, x)
    decreases ids
  {
    var id :| id in ids && Occurrences(store, ids, c, x) == Count(Values(store[id], c), x) + Occurrences(store, ids - {id}, c, x);
    if id != y {
      OccurrencesRemove(store, ids - {id}, c, x, y);
      OccurrencesRemove(store, ids - {y}, c, x, id);
      assert ids - {id} - {y} == ids - {y} - {id};
    }
  }

  /** A value that no row of the store mentions has no occurrences. */
  lemma {:induction false} OccurrencesOfAbsent(store: map<string, Row>, ids: set<string>, c: Column, x: string)
    requires ids <= store.Keys
    requires forall id :: id in ids ==> x !in Values(store[id], c)
    ensures Occurrences(store, ids, c, x) == 0
    decreases ids
  {
    if ids != {} {
      var id :| id in ids && Occurrences(store, ids, c, x) == Count(Values(store[id], c), x) + Occurrences(store, ids - {id}, c, x);
      CountOfAbsent(Values(store[id], c), x);
      OccurrencesOfAbsent(store, ids - {id}, c, x);
    }
  }

  /** No row of the store has x in column c. */
  predicate Unmentioned(store: map<string, Row>, c: Column, x: string) {
    forall id :: id in store ==> x !in Values(store[id], c)
  }

  /** A tally of the whole store has no entry for a value no row mentions. */
  lemma TallyOmitsUnmentioned(counts: map<string, nat>, store: map<string, Row>, c: Column, x: string)
    requires Tallied(counts, store, store.Keys, c) && Unmentioned(store, c, x)
    ensures x !in counts
  {
    OccurrencesOfAbsent(store, store.Keys, c, x);
    assert Lookup(counts, x) == 0;
  }

  lemma {:induction false} CountOfAbsent(xs: seq<string>, x: string)
    requires x !in xs
    ensures Count(xs, x) == 0
  {
    if xs != [] {
      assert x !in xs[..|xs| - 1];
      CountOfAbsent(xs[..|xs| - 1], x);
    }
  }

  /** A count of one more element of a list. */
  lemma CountSnoc(xs: seq<string>, j: nat, x: string)
    requires j < |xs|
    ensures Count(xs[..j + 1], x) == Count(xs[..j], x) + (if xs[j] == x then 1 else 0)
  {
    assert xs[..j + 1][..j] == xs[..j];
  }

  /** The dictionary entry of `$counts[$x] ?? 0`. */
  function Lookup(counts: map<string, nat>, x: string): nat {
    if x in counts then counts[x] else 0
  }

  /** `counts` maps exactly the values occurring in column c of the rows `ids`, each
      to its number of occurrences. */
  ghost predicate Tallied(counts: map<string, nat>, store: map<string, Row>, ids: set<string>, c: Column)
    requires ids <= store.Keys
  {
    && (forall x :: Lookup(counts, x) == Occurrences(store, ids, c, x))
    && (forall x :: x in counts ==> counts[x] > 0)
  }
}
