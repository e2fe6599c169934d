/**
 * The pure helpers of the Eloquent `Exercise` model: the persisted row, the
 * category constants, the equipment classifier and the two presentation
 * accessors.
 */
module ExerciseModel {

  const CategoryStrength: int := 1
  const CategoryBodyweight: int := 2
  const CategoryCardio: int := 3

  /** One row of the `exercises` table, without its auto-increment id and timestamps.
      The unique `exercise_id` column is the key of the store, not a field here. */
  datatype Row = Row(
    name: string,
    gifUrl: string,
    targetMuscles: seq<string>,
    bodyParts: seq<string>,
    equipments: seq<string>,
    secondaryMuscles: seq<string>,
    instructions: seq<string>,
    category: int)

  // ---------------------------------------------------------------------------
  // Case folding: `strtolower` folds only the ASCII letters A-Z.

  function LowerChar(c: char): char {
    if 'A' <= c <= 'Z' then (c as int + 32) as char else c
  }

  function UpperChar(c: char): char {
    if 'a' <= c <= 'z' then (c as int - 32) as char else c
  }

  function Lower(s: string): string {
    seq(|s|, i requires 0 <= i < |s| => LowerChar(s[i]))
  }

  function Upper(s: string): string {
    seq(|s|, i requires 0 <= i < |s| => UpperChar(s[i]))
  }

  /** Folding is idempotent and ignores a previous upper-casing. */
  lemma LowerAbsorbs(s: string)
    ensures Lower(Lower(s)) == Lower(s)
    ensures Lower(Upper(s)) == Lower(s)
  {
    assert forall i :: 0 <= i < |s| ==> Lower(Upper(s))[i] == Lower(s)[i];
  }

  // ---------------------------------------------------------------------------
  // Equipment classifier.

  const CardioEquipment: seq<string> := [
    "elliptical machine", "treadmill", "stationary bike",
    "stepmill machine", "upper body ergometer"
  ]

  const StrengthEquipment: seq<string> := [
    "barbell", "dumbbell", "kettlebell", "leverage machine",
    "smith machine", "cable", "band", "weighted", "ez barbell",
    "olympic barbell", "rope"
  ]

  predicate IsCardio(equipment: string) {
    Lower(equipment) in CardioEquipment
  }

  predicate IsStrength(equipment: string) {
    Lower(equipment) in StrengthEquipment
  }

  /** An item that decides the category. */
  predicate Decisive(equipment: string) {
    IsCardio(equipment) || IsStrength(equipment)
  }

  /** Scans the list in order; the first decisive item gives Cardio (tested first)
      or Strength; a list without a decisive item is Bodyweight. */
  function DetermineCategory(equipments: seq<string>): (c: int)
    ensures c == CategoryStrength || c == CategoryBodyweight || c == CategoryCardio
  {
    if equipments == [] then CategoryBodyweight
    else if IsCardio(equipments[0]) then CategoryCardio
    else if IsStrength(equipments[0]) then CategoryStrength
    else DetermineCategory(equipments[1..])
  }

  /** No keyword is in both lists, so the cardio-first test never hides a strength item. */
  lemma KeywordListsDisjoint(equipment: string)
    ensures !(IsCardio(equipment) && IsStrength(equipment))
  {
  }

  /** The first decisive item alone decides; the items before it are skipped. */
  lemma {:induction false} FirstDecisiveItemDecides(equipments: seq<string>, i: nat)
    requires i < |equipments| && Decisive(equipments[i])
    requires forall j :: 0 <= j < i ==> !Decisive(equipments[j])
    ensures DetermineCategory(equipments) ==
              if IsCardio(equipments[i]) then CategoryCardio else CategoryStrength
    ensures IsStrength(equipments[i]) ==> DetermineCategory(equipments) == CategoryStrength
  {
    KeywordListsDisjoint(equipments[i]);
    if i > 0 {
      assert !Decisive(equipments[0]);
      FirstDecisiveItemDecides(equipments[1..], i - 1);
    }
  }

  /** Bodyweight exactly when no item is decisive (the empty list included). */
  lemma {:induction false} BodyweightIffNothingDecisive(equipments: seq<string>)
    ensures DetermineCategory(equipments) == CategoryBodyweight <==>
              forall i :: 0 <= i < |equipments| ==> !Decisive(equipments[i])
  {
    if equipments != [] {
      BodyweightIffNothingDecisive(equipments[1..]);
      assert forall i :: 1 <= i < |equipments| ==> equipments[i] == equipments[1..][i - 1];
    }
  }

  /** Replacing any item by another spelling with the same folding leaves the category unchanged. */
  lemma {:induction false} DetermineCategoryIgnoresCase(equipments: seq<string>, i: nat, other: string)
    requires i < |equipments| && Lower(other) == Lower(equipments[i])
    ensures DetermineCategory(equipments[i := other]) == DetermineCategory(equipments)
  {
    if i > 0 {
      assert equipments[i := other][1..] == equipments[1..][i - 1 := other];
      DetermineCategoryIgnoresCase(equipments[1..], i - 1, other);
    }
  }

  /** In particular the lower-case and the upper-case spelling of an item classify alike. */
  lemma CaseVariantsClassifyAlike(equipments: seq<string>, i: nat)
    requires i < |equipments|
    ensures DetermineCategory(equipments[i := Lower(equipments[i])]) == DetermineCategory(equipments)
    ensures DetermineCategory(equipments[i := Upper(equipments[i])]) == DetermineCategory(equipments)
  {
    LowerAbsorbs(equipments[i]);
    DetermineCategoryIgnoresCase(equipments, i, Lower(equipments[i]));
    DetermineCategoryIgnoresCase(equipments, i, Upper(equipments[i]));
  }

  /** Cardio wins on a cardio keyword in any spelling, even before a strength item. */
  lemma CardioExamples()
    ensures DetermineCategory(["Treadmill"]) == CategoryCardio
    ensures DetermineCategory(["Treadmill", "Barbell"]) == CategoryCardio
  {
    assert Lower("Treadmill") == "treadmill";
  }

  /** A strength keyword in any spelling gives Strength; only the first decisive item
      counts, so a later cardio keyword does not. */
  lemma StrengthExamples()
    ensures DetermineCategory(["Barbell"]) == CategoryStrength
    ensures DetermineCategory(["body weight", "DUMBBELL", "treadmill"]) == CategoryStrength
  {
    assert Lower("Barbell") == "barbell";
    assert Lower("body weight") == "body weight";
    assert Lower("DUMBBELL") == "dumbbell";
    assert ["body weight", "DUMBBELL", "treadmill"][1..] == ["DUMBBELL", "treadmill"];
  }

  /** Equipment named in neither list gives Bodyweight. */
  lemma BodyweightExample()
    ensures DetermineCategory(["Body weight"]) == CategoryBodyweight
  {
    assert Lower("Body weight") == "body weight";
  }

  // ---------------------------------------------------------------------------
  // Category label.

  function CategoryName(category: int): string {
    match category
    case 1 => "Strength Training"
    case 2 => "Bodyweight"
    case 3 => "Cardio"
    case _ => "Unknown"
  }

  /** The three categories have distinct labels, and exactly the other values are "Unknown". */
  lemma CategoryNames(category: int)
    ensures CategoryName(CategoryStrength) == "Strength Training"
    ensures CategoryName(CategoryBodyweight) == "Bodyweight"
    ensures CategoryName(CategoryCardio) == "Cardio"
    ensures CategoryName(category) == "Unknown" <==>
              category !in {CategoryStrength, CategoryBodyweight, CategoryCardio}
  {
  }

  /** A classified row never shows as "Unknown". */
  lemma ClassifiedRowsHaveAName(equipments: seq<string>)
    ensures CategoryName(DetermineCategory(equipments)) != "Unknown"
  {
  }

  // ---------------------------------------------------------------------------
  // Instruction formatting: the pattern `^Step:\d+\s*` (ASCII digits; PCRE's
  // default white space: space, tab, line feed, vertical tab, form feed, return).

  predicate IsDigit(c: char) {
    '0' <= c <= '9'
  }

  predicate IsSpace(c: char) {
    c == ' ' || c == '\t' || c == '\n' || c == '\U{000B}' || c == '\U{000C}' || c == '\r'
  }

  predicate AllDigits(s: string) {
    forall i :: 0 <= i < |s| ==> IsDigit(s[i])
  }

  predicate AllSpace(s: string) {
    forall i :: 0 <= i < |s| ==> IsSpace(s[i])
  }

  /** Length of the longest digit prefix. */
  function DigitRun(s: string): (k: nat)
    ensures k <= |s| && AllDigits(s[..k])
    ensures k < |s| ==> !IsDigit(s[k])
  {
    if s != [] && IsDigit(s[0]) then 1 + DigitRun(s[1..]) else 0
  }

  /** Length of the longest white-space prefix. */
  function SpaceRun(s: string): (k: nat)
    ensures k <= |s| && AllSpace(s[..k])
    ensures k < |s| ==> !IsSpace(s[k])
  {
    if s != [] && IsSpace(s[0]) then 1 + SpaceRun(s[1..]) else 0
  }

  /** The pattern matches at the start: "Step:" followed by at least one digit. */
  predicate HasStepPrefix(s: string) {
    |s| > 5 && s[..5] == "Step:" && IsDigit(s[5])
  }

  predicate IsSuffix(r: string, s: string) {
    |r| <= |s| && r == s[|s| - |r|..]
  }

  /** One instruction with its step marker removed: "Step:", the whole digit run
      and the whole white-space run after it go; anything else is kept as is. */
  function StripStepPrefix(s: string): (r: string)
    ensures IsSuffix(r, s)
    ensures !HasStepPrefix(s) ==> r == s
  {
    if HasStepPrefix(s) then
      var k := 5 + DigitRun(s[5..]);
      s[k + SpaceRun(s[k..])..]
    else
      s
  }

  /** The accessor maps every instruction: same length, same order, each element a
      suffix of its original, unmarked instructions untouched. */
  function FormattedInstructions(instructions: seq<string>): (r: seq<string>)
    ensures |r| == |instructions|
    ensures forall i :: 0 <= i < |r| ==> IsSuffix(r[i], instructions[i])
    ensures forall i :: 0 <= i < |r| && !HasStepPrefix(instructions[i]) ==> r[i] == instructions[i]
  {
    seq(|instructions|, i requires 0 <= i < |instructions| => StripStepPrefix(instructions[i]))
  }

  lemma {:induction false} DigitRunOf(d: string, t: string)
    requires AllDigits(d) && (t == [] || !IsDigit(t[0]))
    ensures DigitRun(d + t) == |d|
  {
    if d == [] {
      assert d + t == t;
    } else {
      assert (d + t)[0] == d[0] && (d + t)[1..] == d[1..] + t;
      DigitRunOf(d[1..], t);
    }
  }

  lemma {:induction false} SpaceRunOf(w: string, t: string)
    requires AllSpace(w) && (t == [] || !IsSpace(t[0]))
    ensures SpaceRun(w + t) == |w|
  {
    if w == [] {
      assert w + t == t;
    } else {
      assert (w + t)[0] == w[0] && (w + t)[1..] == w[1..] + t;
      SpaceRunOf(w[1..], t);
    }
  }

  /** The stripped text starts where the digit run and then the space run end. */
  lemma StripAt(s: string, k: nat, j: nat)
    requires HasStepPrefix(s) && k == 5 + DigitRun(s[5..]) && j == k + SpaceRun(s[k..])
    ensures StripStepPrefix(s) == s[j..]
  {
  }

  lemma StripsMarkerBefore(rest: string, digits: string, spaces: string, text: string)
    requires rest == digits + (spaces + text)
    requires digits != [] && AllDigits(digits) && AllSpace(spaces)
    requires spaces + text == [] || !IsDigit((spaces + text)[0])
    requires text == [] || !IsSpace(text[0])
    ensures StripStepPrefix("Step:" + rest) == text
  {
    var s := "Step:" + rest;
    assert s[..5] == "Step:" && s[5..] == rest && s[5] == digits[0];
    assert HasStepPrefix(s);
    DigitRunOf(digits, spaces + text);
    var k := 5 + |digits|;
    assert s[k..] == rest[|digits|..] == spaces + text;
    SpaceRunOf(spaces, text);
    var j := k + |spaces|;
    assert s[j..] == (spaces + text)[|spaces|..] == text;
    StripAt(s, k, j);
  }

  /** A marker "Step:", a run of digits and a run of white space before a text that
      does not continue either run: exactly the marker goes and the text is kept. */
  lemma StripsExactlyTheMarker(digits: string, spaces: string, text: string)
    requires digits != [] && AllDigits(digits) && AllSpace(spaces)
    requires spaces + text == [] || !IsDigit((spaces + text)[0])
    requires text == [] || !IsSpace(text[0])
    ensures StripStepPrefix("Step:" + digits + spaces + text) == text
  {
    assert "Step:" + digits + spaces + text == "Step:" + (digits + (spaces + text));
    StripsMarkerBefore(digits + (spaces + text), digits, spaces, text);
  }

  lemma StripsMarkerAndSpaces()
    ensures StripStepPrefix("Step:12\t Lift") == "Lift"
  {
    assert "Step:12\t Lift" == "Step:" + "12" + "\t " + "Lift";
    StripsExactlyTheMarker("12", "\t ", "Lift");
  }

  /** A marker without a digit right after the colon is not a match. */
  lemma KeepsSpacedMarker()
    ensures StripStepPrefix("Step: 3 Go") == "Step: 3 Go"
  {
    assert !IsDigit("Step: 3 Go"[5]);
  }

  /** The match is case-sensitive. */
  lemma KeepsLowerCaseMarker()
    ensures StripStepPrefix("step:3 Go") == "step:3 Go"
  {
    assert "step:3 Go"[..5][0] != "Step:"[0];
  }
}
