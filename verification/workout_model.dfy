/** The workout document schema: field rules checked by schema validation, the
    `validateExercise` method and the pre-save hook (backend/models/Workout.js). */
module WorkoutModel {
  import opened Wrappers
  import Text

  type UserId = string
  type WorkoutId = string

  /** An exercise sub-document. A `None` field is one the request did not supply
      (`undefined` or `null`); `weight == None` is the schema's default `null`. */
  datatype Exercise = Exercise(name: Option<string>, sets: Option<int>, reps: Option<int>, weight: Option<int>)

  /** A stored workout document; `createdAt` is the timestamp the store assigns. */
  datatype Workout = Workout(id: WorkoutId, owner: UserId, name: string, exercises: seq<Exercise>, createdAt: int)

  /** JavaScript truthiness of an optional number (that of an optional string is
      `Wrappers.Truthy`). */
  predicate TruthyNumber(n: Option<int>) { n.Some? && n.value != 0 }

  // Schema messages.
  const WorkoutNameRequired := "Workout name is required"
  const ExercisesRequired := "At least one exercise is required"
  const ExerciseNameRequired := "Exercise name is required"
  const SetsRequired := "Number of sets is required"
  const SetsMin := "Sets must be at least 1"
  const RepsRequired := "Number of reps is required"
  const RepsMin := "Reps must be at least 1"
  const WeightNegative := "Weight cannot be negative"

  // Messages thrown by `validateExercise`.
  const MissingFields := "Each exercise must have a name, sets, and reps"
  const BelowOne := "Sets and reps must be at least 1"

  /** The `trim: true` setter on the exercise name, applied when a document is built. */
  function CastExercise(e: Exercise): (c: Exercise)
    ensures c.name.Some? <==> e.name.Some?
    ensures c.name.Some? ==> Text.Tight(c.name.value) && c.name.value == Text.Trim(e.name.value)
    ensures c.sets == e.sets && c.reps == e.reps && c.weight == e.weight
  {
    e.(name := if e.name.Some? then Some(Text.Trim(e.name.value)) else None)
  }

  /** Builds a workout document the way `new Workout({...})` does: the workout name
      and every exercise name go through the `trim` setter. */
  function NewWorkout(id: WorkoutId, owner: UserId, name: string, exercises: seq<Exercise>, createdAt: int): (w: Workout)
    ensures w.id == id && w.owner == owner && w.createdAt == createdAt
    ensures w.name == Text.Trim(name)
    ensures Text.Tight(w.name) && (Text.Tight(name) ==> w.name == name)
    ensures |w.exercises| == |exercises|
    ensures forall i :: 0 <= i < |exercises| ==> w.exercises[i] == CastExercise(exercises[i])
  {
    Workout(id, owner, Text.Trim(name), seq(|exercises|, i requires 0 <= i < |exercises| => CastExercise(exercises[i])), createdAt)
  }

  /** The field rules of the exercise schema: name required, sets and reps required
      and at least 1, weight at least 0 when present. */
  predicate ExerciseSchemaValid(e: Exercise) {
    && e.name.Some? && e.name.value != ""
    && e.sets.Some? && e.sets.value >= 1
    && e.reps.Some? && e.reps.value >= 1
    && (e.weight.None? || e.weight.value >= 0)
  }

  /** The messages schema validation reports for one exercise, path by path. */
  function ExerciseSchemaErrors(e: Exercise): (errs: seq<string>)
    ensures errs == [] <==> ExerciseSchemaValid(e)
    ensures ExerciseNameRequired in errs <==> !Truthy(e.name)
    ensures SetsRequired in errs <==> e.sets.None?
    ensures RepsRequired in errs <==> e.reps.None?
    ensures SetsMin in errs <==> (e.sets.Some? && e.sets.value < 1)
    ensures RepsMin in errs <==> (e.reps.Some? && e.reps.value < 1)
    ensures WeightNegative in errs <==> (e.weight.Some? && e.weight.value < 0)
  {
    (if !Truthy(e.name) then [ExerciseNameRequired] else [])
    + (if e.sets.None? then [SetsRequired] else if e.sets.value < 1 then [SetsMin] else [])
    + (if e.reps.None? then [RepsRequired] else if e.reps.value < 1 then [RepsMin] else [])
    + (if e.weight.Some? && e.weight.value < 0 then [WeightNegative] else [])
  }

  /** The messages of every exercise, in list order. */
  function AllExerciseErrors(es: seq<Exercise>): (errs: seq<string>)
    ensures errs == [] <==> forall i :: 0 <= i < |es| ==> ExerciseSchemaValid(es[i])
  {
    if es == [] then []
    else
      var rest := AllExerciseErrors(es[1..]);
      assert forall i :: 1 <= i < |es| ==> es[i] == es[1..][i - 1];
      ExerciseSchemaErrors(es[0]) + rest
  }

  /** The messages schema validation reports for a workout document. */
  function SchemaErrors(w: Workout): seq<string> {
    (if w.name == "" then [WorkoutNameRequired] else [])
    + (if |w.exercises| == 0 then [ExercisesRequired] else AllExerciseErrors(w.exercises))
  }

  /** A document schema validation accepts. */
  predicate SchemaValid(w: Workout) {
    && w.name != ""
    && |w.exercises| > 0
    && forall i :: 0 <= i < |w.exercises| ==> ExerciseSchemaValid(w.exercises[i])
  }

  lemma SchemaErrorsIffInvalid(w: Workout)
    ensures SchemaErrors(w) == [] <==> SchemaValid(w)
    ensures ExercisesRequired in SchemaErrors(w) <==> |w.exercises| == 0
  {
    if |w.exercises| > 0 {
      NoExercisesMessageInExerciseErrors(w.exercises);
    }
  }

  lemma {:induction false} NoExercisesMessageInExerciseErrors(es: seq<Exercise>)
    ensures ExercisesRequired !in AllExerciseErrors(es)
  {
    if es != [] {
      NoExercisesMessageInExerciseErrors(es[1..]);
    }
  }

  /** `validateExercise`: a missing or falsy name, sets or reps is reported first
      (so `sets == 0` gets this message, not the minimum one), then sets or reps
      below 1, then a negative non-null weight. */
  function ValidateExercise(e: Exercise): (r: Outcome<string>)
    ensures r == Pass <==>
      Truthy(e.name) && e.sets.Some? && e.sets.value >= 1 && e.reps.Some? && e.reps.value >= 1
      && (e.weight.None? || e.weight.value >= 0)
    ensures r == Fail(MissingFields) <==> !Truthy(e.name) || !TruthyNumber(e.sets) || !TruthyNumber(e.reps)
    ensures r == Fail(BelowOne) <==>
      Truthy(e.name) && TruthyNumber(e.sets) && TruthyNumber(e.reps) && (e.sets.value < 0 || e.reps.value < 0)
    ensures r == Fail(WeightNegative) <==>
      Truthy(e.name) && e.sets.Some? && e.sets.value >= 1 && e.reps.Some? && e.reps.value >= 1
      && e.weight.Some? && e.weight.value < 0
  {
    if !Truthy(e.name) || !TruthyNumber(e.sets) || !TruthyNumber(e.reps) then Fail(MissingFields)
    else if e.sets.value < 1 || e.reps.value < 1 then Fail(BelowOne)
    else if e.weight.Some? && e.weight.value < 0 then Fail(WeightNegative)
    else Pass
  }

  /** `exercises.forEach(validateExercise)`: the first exercise that throws decides. */
  function ValidateAll(es: seq<Exercise>): (r: Outcome<string>)
    ensures r == Pass <==> forall i :: 0 <= i < |es| ==> ValidateExercise(es[i]) == Pass
  {
    if es == [] then Pass
    else if ValidateExercise(es[0]).Fail? then ValidateExercise(es[0])
    else
      assert forall i :: 1 <= i < |es| ==> es[i] == es[1..][i - 1];
      ValidateAll(es[1..])
  }

  /** A failure of the loop is the message of the first exercise that fails. */
  lemma {:induction false} ValidateAllReportsFirstFailure(es: seq<Exercise>)
    requires ValidateAll(es).Fail?
    ensures exists i :: 0 <= i < |es| && ValidateExercise(es[i]) == ValidateAll(es)
                        && forall k :: 0 <= k < i ==> ValidateExercise(es[k]) == Pass
  {
    if ValidateExercise(es[0]).Fail? {
      assert ValidateExercise(es[0]) == ValidateAll(es);
    } else {
      ValidateAllReportsFirstFailure(es[1..]);
      var i :| 0 <= i < |es[1..]| && ValidateExercise(es[1..][i]) == ValidateAll(es[1..])
                && forall k :: 0 <= k < i ==> ValidateExercise(es[1..][k]) == Pass;
      assert ValidateExercise(es[i + 1]) == ValidateAll(es);
      assert forall k :: 1 <= k < i + 1 ==> es[k] == es[1..][k - 1];
    }
  }

  /** The pre-save hook: an empty list is refused, then every exercise is validated. */
  function PreSave(es: seq<Exercise>): (r: Outcome<string>)
    ensures r == Pass <==> |es| > 0 && forall i :: 0 <= i < |es| ==> ValidateExercise(es[i]) == Pass
    ensures |es| == 0 ==> r == Fail(ExercisesRequired)
  {
    if |es| == 0 then Fail(ExercisesRequired) else ValidateAll(es)
  }

  /** Why `save()` refused a document. */
  datatype SaveError = Invalid(messages: seq<string>) | Rejected(message: string)

  /** `save()`: built-in schema validation runs before the pre-save hook. */
  function Save(w: Workout): (r: Result<Workout, SaveError>)
    ensures r.Success? <==> SchemaValid(w)
    ensures r.Success? ==> r.value == w
  {
    SchemaErrorsIffInvalid(w);
    var errs := SchemaErrors(w);
    if errs != [] then Failure(Invalid(errs))
    else
      SchemaPassesPreSave(w);
      match PreSave(w.exercises)
      case Fail(m) => Failure(Rejected(m))
      case Pass => Success(w)
  }

  /** A document that passes schema validation also passes the pre-save hook, so the
      hook never changes the outcome of `save()`. */
  lemma SchemaPassesPreSave(w: Workout)
    requires SchemaValid(w)
    ensures PreSave(w.exercises) == Pass
  {
  }

  /** The converse fails: the hook accepts a document whose workout name is empty. */
  lemma PreSaveWeakerThanSchema()
    ensures exists w: Workout :: PreSave(w.exercises) == Pass && !SchemaValid(w)
  {
    var w := Workout("w", "u", "", [Exercise(Some("Squat"), Some(3), Some(8), None)], 0);
    assert ValidateExercise(w.exercises[0]) == Pass;
    assert PreSave(w.exercises) == Pass;
  }

  /** Every name in a document built by `NewWorkout` is stored trimmed. */
  lemma NewWorkoutTrimsNames(id: WorkoutId, owner: UserId, name: string, exercises: seq<Exercise>, createdAt: int)
    ensures var w := NewWorkout(id, owner, name, exercises, createdAt);
      Text.Tight(w.name) && forall i :: 0 <= i < |w.exercises| && w.exercises[i].name.Some? ==> Text.Tight(w.exercises[i].name.value)
  {
  }
}
