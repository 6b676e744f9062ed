/** The dashboard's workout dialog (frontend/src/components/Dashboard.jsx): one form
    serves both creating a workout and editing a listed one; on submit the form is
    turned into a request body with numbers where the server expects them. */
module Dashboard {
  import opened Wrappers
  import Text
  import opened Forms
  import WorkoutModel

  type Workout = WorkoutModel.Workout

  /** The dialog's state: the form, the workout being edited (none when creating),
      whether the dialog is open, whether a request is in flight, and the error line. */
  datatype Editor = Editor(form: Form, editing: Option<Workout>, open: bool, loading: bool, error: string)

  const Initial := Editor(BlankForm, None, false, false, "")

  /** `handleOpen`: a fresh create dialog with no name and one blank row. */
  function HandleOpen(e: Editor): (r: Editor)
    ensures r.form.name == "" && r.form.exercises == [BlankExercise]
    ensures r.editing.None? && r.open
    ensures r.loading == e.loading && r.error == e.error
  {
    e.(form := BlankForm, editing := None, open := true)
  }

  /** `handleClose`: the dialog closes and the error line is cleared; the form and the
      edited workout stay. */
  function HandleClose(e: Editor): (r: Editor)
    ensures !r.open && r.error == ""
    ensures r.form == e.form && r.editing == e.editing && r.loading == e.loading
  {
    e.(open := false, error := "")
  }

  /** The workout-name box. */
  function SetName(e: Editor, value: string): (r: Editor)
    ensures r.form.name == value && r.form.exercises == e.form.exercises
    ensures r.editing == e.editing && r.open == e.open && r.loading == e.loading && r.error == e.error
  {
    e.(form := e.form.(name := value))
  }

  /** `handleExerciseChange(index, field, value)`: only that field of that row changes. */
  function HandleExerciseChange(e: Editor, index: nat, field: Field, value: string): (r: Editor)
    requires index < |e.form.exercises|
    ensures r.form.name == e.form.name && |r.form.exercises| == |e.form.exercises|
    ensures Get(r.form.exercises[index], field) == value
    ensures forall g :: g != field ==> Get(r.form.exercises[index], g) == Get(e.form.exercises[index], g)
    ensures forall k :: 0 <= k < |e.form.exercises| && k != index ==> r.form.exercises[k] == e.form.exercises[k]
    ensures r.editing == e.editing && r.open == e.open && r.loading == e.loading && r.error == e.error
  {
    e.(form := ChangeExercise(e.form, index, field, value))
  }

  // ---------------------------------------------------------------------------
  // The request body

  /** One exercise as sent: sets and reps through `parseInt`, and the weight text
      only when the box is not empty (the text `parseFloat` would read; an empty box
      sends no weight). */
  datatype PayloadExercise = PayloadExercise(name: string, sets: Text.Num, reps: Text.Num, weight: Option<string>)

  datatype Payload = Payload(name: string, exercises: seq<PayloadExercise>)

  datatype Request = Post(path: string, payload: Payload) | Put(path: string, payload: Payload)

  function ToPayloadExercise(e: FormExercise): (p: PayloadExercise)
    ensures p.name == e.name
    ensures p.sets == Text.ParseInt(e.sets) && p.reps == Text.ParseInt(e.reps)
    ensures p.weight.None? <==> e.weight == ""
    ensures p.weight.Some? ==> p.weight.value == e.weight
  {
    PayloadExercise(e.name, Text.ParseInt(e.sets), Text.ParseInt(e.reps), if e.weight != "" then Some(e.weight) else None)
  }

  /** `workoutData`: the name as typed and the rows converted one by one, in order. */
  function ToPayload(form: Form): (p: Payload)
    ensures p.name == form.name && |p.exercises| == |form.exercises|
    ensures forall k :: 0 <= k < |form.exercises| ==> p.exercises[k] == ToPayloadExercise(form.exercises[k])
  {
    Payload(form.name, seq(|form.exercises|, k requires 0 <= k < |form.exercises| => ToPayloadExercise(form.exercises[k])))
  }

  /** The request `handleSubmit` sends: a PUT to the edited workout's path, or a POST
      to the collection when creating. */
  function SubmitRequest(e: Editor): (r: Request)
    ensures r.payload == ToPayload(e.form)
    ensures e.editing.Some? <==> r.Put?
    ensures e.editing.Some? ==> r.path == "/workouts/" + e.editing.value.id
    ensures e.editing.None? ==> r.path == "/workouts"
  {
    match e.editing
    case Some(w) => Put("/workouts/" + w.id, ToPayload(e.form))
    case None => Post("/workouts", ToPayload(e.form))
  }

  /** What submitting does: the request it sends and the dialog after the answer.
      Success closes the dialog and clears the error line; failure keeps it open with
      the server's message or "Failed to save workout". Loading ends either way. */
  datatype Submitted = Submitted(request: Request, editor: Editor)

  function HandleSubmit(e: Editor, answer: Answer<()>): (r: Submitted)
    ensures r.request == SubmitRequest(e)
    ensures !r.editor.loading && r.editor.form == e.form && r.editor.editing == e.editing
    ensures answer.Ok? ==> !r.editor.open && r.editor.error == ""
    ensures answer.Refused? ==> r.editor.open == e.open && r.editor.error == ErrorText(answer.message, "Failed to save workout")
  {
    var request := SubmitRequest(e);
    match answer
    case Ok(_) => Submitted(request, HandleClose(e.(loading := false, error := "")))
    case Refused(m) => Submitted(request, e.(loading := false, error := ErrorText(m, "Failed to save workout")))
  }

  // ---------------------------------------------------------------------------
  // Editing a listed workout

  /** `handleEdit` calls `toString` on every sets and reps value, which throws for a
      missing one, and the form holds every exercise name as text: the model edits
      workouts whose exercises all carry a name, sets and reps. */
  predicate Editable(w: Workout) {
    forall k :: 0 <= k < |w.exercises| ==>
      w.exercises[k].name.Some? && w.exercises[k].sets.Some? && w.exercises[k].reps.Some?
  }

  /** One exercise in the edit form: numbers as their decimal text, and a falsy weight
      -- 0 or none -- as an empty box. */
  function EditRow(x: WorkoutModel.Exercise): (r: FormExercise)
    requires x.name.Some? && x.sets.Some? && x.reps.Some?
    ensures r.name == x.name.value
    ensures r.sets == Text.IntToString(x.sets.value) && r.reps == Text.IntToString(x.reps.value)
    ensures r.weight == "" <==> !WorkoutModel.TruthyNumber(x.weight)
    ensures WorkoutModel.TruthyNumber(x.weight) ==> r.weight == Text.IntToString(x.weight.value)
  {
    FormExercise(x.name.value, Text.IntToString(x.sets.value), Text.IntToString(x.reps.value),
                 if WorkoutModel.TruthyNumber(x.weight) then Text.IntToString(x.weight.value) else "")
  }

  function EditForm(w: Workout): (f: Form)
    requires Editable(w)
    ensures f.name == w.name && |f.exercises| == |w.exercises|
    ensures forall k :: 0 <= k < |w.exercises| ==> f.exercises[k] == EditRow(w.exercises[k])
  {
    Form(w.name, seq(|w.exercises|, k requires 0 <= k < |w.exercises| => EditRow(w.exercises[k])))
  }

  /** `handleEdit(workout)`: the dialog opens on the workout's own values. */
  function HandleEdit(e: Editor, w: Workout): (r: Editor)
    requires Editable(w)
    ensures r.form == EditForm(w) && r.editing == Some(w) && r.open
    ensures r.loading == e.loading && r.error == e.error
  {
    e.(form := EditForm(w), editing := Some(w), open := true)
  }

  /** Opening a workout for editing and saving it unchanged sends a PUT to that
      workout whose body carries its name and, row for row, its exercise names, sets
      and reps as the same integers; a weight comes back as its decimal text, except
      that a weight of 0 or none is not sent at all. */
  lemma EditThenSubmitRoundTrip(e: Editor, w: Workout)
    requires Editable(w)
    ensures var r := SubmitRequest(HandleEdit(e, w));
      && r == Put("/workouts/" + w.id, r.payload)
      && r.payload.name == w.name
      && |r.payload.exercises| == |w.exercises|
      && forall k :: 0 <= k < |w.exercises| ==>
           && r.payload.exercises[k].name == w.exercises[k].name.value
           && r.payload.exercises[k].sets == Text.Num(w.exercises[k].sets.value)
           && r.payload.exercises[k].reps == Text.Num(w.exercises[k].reps.value)
           && r.payload.exercises[k].weight ==
                (if WorkoutModel.TruthyNumber(w.exercises[k].weight)
                 then Some(Text.IntToString(w.exercises[k].weight.value)) else None)
  {
    var r := SubmitRequest(HandleEdit(e, w));
    forall k | 0 <= k < |w.exercises|
      ensures r.payload.exercises[k].sets == Text.Num(w.exercises[k].sets.value)
      ensures r.payload.exercises[k].reps == Text.Num(w.exercises[k].reps.value)
    {
      Text.ParseIntToString(w.exercises[k].sets.value);
      Text.ParseIntToString(w.exercises[k].reps.value);
    }
  }

  /** A fresh create dialog submits a POST. */
  lemma OpenThenSubmitPosts(e: Editor)
    ensures SubmitRequest(HandleOpen(e)).Post?
    ensures SubmitRequest(HandleOpen(e)).path == "/workouts"
  {
  }

  // ---------------------------------------------------------------------------
  // What the dialog lets the user do

  /** The dialog's controls: the name box, a box of row `index`, "Add Exercise", and
      the remove button, rendered only for rows after the first. */
  datatype Action = Rename(value: string) | Change(index: nat, field: Field, value: string) | AddRow | RemoveRow(row: nat)

  predicate Offered(e: Editor, a: Action) {
    match a
    case Rename(_) => true
    case Change(i, _, _) => i < |e.form.exercises|
    case AddRow => true
    case RemoveRow(i) => 0 < i < |e.form.exercises|
  }

  function Perform(e: Editor, a: Action): Editor
    requires Offered(e, a)
  {
    match a
    case Rename(v) => SetName(e, v)
    case Change(i, f, v) => HandleExerciseChange(e, i, f, v)
    case AddRow => e.(form := AddExercise(e.form))
    case RemoveRow(i) => e.(form := RemoveExercise(e.form, i))
  }

  /** The dialog after a sequence of actions; one the dialog does not offer in the
      current state cannot be performed and changes nothing. */
  function PerformAll(e: Editor, actions: seq<Action>): Editor
    decreases |actions|
  {
    if actions == [] then e
    else if Offered(e, actions[0]) then PerformAll(Perform(e, actions[0]), actions[1..])
    else PerformAll(e, actions[1..])
  }

  /** No offered action removes the first row or changes it, except typing in it. */
  lemma PerformKeepsFirstRow(e: Editor, a: Action)
    requires Offered(e, a) && |e.form.exercises| > 0
    ensures |Perform(e, a).form.exercises| > 0
    ensures !(a.Change? && a.index == 0) ==> Perform(e, a).form.exercises[0] == e.form.exercises[0]
  {
  }

  /** Starting from a dialog with at least one row, every sequence of actions leaves
      at least one row, and a sequence that never types in the first row leaves it
      exactly as it was. */
  lemma {:induction false} FirstRowSurvives(e: Editor, actions: seq<Action>)
    requires |e.form.exercises| > 0
    ensures |PerformAll(e, actions).form.exercises| > 0
    ensures (forall k :: 0 <= k < |actions| ==> !(actions[k].Change? && actions[k].index == 0))
            ==> PerformAll(e, actions).form.exercises[0] == e.form.exercises[0]
    decreases |actions|
  {
    if actions != [] {
      var next := if Offered(e, actions[0]) then Perform(e, actions[0]) else e;
      if Offered(e, actions[0]) {
        PerformKeepsFirstRow(e, actions[0]);
      }
      FirstRowSurvives(next, actions[1..]);
      if forall k :: 0 <= k < |actions| ==> !(actions[k].Change? && actions[k].index == 0) {
        assert forall k :: 0 <= k < |actions[1..]| ==> actions[1..][k] == actions[k + 1];
      }
    }
  }
}
