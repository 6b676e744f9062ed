/** The "My Workouts" screen (frontend/src/components/Workouts.jsx): the workout list
    the server sent, the search filter over it, and the create dialog's form. Server
    calls are replaced by their answers, which arrive as parameters. */
module WorkoutsPage {
  import opened Wrappers
  import Text
  import Seqs
  import opened Forms
  import WorkoutModel
  import WorkoutRoutes

  type Workout = WorkoutModel.Workout

  /** The screen's state: the list shown, the error line, whether the create dialog is
      open, and the dialog's form. */
  datatype Page = Page(workouts: seq<Workout>, loading: bool, error: Option<string>, open: bool, form: Form)

  const Initial := Page([], true, None, false, BlankForm)

  /** `fetchWorkouts`: the list is replaced by what the server sent, or the error line
      shows the server's message or "Error fetching workouts". Loading ends either way. */
  function Fetch(p: Page, answer: Answer<seq<Workout>>): (r: Page)
    ensures !r.loading && r.open == p.open && r.form == p.form
    ensures answer.Ok? ==> r.workouts == answer.data && r.error == None
    ensures answer.Refused? ==>
      r.workouts == p.workouts && r.error == Some(ErrorText(answer.message, "Error fetching workouts"))
  {
    match answer
    case Ok(ws) => p.(workouts := ws, loading := false, error := None)
    case Refused(m) => p.(loading := false, error := Some(ErrorText(m, "Error fetching workouts")))
  }

  // ---------------------------------------------------------------------------
  // Form editing

  /** `handleInputChange(e, index)`. The dispatch is on the input's `name` attribute
      alone: every box named "name" -- the workout-name box, which passes no index, and
      each row's exercise-name box, which passes its row -- sets the workout name. Any
      other field sets that field of row `index`. Only rendered inputs call it, so a
      non-name field always comes with the index of an existing row. */
  function HandleInputChange(form: Form, field: Field, value: string, index: Option<nat>): (r: Form)
    requires field == Name || (index.Some? && index.value < |form.exercises|)
    ensures field == Name ==> r == form.(name := value)
    ensures field != Name ==>
      && r.name == form.name && |r.exercises| == |form.exercises|
      && Get(r.exercises[index.value], field) == value
      && (forall g :: g != field ==> Get(r.exercises[index.value], g) == Get(form.exercises[index.value], g))
      && forall k :: 0 <= k < |form.exercises| && k != index.value ==> r.exercises[k] == form.exercises[k]
  {
    if field == Name then form.(name := value)
    else ChangeExercise(form, index.value, field, value)
  }

  /** Typing in row `i`'s exercise-name box changes the workout name and leaves every
      row, that one included, as it was. */
  lemma ExerciseNameEditHitsWorkoutName(form: Form, i: nat, value: string)
    requires i < |form.exercises|
    ensures HandleInputChange(form, Name, value, Some(i)).name == value
    ensures HandleInputChange(form, Name, value, Some(i)).exercises == form.exercises
  {
  }

  /** The Create button's `disabled` condition: no workout name, or a row lacking a
      name, sets or reps. */
  predicate SubmitDisabled(form: Form) {
    form.name == "" || exists k :: 0 <= k < |form.exercises| && Incomplete(form.exercises[k])
  }

  predicate Incomplete(e: FormExercise) {
    e.name == "" || e.sets == "" || e.reps == ""
  }

  /** The button is enabled exactly when the workout has a name and every row has a
      name, sets and reps; the weight plays no part. */
  lemma SubmitEnabledIff(form: Form)
    ensures !SubmitDisabled(form) <==>
      && form.name != ""
      && forall k :: 0 <= k < |form.exercises| ==>
        form.exercises[k].name != "" && form.exercises[k].sets != "" && form.exercises[k].reps != ""
  {
  }

  /** "Add Exercise" disables the button, since the new row is blank. */
  lemma AddRowDisablesSubmit(form: Form)
    ensures SubmitDisabled(AddExercise(form))
  {
    assert Incomplete(AddExercise(form).exercises[|form.exercises|]);
  }

  /** Clearing the workout name, or a row's sets or reps, disables the button. */
  lemma ClearingBoxDisablesSubmit(form: Form, field: Field, index: Option<nat>)
    requires field != Weight
    requires field == Name || (index.Some? && index.value < |form.exercises|)
    ensures SubmitDisabled(HandleInputChange(form, field, "", index))
  {
    if field != Name {
      assert Incomplete(HandleInputChange(form, field, "", index).exercises[index.value]);
    }
  }

  /** Removing a row never disables an enabled button. */
  lemma RemoveRowKeepsSubmitEnabled(form: Form, i: int)
    requires !SubmitDisabled(form)
    ensures !SubmitDisabled(RemoveExercise(form, i))
  {
    var r := RemoveExercise(form, i);
    forall k | 0 <= k < |r.exercises|
      ensures !Incomplete(r.exercises[k])
    {
      assert r.exercises[k] in form.exercises;
    }
  }

  /** What the user can do in the open dialog: type in a box (`index` is `None` for the
      workout-name box, else the row), add a row, or remove a row -- the Remove button
      is shown only for rows after the first. */
  datatype Edit = Type(field: Field, index: Option<nat>, value: string) | AddRow | RemoveRow(row: nat)

  predicate Offered(form: Form, e: Edit) {
    match e
    case Type(f, index, _) =>
      if index.None? then f == Name else index.value < |form.exercises|
    case AddRow => true
    case RemoveRow(i) => 0 < i < |form.exercises|
  }

  function Apply(form: Form, e: Edit): Form
    requires Offered(form, e)
  {
    match e
    case Type(f, index, v) => HandleInputChange(form, f, v, index)
    case AddRow => AddExercise(form)
    case RemoveRow(i) => RemoveExercise(form, i)
  }

  /** The form after a sequence of user actions; an action the screen does not offer
      in the current state cannot be performed and leaves the form as it is. */
  function ApplyAll(form: Form, edits: seq<Edit>): Form
    decreases |edits|
  {
    if edits == [] then form
    else if Offered(form, edits[0]) then ApplyAll(Apply(form, edits[0]), edits[1..])
    else ApplyAll(form, edits[1..])
  }

  /** No exercise row has a name, and there is at least one row. */
  predicate RowsUnnamed(form: Form) {
    |form.exercises| > 0 && forall k :: 0 <= k < |form.exercises| ==> form.exercises[k].name == ""
  }

  lemma ApplyKeepsRowsUnnamed(form: Form, e: Edit)
    requires Offered(form, e) && RowsUnnamed(form)
    ensures RowsUnnamed(Apply(form, e))
  {
    match e
    case Type(f, index, v) =>
    case AddRow =>
    case RemoveRow(i) =>
      var r := Apply(form, e);
      assert forall k :: 0 <= k < |r.exercises| ==> r.exercises[k] in form.exercises;
  }

  lemma {:induction false} ApplyAllKeepsRowsUnnamed(form: Form, edits: seq<Edit>)
    requires RowsUnnamed(form)
    ensures RowsUnnamed(ApplyAll(form, edits))
    decreases |edits|
  {
    if edits != [] {
      if Offered(form, edits[0]) {
        ApplyKeepsRowsUnnamed(form, edits[0]);
        ApplyAllKeepsRowsUnnamed(Apply(form, edits[0]), edits[1..]);
      } else {
        ApplyAllKeepsRowsUnnamed(form, edits[1..]);
      }
    }
  }

  /** Because no box can ever put text into an exercise name, the Create button stays
      disabled whatever the user does after opening the screen: a workout cannot be
      created from this screen. */
  lemma CreateNeverEnabled(edits: seq<Edit>)
    ensures SubmitDisabled(ApplyAll(BlankForm, edits))
  {
    ApplyAllKeepsRowsUnnamed(BlankForm, edits);
    var f := ApplyAll(BlankForm, edits);
    assert Incomplete(f.exercises[0]);
  }

  // ---------------------------------------------------------------------------
  // Submitting and deleting

  /** `handleSubmit`: the created workout goes to the front of the list, the form is
      reset to one blank row and the dialog closes; on failure the error line shows
      the server's message or "Error creating workout" and the form stays. */
  function HandleSubmit(p: Page, answer: Answer<Workout>): (r: Page)
    ensures r.loading == p.loading
    ensures answer.Ok? ==> r == p.(workouts := [answer.data] + p.workouts, error := None, open := false, form := BlankForm)
    ensures answer.Refused? ==>
      r == p.(error := Some(ErrorText(answer.message, "Error creating workout")))
  {
    match answer
    case Ok(w) => Page([w] + p.workouts, p.loading, None, false, BlankForm)
    case Refused(m) => p.(error := Some(ErrorText(m, "Error creating workout")))
  }

  /** `handleDelete(id)`: nothing happens unless the user confirms; after the server
      deleted, every listed workout with that id is dropped and the rest keep their
      order; on failure the error line shows the server's message or "Error deleting
      workout". */
  function HandleDelete(p: Page, id: WorkoutModel.WorkoutId, confirmed: bool, answer: Answer<()>): (r: Page)
    ensures !confirmed ==> r == p
    ensures r.form == p.form && r.open == p.open && r.loading == p.loading
    ensures confirmed && answer.Ok? ==>
      && r.error == p.error
      && (forall w :: w in r.workouts <==> w in p.workouts && w.id != id)
      && Seqs.SubsequenceOf(r.workouts, p.workouts)
      && forall w :: multiset(r.workouts)[w] == if w.id != id then multiset(p.workouts)[w] else 0
    ensures confirmed && answer.Refused? ==>
      r == p.(error := Some(ErrorText(answer.message, "Error deleting workout")))
  {
    if !confirmed then p
    else
      match answer
      case Ok(_) => p.(workouts := Seqs.Filter(p.workouts, (w: Workout) => w.id != id))
      case Refused(m) => p.(error := Some(ErrorText(m, "Error deleting workout")))
  }

  /** Prepending the workout the server created keeps the screen's list equal, as a
      multiset, to what the server would now list for the same user. */
  lemma LocalCreateMatchesServer(store: WorkoutRoutes.Store, acting: WorkoutModel.UserId, req: WorkoutRoutes.WorkoutRequest,
                                 id: WorkoutModel.WorkoutId, now: int, development: bool, p: Page)
    requires p.workouts == WorkoutRoutes.List(store, acting).body.workouts
    requires WorkoutRoutes.Create(store, acting, req, id, now, development).reply.status == 201
    ensures var c := WorkoutRoutes.Create(store, acting, req, id, now, development);
      multiset(HandleSubmit(p, Ok(c.reply.body.workout)).workouts)
        == multiset(WorkoutRoutes.List(c.store, acting).body.workouts)
  {
    var c := WorkoutRoutes.Create(store, acting, req, id, now, development);
    var w := c.reply.body.workout;
    assert c.store == store + [w] && w.owner == acting;
    ListAppendOwned(store, w, acting);
  }

  lemma ListAppendOwned(store: WorkoutRoutes.Store, w: Workout, acting: WorkoutModel.UserId)
    requires w.owner == acting
    ensures multiset(WorkoutRoutes.List(store + [w], acting).body.workouts)
         == multiset([w] + WorkoutRoutes.List(store, acting).body.workouts)
  {
    OwnedCountsAppend(store, w, acting, WorkoutRoutes.List(store, acting).body.workouts,
                      WorkoutRoutes.List(store + [w], acting).body.workouts);
  }

  /** Two lists holding each workout of `acting` as often as their stores do differ
      by `w` when the stores do. */
  lemma OwnedCountsAppend(store: WorkoutRoutes.Store, w: Workout, acting: WorkoutModel.UserId, before: seq<Workout>, after: seq<Workout>)
    requires w.owner == acting
    requires forall x :: multiset(before)[x] == if x.owner == acting then multiset(store)[x] else 0
    requires forall x :: multiset(after)[x] == if x.owner == acting then multiset(store + [w])[x] else 0
    ensures multiset(after) == multiset([w] + before)
  {
    assert multiset(store + [w]) == multiset(store) + multiset{w};
    forall x
      ensures multiset(after)[x] == multiset([w] + before)[x]
    {
    }
  }

  /** No two stored workouts share an id. */
  ghost predicate DistinctIds(store: WorkoutRoutes.Store) {
    forall i, j :: 0 <= i < j < |store| ==> store[i].id != store[j].id
  }

  /** When ids are distinct, dropping the deleted id from the screen's list leaves
      exactly the workouts the server would now list. */
  lemma LocalDeleteMatchesServer(store: WorkoutRoutes.Store, acting: WorkoutModel.UserId, id: WorkoutModel.WorkoutId, p: Page)
    requires DistinctIds(store)
    requires p.workouts == WorkoutRoutes.List(store, acting).body.workouts
    requires WorkoutRoutes.Delete(store, acting, id).reply == WorkoutRoutes.Deleted
    ensures var d := WorkoutRoutes.Delete(store, acting, id);
      forall w :: w in HandleDelete(p, id, true, Ok(())).workouts <==> w in WorkoutRoutes.List(d.store, acting).body.workouts
  {
    var d := WorkoutRoutes.Delete(store, acting, id);
    var i := WorkoutRoutes.FindOwned(store, id, acting).value;
    assert i < |store| && store[i].id == id;
    assert d.store == store[..i] + store[i + 1..];
    RemoveUniqueId(store, i, id);
  }

  /** With distinct ids, removing the record at `i` removes exactly the records with
      its id. */
  lemma RemoveUniqueId(store: WorkoutRoutes.Store, i: nat, id: WorkoutModel.WorkoutId)
    requires DistinctIds(store) && i < |store| && store[i].id == id
    ensures forall w :: w in store[..i] + store[i + 1..] <==> w in store && w.id != id
  {
    var rest := store[..i] + store[i + 1..];
    forall w
      ensures w in rest <==> w in store && w.id != id
    {
      if w in rest {
        var k :| 0 <= k < |rest| && rest[k] == w;
        if k < i {
          assert store[k] == w;
        } else {
          assert store[k + 1] == w;
        }
      }
      if w in store && w.id != id {
        var k :| 0 <= k < |store| && store[k] == w;
        assert k != i;
        if k < i {
          assert rest[k] == w;
        } else {
          assert rest[k - 1] == w;
        }
      }
    }
  }

  // ---------------------------------------------------------------------------
  // Search

  /** What the search box promises: the lower-cased query occurs in the lower-cased
      workout name or in the lower-cased name of one of its exercises. */
  ghost predicate Mentions(w: Workout, query: string) {
    || Text.Contains(Text.Lower(w.name), Text.Lower(query))
    || exists k :: 0 <= k < |w.exercises| && w.exercises[k].name.Some?
         && Text.Contains(Text.Lower(w.exercises[k].name.value), Text.Lower(query))
  }

  predicate ExerciseMatches(e: WorkoutModel.Exercise, query: string) {
    e.name.Some? && Text.Includes(Text.Lower(e.name.value), Text.Lower(query))
  }

  /** `exercises.some(...)`. */
  function AnyExerciseMatches(es: seq<WorkoutModel.Exercise>, query: string): (b: bool)
    ensures b <==> exists k :: 0 <= k < |es| && ExerciseMatches(es[k], query)
  {
    if es == [] then false
    else
      assert forall k :: 1 <= k < |es| ==> es[k] == es[1..][k - 1];
      ExerciseMatches(es[0], query) || AnyExerciseMatches(es[1..], query)
  }

  /** The filter's test for one workout. */
  predicate Matches(w: Workout, query: string) {
    Text.Includes(Text.Lower(w.name), Text.Lower(query)) || AnyExerciseMatches(w.exercises, query)
  }

  lemma MatchesIffMentions(w: Workout, query: string)
    ensures Matches(w, query) <==> Mentions(w, query)
  {
    Text.IncludesIffContains(Text.Lower(w.name), Text.Lower(query));
    forall k | 0 <= k < |w.exercises| && w.exercises[k].name.Some?
      ensures ExerciseMatches(w.exercises[k], query) <==> Text.Contains(Text.Lower(w.exercises[k].name.value), Text.Lower(query))
    {
      Text.IncludesIffContains(Text.Lower(w.exercises[k].name.value), Text.Lower(query));
    }
  }

  /** `filteredWorkouts`: exactly the listed workouts that mention the query, in list
      order and with their multiplicity. */
  function Filtered(workouts: seq<Workout>, query: string): (r: seq<Workout>)
    ensures forall w :: w in r <==> w in workouts && Mentions(w, query)
    ensures Seqs.SubsequenceOf(r, workouts)
    ensures forall w :: multiset(r)[w] == if Mentions(w, query) then multiset(workouts)[w] else 0
  {
    forall w: Workout ensures Matches(w, query) <==> Mentions(w, query) {
      MatchesIffMentions(w, query);
    }
    Seqs.Filter(workouts, (w: Workout) => Matches(w, query))
  }

  /** An empty search box shows the whole list. */
  lemma EmptyQueryKeepsAll(workouts: seq<Workout>)
    ensures Filtered(workouts, "") == workouts
  {
    assert Text.Lower("") == "";
    forall w: Workout ensures Matches(w, "") {
      Text.IncludesEmpty(Text.Lower(w.name));
    }
  }
}
