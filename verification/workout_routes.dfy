/** The workout REST handlers (backend/routes/workouts.js) as pure operations on an
    in-memory store. Every handler takes the acting user id explicitly: the value the
    handlers read as `req.user.id` (see AuthGuard for what that value really is). */
module WorkoutRoutes {
  import opened Wrappers
  import opened WorkoutModel
  import Text
  import Seqs

  /** The workouts collection, in insertion order. */
  type Store = seq<Workout>

  /** The `exercises` field of a request body. */
  datatype ExerciseList = Absent | NotArray | Items(items: seq<Exercise>)

  /** The body of a POST or PUT request. */
  datatype WorkoutRequest = WorkoutRequest(name: Option<string>, exercises: ExerciseList)

  datatype Body =
    | Message(message: string)
    | Failed(message: string, error: Option<string>)
    | One(workout: Workout)
    | Many(workouts: seq<Workout>)

  datatype Reply = Reply(status: int, body: Body)

  /** A reply together with the store after the handler. */
  datatype Handled = Handled(reply: Reply, store: Store)

  const NameMissing := Reply(400, Message(WorkoutNameRequired))
  const ExercisesMissing := Reply(400, Message(ExercisesRequired))
  const NotFound := Reply(404, Message("Workout not found"))
  const Deleted := Reply(200, Message("Workout deleted"))

  /** `exercises` is present, an array, and not empty. */
  predicate NonEmptyList(l: ExerciseList) {
    l.Items? && |l.items| > 0
  }

  /** The workouts `acting` owns, in store order (`find({ user })`). */
  function Owned(store: Store, acting: UserId): seq<Workout> {
    Seqs.Filter(store, (w: Workout) => w.owner == acting)
  }

  // ---------------------------------------------------------------------------
  // GET /

  /** Newest first: `sort({ createdAt: -1 })`. */
  ghost predicate NewestFirst(ws: seq<Workout>) {
    forall i, j :: 0 <= i < j < |ws| ==> ws[i].createdAt >= ws[j].createdAt
  }

  function Insert(w: Workout, ws: seq<Workout>): (r: seq<Workout>)
    requires NewestFirst(ws)
    ensures NewestFirst(r)
    ensures multiset(r) == multiset(ws) + multiset{w}
  {
    if ws == [] || w.createdAt >= ws[0].createdAt then
      InsertFront(w, ws);
      [w] + ws
    else
      var rest := Insert(w, ws[1..]);
      InsertBehind(w, ws, rest);
      [ws[0]] + rest
  }

  lemma InsertFront(w: Workout, ws: seq<Workout>)
    requires NewestFirst(ws) && (ws == [] || w.createdAt >= ws[0].createdAt)
    ensures NewestFirst([w] + ws)
  {
    assert forall j :: 0 <= j < |ws| ==> w.createdAt >= ws[j].createdAt;
    ConsNewestFirst(w, ws);
  }

  lemma InsertBehind(w: Workout, ws: seq<Workout>, rest: seq<Workout>)
    requires ws != [] && NewestFirst(ws) && w.createdAt < ws[0].createdAt
    requires NewestFirst(rest) && multiset(rest) == multiset(ws[1..]) + multiset{w}
    ensures NewestFirst([ws[0]] + rest)
    ensures multiset([ws[0]] + rest) == multiset(ws) + multiset{w}
  {
    assert ws == [ws[0]] + ws[1..];
    forall j | 0 <= j < |rest|
      ensures ws[0].createdAt >= rest[j].createdAt
    {
      assert rest[j] in multiset(rest);
      if rest[j] != w {
        assert rest[j] in multiset(ws[1..]);
        var k :| 0 <= k < |ws[1..]| && ws[1..][k] == rest[j];
        assert ws[k + 1] == rest[j];
      }
    }
    ConsNewestFirst(ws[0], rest);
    assert multiset([ws[0]] + rest) == multiset{ws[0]} + multiset(rest);
  }

  /** Putting a workout no older than any of `ws` in front keeps newest-first order. */
  lemma ConsNewestFirst(x: Workout, ws: seq<Workout>)
    requires NewestFirst(ws)
    requires forall j :: 0 <= j < |ws| ==> x.createdAt >= ws[j].createdAt
    ensures NewestFirst([x] + ws)
  {
    var r := [x] + ws;
    forall i, j | 0 <= i < j < |r|
      ensures r[i].createdAt >= r[j].createdAt
    {
      assert r[j] == ws[j - 1];
      if i > 0 {
        assert r[i] == ws[i - 1];
      }
    }
  }

  /** Sorts newest first; ties keep no particular order, as in the store. */
  function SortNewestFirst(ws: seq<Workout>): (r: seq<Workout>)
    ensures NewestFirst(r)
    ensures multiset(r) == multiset(ws)
  {
    if ws == [] then []
    else
      assert ws == [ws[0]] + ws[1..];
      Insert(ws[0], SortNewestFirst(ws[1..]))
  }

  /** GET /: exactly the workouts `acting` owns, each as often as stored, newest first.
      The store is not touched. */
  function List(store: Store, acting: UserId): (r: Reply)
    ensures r.status == 200 && r.body.Many?
    ensures NewestFirst(r.body.workouts)
    ensures forall w :: w in r.body.workouts <==> w in store && w.owner == acting
    ensures forall w :: multiset(r.body.workouts)[w] == if w.owner == acting then multiset(store)[w] else 0
  {
    var owned := Owned(store, acting);
    var sorted := SortNewestFirst(owned);
    assert multiset(sorted) == multiset(owned);
    forall w
      ensures w in sorted <==> w in store && w.owner == acting
    {
      assert w in sorted <==> w in multiset(sorted);
      assert w in owned <==> w in multiset(owned);
    }
    Reply(200, Many(sorted))
  }

  // ---------------------------------------------------------------------------
  // POST /

  /** The route's copy of one requested exercise: `weight: exercise.weight || null`
      turns an absent weight and a weight of 0 into `null`. */
  function FromRequest(e: Exercise): (c: Exercise)
    ensures c.name == e.name && c.sets == e.sets && c.reps == e.reps
    ensures TruthyNumber(e.weight) ==> c.weight == e.weight
    ensures !TruthyNumber(e.weight) ==> c.weight == None
  {
    Exercise(e.name, e.sets, e.reps, if TruthyNumber(e.weight) then e.weight else None)
  }

  function FromRequestAll(items: seq<Exercise>): (r: seq<Exercise>)
    ensures |r| == |items|
    ensures forall i :: 0 <= i < |items| ==> r[i] == FromRequest(items[i])
    ensures forall i :: 0 <= i < |items| ==>
      && r[i].name == items[i].name && r[i].sets == items[i].sets && r[i].reps == items[i].reps
      && r[i].weight == (if TruthyNumber(items[i].weight) then items[i].weight else None)
  {
    seq(|items|, i requires 0 <= i < |items| => FromRequest(items[i]))
  }

  /** A requested exercise that survives schema validation once copied and trimmed:
      a name that is not only white space, sets and reps at least 1, and a weight
      that is absent or not negative. */
  predicate Acceptable(e: Exercise) {
    && e.name.Some? && Text.Trim(e.name.value) != ""
    && e.sets.Some? && e.sets.value >= 1
    && e.reps.Some? && e.reps.value >= 1
    && (e.weight.None? || e.weight.value >= 0)
  }

  predicate AllAcceptable(items: seq<Exercise>) {
    forall i :: 0 <= i < |items| ==> Acceptable(items[i])
  }

  lemma AcceptableIffSchemaValid(e: Exercise)
    ensures ExerciseSchemaValid(CastExercise(FromRequest(e))) <==> Acceptable(e)
  {
  }

  /** The document POST builds passes schema validation exactly when its trimmed name
      is not empty, the list is not empty, and every requested exercise is acceptable. */
  lemma NewWorkoutValidIff(id: WorkoutId, acting: UserId, name: string, items: seq<Exercise>, now: int)
    ensures SchemaValid(NewWorkout(id, acting, name, FromRequestAll(items), now)) <==>
      !Text.AllSpace(name) && |items| > 0 && AllAcceptable(items)
  {
    var doc := NewWorkout(id, acting, name, FromRequestAll(items), now);
    forall i | 0 <= i < |items|
      ensures ExerciseSchemaValid(doc.exercises[i]) <==> Acceptable(items[i])
    {
      AcceptableIffSchemaValid(items[i]);
    }
  }

  /** The text of a `save()` error, shown only in development mode. */
  function SaveErrorText(e: SaveError): string {
    match e
    case Invalid(messages) => "Workout validation failed: " + Text.Join(messages, ", ")
    case Rejected(message) => message
  }

  /** POST /: a falsy name is refused first, then a missing, non-array or empty
      exercise list; otherwise the copied document is saved for `acting` with the
      caller-supplied `id` and timestamp `now`. */
  function Create(store: Store, acting: UserId, req: WorkoutRequest, id: WorkoutId, now: int, development: bool): (r: Handled)
    ensures !Truthy(req.name) ==> r == Handled(NameMissing, store)
    ensures Truthy(req.name) && !NonEmptyList(req.exercises) ==> r == Handled(ExercisesMissing, store)
    ensures r.reply.status == 201 <==>
      && Truthy(req.name) && !Text.AllSpace(req.name.value)
      && NonEmptyList(req.exercises)
      && AllAcceptable(req.exercises.items)
    ensures r.reply.status != 201 ==> r.store == store
    ensures r.reply.status == 500 ==>
      r.reply.body.Failed? && r.reply.body.message == "Error creating workout"
      && (r.reply.body.error.Some? <==> development)
    ensures Truthy(req.name) && NonEmptyList(req.exercises) && r.reply.status != 201 ==> r.reply.status == 500
    ensures r.reply.status == 201 ==>
      && r.reply.body.One?
      && r.store == store + [r.reply.body.workout]
      && Copied(r.reply.body.workout, id, acting, req.name.value, req.exercises.items, now)
  {
    if !Truthy(req.name) then Handled(NameMissing, store)
    else if !NonEmptyList(req.exercises) then Handled(ExercisesMissing, store)
    else
      SaveNew(store, acting, req.name.value, req.exercises.items, id, now, development)
  }

  /** POST / once the request checks have passed: the copied document is saved, or
      the 500 reply carries the save error in development mode. */
  function SaveNew(store: Store, acting: UserId, name: string, items: seq<Exercise>, id: WorkoutId, now: int, development: bool): (r: Handled)
    ensures r.reply.status == 201 <==>
      !Text.AllSpace(name) && |items| > 0 && AllAcceptable(items)
    ensures r.reply.status != 201 ==>
      && r.reply.status == 500 && r.store == store
      && r.reply.body.Failed? && r.reply.body.message == "Error creating workout"
      && (r.reply.body.error.Some? <==> development)
    ensures r.reply.status == 201 ==>
      && r.reply.body.One?
      && r.store == store + [r.reply.body.workout]
      && Copied(r.reply.body.workout, id, acting, name, items, now)
  {
    var doc := NewWorkout(id, acting, name, FromRequestAll(items), now);
    NewWorkoutValidIff(id, acting, name, items, now);
    CreatedContent(id, acting, name, items, now);
    match Save(doc)
    case Failure(e) =>
      Handled(Reply(500, Failed("Error creating workout", if development then Some(SaveErrorText(e)) else None)), store)
    case Success(w) =>
      Handled(Reply(201, One(w)), store + [w])
  }

  /** `w` is the document built from the request fields `name` and `items` for
      `acting`: the given id and timestamp, the trimmed names, the numbers as sent,
      and a weight only where the request's weight is truthy. */
  predicate Copied(w: Workout, id: WorkoutId, acting: UserId, name: string, items: seq<Exercise>, now: int) {
    && w.id == id && w.owner == acting && w.createdAt == now
    && w.name == Text.Trim(name)
    && |w.exercises| == |items|
    && forall i :: 0 <= i < |w.exercises| ==>
         && w.exercises[i].name == (if items[i].name.Some? then Some(Text.Trim(items[i].name.value)) else None)
         && w.exercises[i].sets == items[i].sets && w.exercises[i].reps == items[i].reps
         && w.exercises[i].weight == (if TruthyNumber(items[i].weight) then items[i].weight else None)
  }

  lemma CreatedContent(id: WorkoutId, acting: UserId, name: string, items: seq<Exercise>, now: int)
    ensures Copied(NewWorkout(id, acting, name, FromRequestAll(items), now), id, acting, name, items, now)
  {
  }

  // ---------------------------------------------------------------------------
  // PUT /:id and DELETE /:id

  /** `findOne({ _id: id, user: acting })`: the first workout with that id that
      `acting` owns. */
  function FindOwned(store: Store, id: WorkoutId, acting: UserId): (r: Option<nat>)
    ensures r.Some? ==> r.value < |store| && store[r.value].id == id && store[r.value].owner == acting
    ensures r.Some? ==> forall k :: 0 <= k < r.value ==> !(store[k].id == id && store[k].owner == acting)
    ensures r.None? <==> forall k :: 0 <= k < |store| ==> !(store[k].id == id && store[k].owner == acting)
  {
    if store == [] then None
    else if store[0].id == id && store[0].owner == acting then Some(0)
    else
      match FindOwned(store[1..], id, acting)
      case None => None
      case Some(k) => Some(k + 1)
  }

  /** PUT /:id: the same two request checks as POST, then the workout with that id
      that `acting` owns gets the trimmed name and the copied exercise list in place
      of the old ones. No workout of `acting` with that id -- absent, or owned by
      someone else -- gives the same 404. The update runs no schema validator and no
      pre-save hook, so exercise fields are stored as sent. */
  function Update(store: Store, acting: UserId, id: WorkoutId, req: WorkoutRequest): (r: Handled)
    ensures !Truthy(req.name) ==> r == Handled(NameMissing, store)
    ensures Truthy(req.name) && !NonEmptyList(req.exercises) ==> r == Handled(ExercisesMissing, store)
    ensures (&& Truthy(req.name) && NonEmptyList(req.exercises)
             && forall w :: w in store && w.id == id ==> w.owner != acting)
            ==> r == Handled(NotFound, store)
    ensures r.reply.status == 200 <==>
      Truthy(req.name) && NonEmptyList(req.exercises) && exists w :: w in store && w.id == id && w.owner == acting
    ensures r.reply.status != 200 ==> r.store == store
    ensures r.reply.status == 200 ==>
      && r.reply.body.One?
      && var i := FindOwned(store, id, acting).value;
      && var w := r.reply.body.workout;
      && r.store == store[i := w]
      && w.id == id && w.owner == acting && w.createdAt == store[i].createdAt
      && w.name == Text.Trim(req.name.value)
      && |w.exercises| == |req.exercises.items|
      && forall k :: 0 <= k < |w.exercises| ==>
           w.exercises[k] == CastExercise(FromRequest(req.exercises.items[k]))
  {
    if !Truthy(req.name) then Handled(NameMissing, store)
    else if !NonEmptyList(req.exercises) then Handled(ExercisesMissing, store)
    else
      match FindOwned(store, id, acting)
      case None => Handled(NotFound, store)
      case Some(i) =>
        var prior := store[i];
        var w := NewWorkout(prior.id, prior.owner, req.name.value, FromRequestAll(req.exercises.items), prior.createdAt);
        Handled(Reply(200, One(w)), store[i := w])
  }

  /** DELETE /:id: removes the first workout with that id that `acting` owns and keeps
      the rest in order; 404 with the store unchanged when there is none. */
  function Delete(store: Store, acting: UserId, id: WorkoutId): (r: Handled)
    ensures r.reply == Deleted <==> exists w :: w in store && w.id == id && w.owner == acting
    ensures r.reply != Deleted ==> r == Handled(NotFound, store)
    ensures r.reply == Deleted ==>
      var i := FindOwned(store, id, acting).value;
      r.store == store[..i] + store[i + 1..] && |r.store| == |store| - 1
  {
    match FindOwned(store, id, acting)
    case None => Handled(NotFound, store)
    case Some(i) => Handled(Deleted, store[..i] + store[i + 1..])
  }

  // ---------------------------------------------------------------------------
  // Properties across handlers

  /** A weight of 0 in a request is stored as `null`. */
  lemma ZeroWeightStoredAsNull(e: Exercise)
    requires e.weight == Some(0)
    ensures FromRequest(e).weight == None
  {
  }

  /** A created workout is listed for its owner right afterwards. */
  lemma CreateThenList(store: Store, acting: UserId, req: WorkoutRequest, id: WorkoutId, now: int, development: bool)
    requires Create(store, acting, req, id, now, development).reply.status == 201
    ensures var h := Create(store, acting, req, id, now, development);
      h.reply.body.workout in List(h.store, acting).body.workouts
  {
  }

  /** Creating, updating or deleting on behalf of `acting` never changes what any
      other user owns, even when given the id of that user's workout. */
  lemma OthersUnaffected(store: Store, acting: UserId, other: UserId, req: WorkoutRequest, id: WorkoutId, now: int, development: bool)
    requires other != acting
    ensures Owned(Create(store, acting, req, id, now, development).store, other) == Owned(store, other)
    ensures Owned(Update(store, acting, id, req).store, other) == Owned(store, other)
    ensures Owned(Delete(store, acting, id).store, other) == Owned(store, other)
    ensures List(Update(store, acting, id, req).store, other) == List(store, other)
    ensures List(Delete(store, acting, id).store, other) == List(store, other)
  {
    CreateLeavesOthers(store, acting, other, req, id, now, development);
    UpdateLeavesOthers(store, acting, other, id, req);
    DeleteLeavesOthers(store, acting, other, id);
  }

  lemma CreateLeavesOthers(store: Store, acting: UserId, other: UserId, req: WorkoutRequest, id: WorkoutId, now: int, development: bool)
    requires other != acting
    ensures Owned(Create(store, acting, req, id, now, development).store, other) == Owned(store, other)
  {
    var c := Create(store, acting, req, id, now, development);
    if c.reply.status == 201 {
      var w := c.reply.body.workout;
      assert c.store == store + [w] && w.owner == acting;
      Seqs.FilterAppend(store, w, (w: Workout) => w.owner == other);
    }
  }

  lemma UpdateLeavesOthers(store: Store, acting: UserId, other: UserId, id: WorkoutId, req: WorkoutRequest)
    requires other != acting
    ensures Owned(Update(store, acting, id, req).store, other) == Owned(store, other)
  {
    var u := Update(store, acting, id, req);
    if u.reply.status == 200 {
      var i := FindOwned(store, id, acting).value;
      var w := u.reply.body.workout;
      assert u.store == store[i := w] && store[i].owner == acting && w.owner == acting;
      Seqs.FilterUpdateRejected(store, i, w, (w: Workout) => w.owner == other);
    }
  }

  lemma DeleteLeavesOthers(store: Store, acting: UserId, other: UserId, id: WorkoutId)
    requires other != acting
    ensures Owned(Delete(store, acting, id).store, other) == Owned(store, other)
  {
    var d := Delete(store, acting, id);
    if d.reply == Deleted {
      var i := FindOwned(store, id, acting).value;
      assert d.store == store[..i] + store[i + 1..] && store[i].owner == acting;
      Seqs.FilterRemoveRejected(store, i, (w: Workout) => w.owner == other);
    }
  }

  /** Deleting by the id just created undoes the creation, provided `acting` owned
      no workout with that id before; so a create-delete pair leaves the owner's list
      as it was. */
  lemma CreateThenDeleteRestores(store: Store, acting: UserId, req: WorkoutRequest, id: WorkoutId, now: int, development: bool)
    requires Create(store, acting, req, id, now, development).reply.status == 201
    requires forall k :: 0 <= k < |store| ==> !(store[k].id == id && store[k].owner == acting)
    ensures var c := Create(store, acting, req, id, now, development);
      && Delete(c.store, acting, id) == Handled(Deleted, store)
      && List(Delete(c.store, acting, id).store, acting) == List(store, acting)
  {
    var c := Create(store, acting, req, id, now, development);
    var w := c.reply.body.workout;
    assert c.store == store + [w] && w.id == id && w.owner == acting;
    DeleteAppended(store, w, id, acting);
  }

  /** Deleting the id of a workout just appended for its owner removes exactly it. */
  lemma DeleteAppended(store: Store, w: Workout, id: WorkoutId, acting: UserId)
    requires forall k :: 0 <= k < |store| ==> !(store[k].id == id && store[k].owner == acting)
    requires w.id == id && w.owner == acting
    ensures Delete(store + [w], acting, id) == Handled(Deleted, store)
  {
    FindOwnedNew(store, w, id, acting);
    assert (store + [w])[..|store|] == store;
    assert (store + [w])[|store| + 1..] == [];
  }

  /** Appending `w` to a store in which `acting` owns nothing with that id makes `w`
      the one found. */
  lemma {:induction false} FindOwnedNew(store: Store, w: Workout, id: WorkoutId, acting: UserId)
    requires forall k :: 0 <= k < |store| ==> !(store[k].id == id && store[k].owner == acting)
    requires w.id == id && w.owner == acting
    ensures FindOwned(store + [w], id, acting) == Some(|store|)
  {
    if store != [] {
      assert (store + [w])[1..] == store[1..] + [w];
      FindOwnedNew(store[1..], w, id, acting);
    }
  }
}
