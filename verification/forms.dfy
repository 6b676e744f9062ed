/** The workout form both workout screens edit (frontend/src/components/Workouts.jsx and
    frontend/src/components/Dashboard.jsx keep the same shape in `formData`): a name
    and a list of exercise rows whose fields are the text of the input boxes. */
module Forms {
  import opened Wrappers
  import Seqs

  datatype Field = Name | Sets | Reps | Weight

  /** One exercise row of the form; every field holds what its input box holds. */
  datatype FormExercise = FormExercise(name: string, sets: string, reps: string, weight: string)

  datatype Form = Form(name: string, exercises: seq<FormExercise>)

  const BlankExercise := FormExercise("", "", "", "")

  /** The state both screens start from and reset to: no name, one blank row. */
  const BlankForm := Form("", [BlankExercise])

  function Get(e: FormExercise, f: Field): string {
    match f
    case Name => e.name
    case Sets => e.sets
    case Reps => e.reps
    case Weight => e.weight
  }

  /** `{ ...e, [f]: v }`. */
  function Put(e: FormExercise, f: Field, v: string): (r: FormExercise)
    ensures Get(r, f) == v
    ensures forall g :: g != f ==> Get(r, g) == Get(e, g)
  {
    match f
    case Name => e.(name := v)
    case Sets => e.(sets := v)
    case Reps => e.(reps := v)
    case Weight => e.(weight := v)
  }

  /** `addExercise`: one blank row is appended; the name and every earlier row stay. */
  function AddExercise(form: Form): (r: Form)
    ensures r.name == form.name
    ensures |r.exercises| == |form.exercises| + 1
    ensures r.exercises[..|form.exercises|] == form.exercises
    ensures r.exercises[|form.exercises|] == BlankExercise
  {
    form.(exercises := form.exercises + [BlankExercise])
  }

  /** `removeExercise(i)`: exactly row `i` is dropped, the others keep their order. */
  function RemoveExercise(form: Form, i: int): (r: Form)
    ensures r.name == form.name
    ensures 0 <= i < |form.exercises| ==> r.exercises == form.exercises[..i] + form.exercises[i + 1..]
    ensures !(0 <= i < |form.exercises|) ==> r == form
  {
    form.(exercises := Seqs.RemoveAt(form.exercises, i))
  }

  /** Replacing field `f` of row `i` with `v`: that field of that row is `v` afterwards,
      and the name, the other fields of row `i` and every other row are unchanged. */
  function ChangeExercise(form: Form, i: nat, f: Field, v: string): (r: Form)
    requires i < |form.exercises|
    ensures r.name == form.name
    ensures |r.exercises| == |form.exercises|
    ensures Get(r.exercises[i], f) == v
    ensures forall g :: g != f ==> Get(r.exercises[i], g) == Get(form.exercises[i], g)
    ensures forall k :: 0 <= k < |form.exercises| && k != i ==> r.exercises[k] == form.exercises[k]
  {
    form.(exercises := form.exercises[i := Put(form.exercises[i], f, v)])
  }

  /** Adding a row and removing it again gives back the form. */
  lemma AddThenRemove(form: Form)
    ensures RemoveExercise(AddExercise(form), |form.exercises|) == form
  {
    var added := AddExercise(form);
    assert added.exercises[..|form.exercises|] + added.exercises[|form.exercises| + 1..] == form.exercises;
  }

  /** How a request the client sent came back: the server's data, or a failure with
      the `message` of the error response, if there was one. */
  datatype Answer<+T> = Ok(data: T) | Refused(message: Option<string>)

  /** `err.response?.data?.message || fallback`. */
  function ErrorText(message: Option<string>, fallback: string): (r: string)
    ensures message.Some? && message.value != "" ==> r == message.value
    ensures (message.None? || message.value == "") ==> r == fallback
  {
    if message.Some? && message.value != "" then message.value else fallback
  }
}
