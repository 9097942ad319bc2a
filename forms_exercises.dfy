/**
 * ExerciseForm, shared by AddExerciseForm and EditExerciseForm, which differ
 * only in the label of the submit button.
 */
module ExerciseForms {
  import opened Wrappers
  import Text
  import opened Validators

  const NameMax: nat := 90
  const DescriptionMax: nat := 1024
  /** The values of ExerciseType, offered as the type choices. */
  const TypeChoices: set<string> := {"reps", "time"}
  /**
   * The type field's default is `ExerciseType.REPS.name`, the member's name and
   * not its value, so it is not among the choices.
   */
  const TypeDefault: string := "REPS"

  datatype FormKind = AddExercise | EditExercise

  function SubmitLabel(k: FormKind): string {
    match k
    case AddExercise => "Add"
    case EditExercise => "Save"
  }

  datatype ExerciseInput = ExerciseInput(name: Option<string>, kind: Option<string>, description: Option<string>)

  datatype ExerciseData = ExerciseData(name: Option<string>, kind: Option<string>, description: Option<string>)

  /** The data of a form built without an object: the type at its default. */
  const Blank: ExerciseData := ExerciseData(None, Some(TypeDefault), None)

  /**
   * Processing the submission over `base`, the values the form was built with
   * (`Blank` for the add page, the stored exercise for the edit page): a key
   * absent from the submission keeps that value.
   */
  function ProcessExercise(inp: ExerciseInput, base: ExerciseData): ExerciseData {
    ExerciseData(
      if inp.name.None? then base.name else inp.name,
      SelectData(inp.kind, base.kind),
      if inp.description.None? then base.description else inp.description)
  }

  /** The fields and validators both forms share; the form kind plays no part. */
  predicate ExerciseValid(d: ExerciseData) {
    && TextRequired(d.name) && LengthAtMost(d.name, NameMax)
    && IsChoice(d.kind, TypeChoices) && TextRequired(d.kind)
    && LengthAtMost(d.description, DescriptionMax)
  }

  /**
   * A valid exercise form has a non-blank name of at most 90 characters, a type
   * among the ExerciseType values and a description of at most 1024 characters.
   */
  lemma ExerciseValidMeaning(d: ExerciseData)
    ensures ExerciseValid(d) <==>
      && d.name.Some? && !Text.AllSpace(d.name.value) && |d.name.value| <= 90
      && (d.kind == Some("reps") || d.kind == Some("time"))
      && DataLength(d.description) <= 1024
  {
    assert "reps"[0] == 'r' && "time"[0] == 't' && !Text.IsSpace('r') && !Text.IsSpace('t');
  }

  /** A submission without a type falls back to "REPS", which is not a valid choice. */
  lemma AbsentTypeRejected(inp: ExerciseInput)
    requires inp.kind.None?
    ensures !ExerciseValid(ProcessExercise(inp, Blank))
  {
  }
}
