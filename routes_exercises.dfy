/**
 * The exercise pages: the list of the trainer's exercises, adding one, and the
 * detail page with its edit form.  Names are stored with their whitespace
 * runs collapsed, and a trainer's exercise names must differ ignoring case.
 */
module ExerciseRoutes {
  import opened Wrappers
  import opened Models
  import opened Database
  import opened Responses
  import Text
  import Ordering
  import opened ExerciseForms

  const DuplicateName: string := "An exercise with this name already exists."

  // ---------------------------------------------------------------------------
  // queries

  /** Another exercise of `trainer` than `self` has `name`, compared with `lower()` on both sides. */
  predicate NameTaken(es: map<Id, Exercise>, trainer: Id, name: string, self: Option<Id>) {
    exists x :: x in es && Some(x) != self && es[x].trainerId == trainer && Text.SameIgnoringCase(es[x].name, name)
  }

  /** Exercise `eid` is what the detail page finds: the trainer's own and still active. */
  predicate Editable(t: Tables, trainer: Id, eid: Id) {
    eid in t.exercises && t.exercises[eid].trainerId == trainer && t.exercises[eid].isActive
  }

  /**
   * `exercises`: every exercise of the logged-in trainer, active or not, each
   * once, in no particular order.
   */
  method ListExercises(st: Store) returns (out: Outcome, ids: seq<Id>)
    ensures st.current.None? ==> out == LoginRequired && ids == []
    ensures st.current.Some? ==> out == Shown
    ensures st.current.Some? ==> Ordering.NoDuplicates(ids)
    ensures st.current.Some? ==> forall e :: e in ids <==> e in st.exercises && st.exercises[e].trainerId == st.current.value
  {
    if st.current.None? {
      return LoginRequired, [];
    }
    var me := st.current.value;
    ids := [];
    var rest := st.exercises.Keys;
    while rest != {}
      invariant rest <= st.exercises.Keys
      invariant forall e :: e in ids <==> e in st.exercises && st.exercises[e].trainerId == me && e !in rest
      invariant Ordering.NoDuplicates(ids)
      decreases |rest|
    {
      var e :| e in rest;
      if st.exercises[e].trainerId == me {
        ids := ids + [e];
      }
      rest := rest - {e};
    }
    out := Shown;
  }

  // ---------------------------------------------------------------------------
  // the stored values

  /**
   * The row `add_exercise` inserts: the name with every whitespace run made one
   * space and the ends trimmed, the description stripped (an empty one stored
   * as None), active.
   */
  function NewExercise(trainer: Id, d: ExerciseData): (x: Exercise)
    requires d.name.Some?
    ensures x.trainerId == trainer && x.isActive
    ensures Text.Normalized(x.name) && Text.Words(x.name) == Text.Words(d.name.value)
    ensures x.description.None? <==> d.description == None || d.description == Some([])
    ensures x.description.Some? ==> Text.NoEdgeSpace(x.description.value)
  {
    Text.NormalizeKeepsWords(d.name.value);
    Exercise(trainer, Text.NormalizeSpaces(d.name.value), Text.StripOrNone(d.description), true)
  }

  /** The values the edit form is built with: the stored name and description; the type, which the row lacks, at its default. */
  function FormOf(e: Exercise): ExerciseData {
    ExerciseData(Some(e.name), Some(TypeDefault), e.description)
  }

  /** The edit: name and description as `add_exercise` would store them; owner and activity kept. */
  function Renamed(e: Exercise, d: ExerciseData): (r: Exercise)
    requires d.name.Some?
    ensures r == NewExercise(e.trainerId, d).(isActive := e.isActive)
  {
    e.(name := Text.NormalizeSpaces(d.name.value), description := Text.StripOrNone(d.description))
  }

  /** A stored name submitted again is stored unchanged. */
  lemma StoredNameStable(trainer: Id, d: ExerciseData)
    requires d.name.Some?
    ensures var x := NewExercise(trainer, d);
      NewExercise(trainer, d.(name := Some(x.name))).name == x.name
  {
    Text.NormalizeIdempotent(d.name.value);
  }

  /**
   * Submissions whose names differ only in how their words are spaced are
   * stored under the same name, so the duplicate check treats them alike.
   */
  lemma SpacingIgnored(trainer: Id, d: ExerciseData, e: ExerciseData)
    requires d.name.Some? && e.name.Some?
    requires Text.Words(d.name.value) == Text.Words(e.name.value)
    ensures NewExercise(trainer, d).name == NewExercise(trainer, e).name
  {
  }

  /**
   * Renaming an exercise to a case or spacing variant of its own name is never
   * a clash: no other exercise of the trainer has that name ignoring case.
   */
  lemma OwnVariantNotTaken(t: Tables, eid: Id, name: string)
    requires AppInvariant(t)
    requires eid in t.exercises
    requires Text.SameIgnoringCase(name, t.exercises[eid].name)
    ensures !NameTaken(t.exercises, t.exercises[eid].trainerId, name, Some(eid))
  {
  }

  // ---------------------------------------------------------------------------
  // add_exercise

  /**
   * `add_exercise`.  A name the trainer already uses for an exercise, ignoring
   * case and active or not, gives a field error and writes nothing; otherwise
   * the new exercise is inserted under the next key.
   */
  method AddExercise(st: Store, isPost: bool, inp: ExerciseInput) returns (out: Outcome)
    requires st.Valid()
    modifies st
    ensures st.Valid()
    ensures st.current == old(st.current)
    ensures out != Redirected ==> st.Rows() == old(st.Rows()) && st.nextId == old(st.nextId)
    ensures old(st.current).None? ==> out == LoginRequired
    ensures var d := ProcessExercise(inp, Blank);
      old(st.current).Some? && !(isPost && ExerciseValid(d)) ==> out == Shown
    ensures var d := ProcessExercise(inp, Blank);
      old(st.current).Some? && isPost && ExerciseValid(d) ==>
        var x := NewExercise(old(st.current).value, d);
        && (NameTaken(old(st.exercises), x.trainerId, x.name, None) ==> out == FieldError("name", DuplicateName))
        && (!NameTaken(old(st.exercises), x.trainerId, x.name, None) ==>
              && out == Redirected && st.nextId == old(st.nextId) + 1
              && st.Rows() == old(st.Rows()).(exercises := old(st.exercises)[old(st.nextId) := x]))
  {
    if st.current.None? {
      return LoginRequired;
    }
    var d := ProcessExercise(inp, Blank);
    if !isPost || !ExerciseValid(d) {
      return Shown;
    }
    var x := NewExercise(st.current.value, d);
    if NameTaken(st.exercises, x.trainerId, x.name, None) {
      return FieldError("name", DuplicateName);
    }
    InsertExercise(st, x);
    out := Redirected;
  }

  /**
   * Adding the row and committing.  The duplicate check has already excluded
   * every name `uq_exercise_name_per_trainer` could reject, so the commit
   * succeeds.
   */
  method InsertExercise(st: Store, x: Exercise)
    requires st.Valid()
    requires x.trainerId in st.trainers
    requires !NameTaken(st.exercises, x.trainerId, x.name, None)
    modifies st
    ensures st.Valid()
    ensures st.current == old(st.current) && st.nextId == old(st.nextId) + 1
    ensures st.Rows() == old(st.Rows()).(exercises := old(st.exercises)[old(st.nextId) := x])
  {
    var id := st.nextId;
    assert id !in st.exercises;
    Models.PutExerciseKeepsConsistent(st.Rows(), id, x);
    Models.IdsBelowGrow(st.Rows(), id, id + 1);
    st.exercises := st.exercises[id := x];
    st.nextId := id + 1;
  }

  // ---------------------------------------------------------------------------
  // exercise (detail page and edit)

  /**
   * `exercise`: the detail page of an owned, active exercise, and on POST its
   * edit.  The duplicate check leaves the exercise itself out, so a change of
   * case or spacing alone goes through.
   */
  method EditExercise(st: Store, eid: Id, isPost: bool, inp: ExerciseInput) returns (out: Outcome)
    requires st.Valid()
    modifies st
    ensures st.Valid()
    ensures st.current == old(st.current) && st.nextId == old(st.nextId)
    ensures out != Redirected ==> st.Rows() == old(st.Rows())
    ensures old(st.current).None? ==> out == LoginRequired
    ensures old(st.current).Some? ==> (out == NotFound <==> !Editable(old(st.Rows()), old(st.current).value, eid))
    ensures old(st.current).Some? && Editable(old(st.Rows()), old(st.current).value, eid) ==>
      var e := old(st.exercises)[eid];
      var d := ProcessExercise(inp, FormOf(e));
      && (!(isPost && ExerciseValid(d)) ==> out == Shown)
      && (isPost && ExerciseValid(d) ==>
            var name := Text.NormalizeSpaces(d.name.value);
            && (NameTaken(old(st.exercises), e.trainerId, name, Some(eid)) ==> out == FieldError("name", DuplicateName))
            && (!NameTaken(old(st.exercises), e.trainerId, name, Some(eid)) ==>
                  out == Redirected && st.Rows() == old(st.Rows()).(exercises := old(st.exercises)[eid := Renamed(e, d)])))
  {
    if st.current.None? {
      return LoginRequired;
    }
    if !Editable(st.Rows(), st.current.value, eid) {
      return NotFound;
    }
    var e := st.exercises[eid];
    var d := ProcessExercise(inp, FormOf(e));
    if !isPost || !ExerciseValid(d) {
      return Shown;
    }
    var r := Renamed(e, d);
    if NameTaken(st.exercises, e.trainerId, r.name, Some(eid)) {
      return FieldError("name", DuplicateName);
    }
    Models.PutExerciseKeepsConsistent(st.Rows(), eid, r);
    st.exercises := st.exercises[eid := r];
    out := Redirected;
  }
}
