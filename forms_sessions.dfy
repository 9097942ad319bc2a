/**
 * The session forms: one exercise row (AddSessionExerciseForm), the header
 * fields shared by adding and editing (SessionHeaderBaseForm), the add and
 * edit forms, and the rows of the row-only form the row fragments render
 * (SessionExercisesHelperForm), which is processed but never validated.  Each
 * validated form is a processing function from the submitted values to field
 * data and a validity predicate over that data.
 */
module SessionForms {
  import opened Wrappers
  import Text
  import opened Validators

  /** A point in time, as the number of seconds since an epoch. */
  type Instant = int

  /** FieldList(max_entries=30): rows beyond the 30th are dropped while processing. */
  const MaxEntries: nat := 30
  const DurationMax: int := 480
  const DurationDefault: int := 60
  const NotesMax: nat := 2048
  const ModeChoices: set<string> := {"online", "offline"}
  const ModeDefault: string := "offline"
  const StatusChoices: set<string> := {"planned", "done", "cancelled", "no_show"}

  // ---------------------------------------------------------------------------
  // one exercise row

  /**
   * The submitted values of one row (None: the key was absent).  The weight
   * arrives already converted to hundredths of a kilogram.
   */
  datatype EntryInput = EntryInput(exercise: Option<string>, sets: Option<string>, reps: Option<string>, weight: Option<int>)

  /** The field data of one row; `weight` in hundredths of a kilogram, None when left blank. */
  datatype Entry = Entry(exercise: Option<int>, sets: Option<int>, reps: Option<int>, weight: Option<int>)

  /** What `append_entry()` adds: a row with no data. */
  const BlankEntry: Entry := Entry(None, None, None, None)

  /** The exercise select's coerce, `int(x) if x else 0`; None stands for its ValueError. */
  function CoerceExercise(x: string): Option<int> {
    if x == [] then Some(0) else Text.ParseInt(x)
  }

  function ProcessEntry(inp: EntryInput): Entry {
    Entry(
      if inp.exercise.None? then None else CoerceExercise(inp.exercise.value),
      IntegerData(inp.sets, None),
      IntegerData(inp.reps, None),
      inp.weight)
  }

  /** The rows of a FieldList after processing: at most the first 30, each processed. */
  function ProcessEntries(inputs: seq<EntryInput>): (r: seq<Entry>)
    ensures |r| <= MaxEntries
    ensures |r| == if |inputs| <= MaxEntries then |inputs| else MaxEntries
    ensures forall i :: 0 <= i < |r| ==> r[i] == ProcessEntry(inputs[i])
  {
    var n := if |inputs| <= MaxEntries then |inputs| else MaxEntries;
    seq(n, i requires 0 <= i < n => ProcessEntry(inputs[i]))
  }

  /**
   * AddSessionExerciseForm.  The exercise choices are "Select Exercise" (0) and
   * the ids offered by the route; `Optional` lets a blank weight through.
   */
  predicate EntryValid(e: Entry, exerciseChoices: set<int>) {
    && IsChoice(e.exercise, {0} + exerciseChoices)
    && NumberRequired(e.exercise) && NumberAtLeast(e.exercise, 1)
    && NumberRequired(e.sets) && NumberAtLeast(e.sets, 1)
    && NumberRequired(e.reps) && NumberAtLeast(e.reps, 1)
    && (e.weight.None? || e.weight.value >= 0)
  }

  /** A row is valid exactly when it names an offered exercise, has sets and reps of at least 1, and no negative weight. */
  lemma EntryValidMeaning(e: Entry, exerciseChoices: set<int>)
    ensures EntryValid(e, exerciseChoices) <==>
      && e.exercise.Some? && e.exercise.value >= 1 && e.exercise.value in exerciseChoices
      && e.sets.Some? && e.sets.value >= 1
      && e.reps.Some? && e.reps.value >= 1
      && (e.weight.None? || e.weight.value >= 0)
  {
  }

  /** An empty exercise selection is coerced to 0, which no valid row carries. */
  lemma EmptySelectionRejected(inp: EntryInput, exerciseChoices: set<int>)
    requires inp.exercise == Some("")
    ensures ProcessEntry(inp).exercise == Some(0)
    ensures !EntryValid(ProcessEntry(inp), exerciseChoices)
  {
  }

  /** A weight of 0 is accepted, and so is no weight at all. */
  lemma ZeroOrNoWeightAccepted(e: Entry, exerciseChoices: set<int>)
    requires EntryValid(e, exerciseChoices)
    ensures EntryValid(e.(weight := Some(0)), exerciseChoices)
    ensures EntryValid(e.(weight := None), exerciseChoices)
  {
  }

  // ---------------------------------------------------------------------------
  // header fields

  /** Submitted header values; the start time arrives already parsed (None: absent or not a date). */
  datatype HeaderInput = HeaderInput(
    startDt: Option<Instant>, durationMin: Option<string>, mode: Option<string>,
    price: Option<string>, notes: Option<string>)

  datatype Header = Header(
    startDt: Option<Instant>, durationMin: Option<int>, mode: Option<string>,
    price: Option<int>, notes: Option<string>)

  /** An absent duration keeps its default 60 and an absent mode its default "offline". */
  function ProcessHeader(inp: HeaderInput): Header {
    Header(
      inp.startDt,
      IntegerData(inp.durationMin, Some(DurationDefault)),
      SelectData(inp.mode, Some(ModeDefault)),
      IntegerData(inp.price, None),
      inp.notes)
  }

  /** SessionHeaderBaseForm. */
  predicate HeaderValid(h: Header) {
    && h.startDt.Some?
    && NumberRequired(h.durationMin) && NumberWithin(h.durationMin, 1, DurationMax)
    && IsChoice(h.mode, ModeChoices) && TextRequired(h.mode)
    && NumberRequired(h.price) && NumberAtLeast(h.price, 0)
    && LengthAtMost(h.notes, NotesMax)
  }

  /**
   * The header is valid exactly when there is a start, the duration is within
   * 1..480, the mode is online or offline, the price is at least 1 (0 passes
   * `NumberRange(min=0)` but not `DataRequired`) and the notes fit 2048 characters.
   */
  lemma HeaderValidMeaning(h: Header)
    ensures HeaderValid(h) <==>
      && h.startDt.Some?
      && h.durationMin.Some? && 1 <= h.durationMin.value <= 480
      && (h.mode == Some("online") || h.mode == Some("offline"))
      && h.price.Some? && h.price.value >= 1
      && DataLength(h.notes) <= 2048
  {
    assert "online"[0] == 'o' && "offline"[0] == 'o' && !Text.IsSpace('o');
  }

  /** A submission without duration or mode gets 60 minutes, offline. */
  lemma AbsentDurationAndModeDefault(inp: HeaderInput)
    requires inp.durationMin.None? && inp.mode.None?
    ensures ProcessHeader(inp).durationMin == Some(60)
    ensures ProcessHeader(inp).mode == Some("offline")
  {
  }

  // ---------------------------------------------------------------------------
  // AddSessionForm

  datatype AddSessionInput = AddSessionInput(header: HeaderInput, client: Option<string>, entries: seq<EntryInput>)

  datatype AddSessionData = AddSessionData(header: Header, client: Option<int>, entries: seq<Entry>)

  /** The client select coerces with `int`, which fails on anything but an integer. */
  function ProcessAddSession(inp: AddSessionInput): (d: AddSessionData)
    ensures |d.entries| <= MaxEntries
  {
    AddSessionData(
      ProcessHeader(inp.header),
      if inp.client.None? then None else Text.ParseInt(inp.client.value),
      ProcessEntries(inp.entries))
  }

  /**
   * AddSessionForm, given the client ids and exercise ids the route offers as
   * choices (besides the placeholder 0).
   */
  predicate AddSessionValid(d: AddSessionData, clientChoices: set<int>, exerciseChoices: set<int>) {
    && HeaderValid(d.header)
    && IsChoice(d.client, {0} + clientChoices) && NumberRequired(d.client) && NumberAtLeast(d.client, 1)
    && forall i :: 0 <= i < |d.entries| ==> EntryValid(d.entries[i], exerciseChoices)
  }

  /** A valid add form names an offered client and only offered exercises. */
  lemma AddSessionValidChoices(d: AddSessionData, clientChoices: set<int>, exerciseChoices: set<int>)
    requires AddSessionValid(d, clientChoices, exerciseChoices)
    ensures d.client.Some? && d.client.value in clientChoices
    ensures forall i :: 0 <= i < |d.entries| ==>
      d.entries[i].exercise.Some? && d.entries[i].exercise.value in exerciseChoices
  {
  }

  // ---------------------------------------------------------------------------
  // EditSessionForm

  datatype EditSessionInput = EditSessionInput(header: HeaderInput, status: Option<string>, isPaid: Option<string>)

  datatype EditSessionData = EditSessionData(header: Header, status: Option<string>, isPaid: bool)

  function ProcessEditSession(inp: EditSessionInput): EditSessionData {
    EditSessionData(ProcessHeader(inp.header), inp.status, BooleanData(inp.isPaid))
  }

  /** EditSessionForm: the header plus a status among the four session states. */
  predicate EditSessionValid(d: EditSessionData) {
    HeaderValid(d.header) && IsChoice(d.status, StatusChoices) && TextRequired(d.status)
  }

  lemma EditSessionStatus(d: EditSessionData)
    requires EditSessionValid(d)
    ensures d.status == Some("planned") || d.status == Some("done")
         || d.status == Some("cancelled") || d.status == Some("no_show")
  {
  }
}
