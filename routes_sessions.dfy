/**
 * The session pages: the session list, the add form with its client and
 * exercise choices, and the three HTMX fragments that add a blank exercise
 * row, remove one row, and look up a client's price.
 */
module SessionRoutes {
  import opened Wrappers
  import opened Models
  import opened Database
  import opened Responses
  import Text
  import Ordering
  import opened SessionForms

  // ---------------------------------------------------------------------------
  // sessions

  /** Session `s` is one of a client of `trainer` (`Session.client.has(trainer_id=…)`). */
  predicate TrainersSession(t: Tables, trainer: Id, s: Id) {
    s in t.sessions && t.sessions[s].clientId in t.clients && t.clients[t.sessions[s].clientId].trainerId == trainer
  }

  function StartOf(ss: map<Id, Models.Session>, s: Id): Instant {
    if s in ss then ss[s].startDt else 0
  }

  /** `sessions`: the sessions of the trainer's clients, each once, by start time. */
  method ListSessions(st: Store) returns (out: Outcome, ids: seq<Id>)
    ensures st.current.None? ==> out == LoginRequired && ids == []
    ensures st.current.Some? ==> out == Shown
    ensures st.current.Some? ==> forall s :: s in ids <==> TrainersSession(st.Rows(), st.current.value, s)
    ensures Ordering.NoDuplicates(ids)
    ensures forall i, j :: 0 <= i < j < |ids| ==> StartOf(st.sessions, ids[i]) <= StartOf(st.sessions, ids[j])
  {
    if st.current.None? {
      return LoginRequired, [];
    }
    var me := st.current.value;
    var ss := st.sessions;
    var mine := set s | s in ss && TrainersSession(st.Rows(), me, s);
    var le := (a: Id, b: Id) => StartOf(ss, a) <= StartOf(ss, b);
    ids := Ordering.SortBy(mine, le);
    out := Shown;
  }

  // ---------------------------------------------------------------------------
  // add_session: the choices

  /** A client the add form offers: the trainer's, with status "active". */
  predicate Selectable(t: Tables, trainer: Id, c: Id) {
    c in t.clients && t.clients[c].trainerId == trainer && t.clients[c].status == Active
  }

  function SelectableClients(t: Tables, trainer: Id): set<Id> {
    set c | c in t.clients && Selectable(t, trainer, c)
  }

  /** An exercise the add form offers: the trainer's, and active. */
  function OfferedExercises(t: Tables, trainer: Id): set<Id> {
    set e | e in t.exercises && t.exercises[e].trainerId == trainer && t.exercises[e].isActive
  }

  function NameOf(cs: map<Id, Client>, c: Id): string {
    if c in cs then cs[c].name else ""
  }

  const SelectClient: (Id, string) := (0, "Select Client")

  /**
   * The client select's choices: the placeholder, then each selectable client
   * once, by name; `hasClients` says whether there is any real choice.
   */
  method ClientChoices(st: Store, trainer: Id) returns (choices: seq<(Id, string)>, hasClients: bool)
    ensures |choices| >= 1 && choices[0] == SelectClient
    ensures forall i :: 1 <= i < |choices| ==>
      Selectable(st.Rows(), trainer, choices[i].0) && choices[i].1 == NameOf(st.clients, choices[i].0)
    ensures forall c :: Selectable(st.Rows(), trainer, c) ==> exists i :: 1 <= i < |choices| && choices[i].0 == c
    ensures forall i, j :: 1 <= i < j < |choices| ==> choices[i].0 != choices[j].0
    ensures forall i, j :: 1 <= i < j < |choices| ==> Ordering.LexLeq(choices[i].1, choices[j].1)
    ensures hasClients <==> exists c :: Selectable(st.Rows(), trainer, c)
  {
    var cs := st.clients;
    var offered := SelectableClients(st.Rows(), trainer);
    var le := (a: Id, b: Id) => Ordering.LexLeq(NameOf(cs, a), NameOf(cs, b));
    forall a, b | a in offered && b in offered
      ensures le(a, b) || le(b, a)
    {
      Ordering.LexLeqTotal(NameOf(cs, a), NameOf(cs, b));
    }
    forall a, b, c | a in offered && b in offered && c in offered && le(a, b) && le(b, c)
      ensures le(a, c)
    {
      Ordering.LexLeqTransitive(NameOf(cs, a), NameOf(cs, b), NameOf(cs, c));
    }
    var sorted := Ordering.SortBy(offered, le);
    choices := [SelectClient];
    var i := 0;
    while i < |sorted|
      invariant 0 <= i <= |sorted|
      invariant |choices| == i + 1 && choices[0] == SelectClient
      invariant forall k :: 0 <= k < i ==> choices[k + 1] == (sorted[k], NameOf(cs, sorted[k]))
    {
      choices := choices + [(sorted[i], NameOf(cs, sorted[i]))];
      i := i + 1;
    }
    forall c | Selectable(st.Rows(), trainer, c)
      ensures exists i :: 1 <= i < |choices| && choices[i].0 == c
    {
      assert c in sorted;
      var k :| 0 <= k < |sorted| && sorted[k] == c;
      assert choices[k + 1].0 == c;
    }
    forall i | 1 <= i < |choices|
      ensures Selectable(st.Rows(), trainer, choices[i].0) && choices[i].1 == NameOf(st.clients, choices[i].0)
    {
      assert choices[i] == (sorted[i - 1], NameOf(cs, sorted[i - 1]));
      assert sorted[i - 1] in sorted;
    }
    forall i, j | 1 <= i < j < |choices|
      ensures choices[i].0 != choices[j].0 && Ordering.LexLeq(choices[i].1, choices[j].1)
    {
      assert choices[i] == (sorted[i - 1], NameOf(cs, sorted[i - 1]));
      assert choices[j] == (sorted[j - 1], NameOf(cs, sorted[j - 1]));
      assert le(sorted[i - 1], sorted[j - 1]);
    }
    hasClients := |choices| > 1;
    if hasClients {
      assert choices[1] == (sorted[0], NameOf(cs, sorted[0]));
      assert sorted[0] in sorted;
      assert Selectable(st.Rows(), trainer, sorted[0]);
    } else {
      assert forall c :: !Selectable(st.Rows(), trainer, c);
    }
  }

  // ---------------------------------------------------------------------------
  // add_session: the rows written

  function ModeOf(s: string): SessionMode {
    if s == "online" then Online else Offline
  }

  /** The session `add_session` creates: planned, unpaid, notes stripped or None. */
  function NewSession(d: AddSessionData): (s: Models.Session)
    requires d.header.startDt.Some? && d.header.durationMin.Some? && d.header.mode.Some?
    requires d.header.price.Some? && d.client.Some? && d.client.value >= 0
    ensures s.status == Planned && !s.isPaid && s.paymentDate.None?
    ensures s.notes.Some? ==> Text.NoEdgeSpace(s.notes.value)
    ensures s.notes.None? <==> d.header.notes == None || d.header.notes == Some([])
  {
    Models.Session(d.client.value, d.header.startDt.value, d.header.durationMin.value, ModeOf(d.header.mode.value),
                   Planned, d.header.price.value, false, None, Text.StripOrNone(d.header.notes))
  }

  /** The row written for one exercise entry; a blank weight takes the column default 0. */
  function Performed(sid: Id, cid: Id, e: Entry): SessionExercise {
    SessionExercise(sid, if e.exercise.Some? && e.exercise.value >= 0 then e.exercise.value else 0, cid,
                    e.sets.GetOr(0), e.reps.GetOr(0), e.weight.GetOr(0))
  }

  /** The table `m` after writing the rows for the first `n` entries of `es` under the keys `first`, `first + 1`, … */
  function WithPerformed(m: map<Id, SessionExercise>, first: Id, sid: Id, cid: Id, es: seq<Entry>, n: nat): map<Id, SessionExercise>
    requires n <= |es|
    decreases n
  {
    if n == 0 then m
    else WithPerformed(m, first, sid, cid, es, n - 1)[first + n - 1 := Performed(sid, cid, es[n - 1])]
  }

  /**
   * One row per entry, in order, and nothing else touched: the key
   * `first + i` holds the row of entry `i`, and every other key keeps its row.
   */
  lemma {:induction false} WithPerformedMeaning(m: map<Id, SessionExercise>, first: Id, sid: Id, cid: Id, es: seq<Entry>, n: nat)
    requires n <= |es|
    ensures var r := WithPerformed(m, first, sid, cid, es, n);
      && (forall k :: k in r <==> k in m || first <= k < first + n)
      && (forall k :: k in m && !(first <= k < first + n) ==> r[k] == m[k])
      && (forall i :: 0 <= i < n ==> r[first + i] == Performed(sid, cid, es[i]))
    decreases n
  {
    if n > 0 {
      WithPerformedMeaning(m, first, sid, cid, es, n - 1);
    }
  }

  /**
   * The row of an entry that passed the row form belongs to the new session,
   * records that session's client, the entry's exercise, sets and reps, and
   * its weight, or 0 when the weight was left blank.
   */
  lemma PerformedMeaning(sid: Id, cid: Id, e: Entry)
    requires EntryInRange(e) && e.exercise.value >= 0
    ensures var r := Performed(sid, cid, e);
      && r.sessionId == sid && r.clientId == cid && r.exerciseId == e.exercise.value
      && r.sets == e.sets.value && r.reps == e.reps.value && r.sets >= 1 && r.reps >= 1
      && r.weight == (if e.weight.Some? then e.weight.value else 0) && r.weight >= 0
  {
  }

  /** What the row form demands of an entry, apart from the exercise being offered. */
  predicate EntryInRange(e: Entry) {
    && e.exercise.Some?
    && e.sets.Some? && e.sets.value >= 1
    && e.reps.Some? && e.reps.value >= 1
    && (e.weight.None? || e.weight.value >= 0)
  }

  /** The exercise of entry `e` belongs to `trainer`. */
  predicate ExerciseOwned(t: Tables, trainer: Id, e: Entry) {
    e.exercise.Some? && e.exercise.value >= 0
    && e.exercise.value in t.exercises && t.exercises[e.exercise.value].trainerId == trainer
  }

  /** The exercise of every entry belongs to `trainer`. */
  predicate ExercisesOwned(t: Tables, trainer: Id, es: seq<Entry>) {
    forall i :: 0 <= i < |es| ==> ExerciseOwned(t, trainer, es[i])
  }

  /**
   * The body of `add_session` after validation: the client must be the
   * trainer's (otherwise 404, outside the `try`); then the session and one row
   * per entry are written, and an entry whose exercise is not the trainer's
   * aborts inside the `try`, so everything is rolled back and the request ends
   * in a flashed error.  The keys the failed attempt drew stay used.
   */
  method InsertSession(st: Store, trainer: Id, d: AddSessionData) returns (out: Outcome)
    requires st.Valid() && st.current == Some(trainer)
    requires HeaderValid(d.header) && d.client.Some?
    requires forall i :: 0 <= i < |d.entries| ==> EntryInRange(d.entries[i])
    modifies st
    ensures st.Valid()
    ensures st.current == old(st.current)
    ensures st.trainers == old(st.trainers) && st.clients == old(st.clients) && st.exercises == old(st.exercises)
    ensures out != Redirected ==> st.Rows() == old(st.Rows())
    ensures var c := d.client.value;
      !(c >= 0 && c in old(st.clients) && old(st.clients)[c].trainerId == trainer) ==>
        out == NotFound && st.nextId == old(st.nextId)
    ensures var c := d.client.value;
      c >= 0 && c in old(st.clients) && old(st.clients)[c].trainerId == trainer ==>
        && (!ExercisesOwned(old(st.Rows()), trainer, d.entries) ==> out == Failed && st.nextId > old(st.nextId))
        && (ExercisesOwned(old(st.Rows()), trainer, d.entries) ==>
              && out == Redirected
              && st.nextId == old(st.nextId) + 1 + |d.entries|
              && st.sessions == old(st.sessions)[old(st.nextId) := NewSession(d)]
              && st.sessionExercises == WithPerformed(old(st.sessionExercises), old(st.nextId) + 1, old(st.nextId), c, d.entries, |d.entries|))
  {
    var c := d.client.value;
    if !(c >= 0 && c in st.clients && st.clients[c].trainerId == trainer) {
      return NotFound;
    }
    // what a rollback restores
    var saved := st.Rows();
    var sid := st.nextId;
    AddSessionRow(st, NewSession(d));
    var ok := AddPerformedRows(st, trainer, sid, c, d.entries);
    if !ok {
      Models.IdsBelowGrow(saved, sid, st.nextId);
      st.Rollback(saved);
      return Failed;
    }
    out := Redirected;
  }

  /**
   * The loop of `add_session` over the entries: one performed exercise per
   * entry, under consecutive keys, as long as each entry's exercise is the
   * trainer's.  `ok` is false at the first one that is not.
   */
  method AddPerformedRows(st: Store, trainer: Id, sid: Id, c: Id, entries: seq<Entry>) returns (ok: bool)
    requires st.Valid()
    requires sid in st.sessions && st.sessions[sid].clientId == c
    requires forall i :: 0 <= i < |entries| ==> EntryInRange(entries[i])
    modifies st
    ensures st.Valid()
    ensures st.current == old(st.current) && st.nextId >= old(st.nextId)
    ensures st.trainers == old(st.trainers) && st.clients == old(st.clients)
    ensures st.exercises == old(st.exercises) && st.sessions == old(st.sessions)
    ensures ok <==> ExercisesOwned(old(st.Rows()), trainer, entries)
    ensures ok ==> st.nextId == old(st.nextId) + |entries|
    ensures ok ==> st.sessionExercises == WithPerformed(old(st.sessionExercises), old(st.nextId), sid, c, entries, |entries|)
  {
    ghost var t := st.Rows();
    var first := st.nextId;
    var i := 0;
    while i < |entries|
      invariant 0 <= i <= |entries|
      invariant st.Valid()
      invariant st.current == old(st.current)
      invariant st.nextId == first + i
      invariant st.Rows() == t.(sessionExercises := WithPerformed(t.sessionExercises, first, sid, c, entries, i))
      invariant forall k :: 0 <= k < i ==> ExerciseOwned(t, trainer, entries[k])
    {
      var e := entries[i];
      if !ExerciseOwned(st.Rows(), trainer, e) {
        return false;
      }
      AddPerformedRow(st, Performed(sid, c, e));
      i := i + 1;
    }
    ok := true;
  }

  /** `db.session.add(s); db.session.flush()`: the session is written under the next key. */
  method AddSessionRow(st: Store, s: Models.Session)
    requires st.Valid()
    requires s.clientId in st.clients && s.price >= 0 && s.durationMin > 0
    modifies st
    ensures st.Valid()
    ensures st.nextId == old(st.nextId) + 1 && st.sessions == old(st.sessions)[old(st.nextId) := s]
    ensures st.current == old(st.current) && st.trainers == old(st.trainers) && st.clients == old(st.clients)
    ensures st.exercises == old(st.exercises) && st.sessionExercises == old(st.sessionExercises)
  {
    ghost var t := st.Rows();
    var id := st.nextId;
    Models.InsertSessionKeepsConsistent(t, id, s);
    st.sessions := st.sessions[id := s];
    st.nextId := id + 1;
    assert st.Rows() == t.(sessions := t.sessions[id := s]);
    assert KeysBelow(st.sessions, st.nextId);
  }

  /** `db.session.add(se)`: the performed exercise is written under the next key. */
  method AddPerformedRow(st: Store, se: SessionExercise)
    requires st.Valid()
    requires se.sessionId in st.sessions && se.exerciseId in st.exercises
    requires se.clientId == st.sessions[se.sessionId].clientId
    requires se.sets > 0 && se.reps > 0 && se.weight >= 0
    modifies st
    ensures st.Valid()
    ensures st.nextId == old(st.nextId) + 1 && st.current == old(st.current)
    ensures st.Rows() == old(st.Rows()).(sessionExercises := old(st.sessionExercises)[old(st.nextId) := se])
  {
    ghost var t := st.Rows();
    var id := st.nextId;
    Models.InsertSessionExerciseKeepsConsistent(t, id, se);
    st.sessionExercises := st.sessionExercises[id := se];
    st.nextId := id + 1;
  }

  // ---------------------------------------------------------------------------
  // add_session

  /**
   * `add_session`.  A GET shows one blank exercise row; a submission that does
   * not validate is shown again with its rows; a valid one writes one session
   * and one performed exercise per row.  Because the client and every exercise
   * must be among the offered choices, the not-found paths cannot be taken by a
   * single request; the rollback path cannot be taken while every value fits
   * its column, which the model does not check (a weight of 1000 kg or more, or
   * an integer beyond 32 bits, fails at the database and is rolled back).
   */
  method AddSession(st: Store, isPost: bool, inp: AddSessionInput)
    returns (out: Outcome, rows: seq<Entry>, hasClients: bool)
    requires st.Valid()
    modifies st
    ensures st.Valid()
    ensures st.current == old(st.current)
    ensures st.trainers == old(st.trainers) && st.clients == old(st.clients) && st.exercises == old(st.exercises)
    ensures out != Redirected ==> st.Rows() == old(st.Rows()) && st.nextId == old(st.nextId)
    ensures out != NotFound && out != Failed
    ensures old(st.current).None? ==> out == LoginRequired
    ensures old(st.current).Some? ==> (hasClients <==> exists c :: Selectable(old(st.Rows()), old(st.current).value, c))
    ensures old(st.current).Some? && !isPost ==> out == Shown && rows == [BlankEntry]
    ensures var d := ProcessAddSession(inp);
      old(st.current).Some? && isPost ==>
        var me := old(st.current).value;
        var valid := AddSessionValid(d, SelectableClients(old(st.Rows()), me), OfferedExercises(old(st.Rows()), me));
        && (!valid ==> out == Shown && rows == d.entries)
        && (valid ==>
              && out == Redirected
              && st.nextId == old(st.nextId) + 1 + |d.entries|
              && st.sessions == old(st.sessions)[old(st.nextId) := NewSession(d)]
              && st.sessionExercises == WithPerformed(old(st.sessionExercises), old(st.nextId) + 1, old(st.nextId), d.client.value, d.entries, |d.entries|))
  {
    rows := [];
    hasClients := false;
    if st.current.None? {
      return LoginRequired, rows, hasClients;
    }
    var me := st.current.value;
    var choices;
    choices, hasClients := ClientChoices(st, me);
    var clientIds := SelectableClients(st.Rows(), me);
    var exerciseIds := OfferedExercises(st.Rows(), me);
    if !isPost {
      rows := [BlankEntry];
      return Shown, rows, hasClients;
    }
    var d := ProcessAddSession(inp);
    rows := d.entries;
    if !AddSessionValid(d, clientIds, exerciseIds) {
      return Shown, rows, hasClients;
    }
    AddSessionValidChoices(d, clientIds, exerciseIds);
    forall i | 0 <= i < |d.entries|
      ensures EntryInRange(d.entries[i])
    {
      EntryValidMeaning(d.entries[i], exerciseIds);
    }
    ghost var before := st.Rows();
    assert ExercisesOwned(before, me, d.entries) by {
      forall i | 0 <= i < |d.entries|
        ensures d.entries[i].exercise.value in exerciseIds
      {
      }
    }
    var c := d.client.value;
    assert c in clientIds;
    assert c >= 0 && c in before.clients && before.clients[c].trainerId == me;
    out := InsertSession(st, me, d);
  }

  // ---------------------------------------------------------------------------
  // exercise_row, remove_exercise_row, client_price

  /**
   * `exercise_row`: the submitted rows (at most 30 kept) with one blank row
   * appended; at 30 rows `append_entry` fails its assertion.  Only HTMX
   * requests are answered.
   */
  method ExerciseRow(st: Store, hx: bool, inp: seq<EntryInput>) returns (out: Outcome, rows: seq<Entry>)
    ensures st.current.None? ==> out == LoginRequired
    ensures st.current.Some? && !hx ==> out == NotFound
    ensures st.current.Some? && hx && |inp| >= MaxEntries ==> out == ServerError
    ensures st.current.Some? && hx && |inp| < MaxEntries ==>
      out == Shown && rows == ProcessEntries(inp) + [BlankEntry] && |rows| <= MaxEntries
  {
    rows := [];
    if st.current.None? {
      return LoginRequired, rows;
    }
    if !hx {
      return NotFound, rows;
    }
    rows := ProcessEntries(inp);
    if |rows| >= MaxEntries {
      return ServerError, rows;
    }
    rows := rows + [BlankEntry];
    out := Shown;
  }

  /**
   * `remove_exercise_row`: the submitted rows without the one at
   * `remove_index`, the others in their order with their values.  A missing,
   * non-integer or out-of-range index is a bad request.
   */
  method RemoveExerciseRow(st: Store, hx: bool, removeIndex: Option<string>, inp: seq<EntryInput>)
    returns (out: Outcome, rows: seq<Entry>)
    ensures st.current.None? ==> out == LoginRequired
    ensures st.current.Some? && !hx ==> out == NotFound
    ensures st.current.Some? && hx && (removeIndex.None? || Text.ParseInt(removeIndex.value).None?) ==> out == BadRequest
    ensures st.current.Some? && hx && removeIndex.Some? && Text.ParseInt(removeIndex.value).Some? ==>
      var i := Text.ParseInt(removeIndex.value).value;
      var orig := ProcessEntries(inp);
      && (!(0 <= i < |orig|) ==> out == BadRequest)
      && (0 <= i < |orig| ==> out == Shown && rows == orig[..i] + orig[i + 1..])
  {
    rows := [];
    if st.current.None? {
      return LoginRequired, rows;
    }
    if !hx || removeIndex.None? {
      return if !hx then NotFound else BadRequest, rows;
    }
    var parsed := Text.ParseInt(removeIndex.value);
    if parsed.None? {
      return BadRequest, rows;
    }
    var removed := parsed.value;
    var orig := ProcessEntries(inp);
    if !(0 <= removed < |orig|) {
      return BadRequest, rows;
    }
    rows := CopyWithout(orig, removed);
    out := Shown;
  }

  /** The loop of `remove_exercise_row`: every row but the one at `removed` is appended, in order. */
  method CopyWithout(orig: seq<Entry>, removed: nat) returns (rows: seq<Entry>)
    requires removed < |orig|
    ensures rows == orig[..removed] + orig[removed + 1..]
  {
    rows := [];
    var j := 0;
    while j < |orig|
      invariant 0 <= j <= |orig|
      invariant j <= removed ==> rows == orig[..j]
      invariant removed < j ==> rows == orig[..removed] + orig[removed + 1..j]
    {
      if j != removed {
        var sub := orig[j];
        var copy := Entry(sub.exercise, sub.sets, sub.reps, sub.weight);
        assert copy == orig[j];
        if j < removed {
          assert orig[..j + 1] == orig[..j] + [orig[j]];
        } else {
          assert orig[removed + 1..j + 1] == orig[removed + 1..j] + [orig[j]];
        }
        rows := rows + [copy];
      } else {
        assert orig[removed + 1..j + 1] == [];
      }
      j := j + 1;
    }
    assert orig[removed + 1..j] == orig[removed + 1..];
  }

  /** Removing a row leaves one row fewer, and every other row keeps its place relative to the rest. */
  lemma RemoveRowShape(orig: seq<Entry>, i: nat)
    requires i < |orig|
    ensures var rows := orig[..i] + orig[i + 1..];
      && |rows| == |orig| - 1
      && (forall k :: 0 <= k < i ==> rows[k] == orig[k])
      && (forall k :: i <= k < |rows| ==> rows[k] == orig[k + 1])
  {
  }

  /**
   * `client_price`: 0 when no client (or 0, or a non-integer) is given, the
   * price of the trainer's client otherwise, and not found for a client the
   * trainer does not have.
   */
  method ClientPrice(st: Store, hx: bool, client: Option<string>) returns (out: Outcome, price: int)
    ensures st.current.None? ==> out == LoginRequired
    ensures st.current.Some? && !hx ==> out == NotFound
    ensures st.current.Some? && hx ==>
      var id := if client.None? then None else Text.ParseInt(client.value);
      && (id.None? || id.value == 0 ==> out == Shown && price == 0)
      && (id.Some? && id.value != 0 ==>
            var owned := id.value >= 0 && id.value in st.clients && st.clients[id.value].trainerId == st.current.value;
            && (!owned ==> out == NotFound)
            && (owned ==> out == Shown && price == st.clients[id.value].price))
  {
    price := 0;
    if st.current.None? {
      return LoginRequired, price;
    }
    if !hx {
      return NotFound, price;
    }
    var id := if client.None? then None else Text.ParseInt(client.value);
    if id.None? || id.value == 0 {
      return Shown, 0;
    }
    var c := id.value;
    if !(c >= 0 && c in st.clients && st.clients[c].trainerId == st.current.value) {
      return NotFound, price;
    }
    price := st.clients[c].price;
    out := Shown;
  }
}
