/**
 * The five tables: their rows, enumerations and defaults, the check and
 * uniqueness constraints that make a database state consistent, and the
 * cascade and restrict rules a delete follows.  Rows are held in maps from
 * primary key to row.
 */
module Models {
  import opened Wrappers
  import Text
  import Passwords

  type Id = nat

  /** A timestamp, as seconds since an epoch. */
  type Instant = int

  datatype Currency = UAH | USD | EUR
  datatype ClientStatus = Active | Pause | Archive
  datatype SessionMode = Online | Offline
  datatype SessionStatus = Planned | Done | Cancelled | NoShow

  const DefaultTimezone: string := "Europe/Kyiv"
  const DefaultCurrency: Currency := UAH
  const DefaultDuration: int := 60

  datatype Trainer = Trainer(
    name: string, email: string, passwordHash: Passwords.PasswordHash,
    timezone: string, currency: Currency)

  datatype Client = Client(
    trainerId: Id, publicId: string, name: string,
    contact: Option<string>, notes: Option<string>,
    price: int, status: ClientStatus, archivedAt: Option<Instant>)

  datatype Session = Session(
    clientId: Id, startDt: Instant, durationMin: int, mode: SessionMode,
    status: SessionStatus, price: int, isPaid: bool,
    paymentDate: Option<Instant>, notes: Option<string>)

  datatype Exercise = Exercise(trainerId: Id, name: string, description: Option<string>, isActive: bool)

  /** One exercise performed in a session; `weight` in hundredths of a kilogram. */
  datatype SessionExercise = SessionExercise(
    sessionId: Id, exerciseId: Id, clientId: Id, sets: int, reps: int, weight: int)

  datatype Tables = Tables(
    trainers: map<Id, Trainer>,
    clients: map<Id, Client>,
    sessions: map<Id, Session>,
    exercises: map<Id, Exercise>,
    sessionExercises: map<Id, SessionExercise>)

  const Empty: Tables := Tables(map[], map[], map[], map[], map[])

  // ---------------------------------------------------------------------------
  // constraints

  /** `trainers.email` is unique. */
  ghost predicate EmailsUnique(ts: map<Id, Trainer>) {
    forall a, b {:trigger ts[a].email, ts[b].email} :: a in ts && b in ts && a != b ==> ts[a].email != ts[b].email
  }

  /** Every client belongs to an existing trainer and has a price of at least 0. */
  ghost predicate ClientRowsOk(ts: map<Id, Trainer>, cs: map<Id, Client>) {
    forall c :: c in cs ==> cs[c].trainerId in ts && cs[c].price >= 0
  }

  /** `uq_client_name_per_trainer`. */
  ghost predicate ClientNamesUnique(cs: map<Id, Client>) {
    forall a, b {:trigger cs[a].name, cs[b].name} :: a in cs && b in cs && a != b && cs[a].trainerId == cs[b].trainerId ==> cs[a].name != cs[b].name
  }

  /** A client's public id identifies it. */
  ghost predicate PublicIdsUnique(cs: map<Id, Client>) {
    forall a, b {:trigger cs[a].publicId, cs[b].publicId} :: a in cs && b in cs && a != b ==> cs[a].publicId != cs[b].publicId
  }

  /** Every session belongs to an existing client, has a price of at least 0 and a positive duration. */
  ghost predicate SessionRowsOk(cs: map<Id, Client>, ss: map<Id, Session>) {
    forall s :: s in ss ==> ss[s].clientId in cs && ss[s].price >= 0 && ss[s].durationMin > 0
  }

  /** Every exercise belongs to an existing trainer. */
  ghost predicate ExerciseRowsOk(ts: map<Id, Trainer>, es: map<Id, Exercise>) {
    forall e :: e in es ==> es[e].trainerId in ts
  }

  /** `uq_exercise_name_per_trainer`. */
  ghost predicate ExerciseNamesUnique(es: map<Id, Exercise>) {
    forall a, b {:trigger es[a].name, es[b].name} :: a in es && b in es && a != b && es[a].trainerId == es[b].trainerId ==> es[a].name != es[b].name
  }

  /**
   * Every performed exercise refers to an existing session, exercise and
   * client, with sets and reps above 0 and a weight of at least 0.
   */
  ghost predicate PerformedRowsOk(ss: map<Id, Session>, es: map<Id, Exercise>, cs: map<Id, Client>, ps: map<Id, SessionExercise>) {
    forall x :: x in ps ==>
      && ps[x].sessionId in ss && ps[x].exerciseId in es && ps[x].clientId in cs
      && ps[x].sets > 0 && ps[x].reps > 0 && ps[x].weight >= 0
  }

  /** The schema's constraints, plus uniqueness of the public ids the routes rely on. */
  ghost predicate Consistent(t: Tables) {
    && EmailsUnique(t.trainers)
    && ClientRowsOk(t.trainers, t.clients) && ClientNamesUnique(t.clients) && PublicIdsUnique(t.clients)
    && SessionRowsOk(t.clients, t.sessions)
    && ExerciseRowsOk(t.trainers, t.exercises) && ExerciseNamesUnique(t.exercises)
    && PerformedRowsOk(t.sessions, t.exercises, t.clients, t.sessionExercises)
  }

  /** A trainer's exercise names differ even ignoring case. */
  ghost predicate ExerciseNamesDistinctIgnoringCase(es: map<Id, Exercise>) {
    forall a, b {:trigger es[a].name, es[b].name} :: a in es && b in es && a != b && es[a].trainerId == es[b].trainerId
      ==> !Text.SameIgnoringCase(es[a].name, es[b].name)
  }

  /** A performed exercise records the client of its session. */
  ghost predicate PerformedFollowSessions(ss: map<Id, Session>, ps: map<Id, SessionExercise>) {
    forall x :: x in ps && ps[x].sessionId in ss ==> ps[x].clientId == ss[ps[x].sessionId].clientId
  }

  /** What the application keeps beyond the schema. */
  ghost predicate AppInvariant(t: Tables) {
    ExerciseNamesDistinctIgnoringCase(t.exercises) && PerformedFollowSessions(t.sessions, t.sessionExercises)
  }

  ghost predicate KeysBelow<V>(m: map<Id, V>, n: nat) {
    forall k :: k in m ==> k < n
  }

  /** Every primary key in use is below `n`, so `n` and the keys after it are free. */
  ghost predicate IdsBelow(t: Tables, n: nat) {
    && KeysBelow(t.trainers, n) && KeysBelow(t.clients, n) && KeysBelow(t.sessions, n)
    && KeysBelow(t.exercises, n) && KeysBelow(t.sessionExercises, n)
  }

  /** Keys below `a` are below any larger `b`. */
  lemma IdsBelowGrow(t: Tables, a: nat, b: nat)
    requires IdsBelow(t, a) && a <= b
    ensures IdsBelow(t, b)
  {
  }

  /** Case-insensitive distinctness implies the schema's exact distinctness. */
  lemma AppInvariantNamesDistinct(t: Tables, a: Id, b: Id)
    requires AppInvariant(t)
    requires a in t.exercises && b in t.exercises && a != b && t.exercises[a].trainerId == t.exercises[b].trainerId
    ensures t.exercises[a].name != t.exercises[b].name
  {
  }

  // ---------------------------------------------------------------------------
  // deletes

  /** The sessions of client `cid`. */
  function SessionsOf(t: Tables, cid: Id): (r: set<Id>)
    ensures forall s :: s in r <==> s in t.sessions && t.sessions[s].clientId == cid
  {
    set s | s in t.sessions && t.sessions[s].clientId == cid
  }

  /** Deleting a session removes it and, by cascade, its performed exercises. */
  function DeleteSession(t: Tables, sid: Id): (r: Tables)
    ensures r.trainers == t.trainers && r.clients == t.clients && r.exercises == t.exercises
    ensures sid !in r.sessions
    ensures forall s :: s in r.sessions <==> s in t.sessions && s != sid
    ensures forall s :: s in r.sessions ==> r.sessions[s] == t.sessions[s]
    ensures forall x :: x in r.sessionExercises <==> x in t.sessionExercises && t.sessionExercises[x].sessionId != sid
    ensures forall x :: x in r.sessionExercises ==> r.sessionExercises[x] == t.sessionExercises[x]
  {
    t.(sessions := t.sessions - {sid},
       sessionExercises := map x | x in t.sessionExercises && t.sessionExercises[x].sessionId != sid :: t.sessionExercises[x])
  }

  /**
   * Deleting a client removes it and, by cascade, its sessions and every
   * performed exercise that refers to the client or to one of its sessions.
   */
  function DeleteClient(t: Tables, cid: Id): (r: Tables)
    ensures r.trainers == t.trainers && r.exercises == t.exercises
    ensures forall c :: c in r.clients <==> c in t.clients && c != cid
    ensures forall c :: c in r.clients ==> r.clients[c] == t.clients[c]
    ensures forall s :: s in r.sessions <==> s in t.sessions && t.sessions[s].clientId != cid
    ensures forall s :: s in r.sessions ==> r.sessions[s] == t.sessions[s]
    ensures forall x :: x in r.sessionExercises <==>
      && x in t.sessionExercises && t.sessionExercises[x].clientId != cid
      && t.sessionExercises[x].sessionId !in SessionsOf(t, cid)
    ensures forall x :: x in r.sessionExercises ==> r.sessionExercises[x] == t.sessionExercises[x]
  {
    var gone := SessionsOf(t, cid);
    t.(clients := t.clients - {cid},
       sessions := map s | s in t.sessions && t.sessions[s].clientId != cid :: t.sessions[s],
       sessionExercises := map x | x in t.sessionExercises && t.sessionExercises[x].clientId != cid
                                   && t.sessionExercises[x].sessionId !in gone :: t.sessionExercises[x])
  }

  /** Exercise `eid` is referred to by some performed exercise. */
  predicate ExerciseInUse(t: Tables, eid: Id) {
    exists x :: x in t.sessionExercises && t.sessionExercises[x].exerciseId == eid
  }

  /** Deleting an exercise that a performed exercise refers to is refused (`ondelete="RESTRICT"`). */
  function DeleteExercise(t: Tables, eid: Id): (r: Option<Tables>)
    ensures r.None? <==> ExerciseInUse(t, eid)
    ensures r.Some? ==>
      && r.value.exercises == t.exercises - {eid}
      && r.value.trainers == t.trainers && r.value.clients == t.clients
      && r.value.sessions == t.sessions && r.value.sessionExercises == t.sessionExercises
  {
    if ExerciseInUse(t, eid) then None else Some(t.(exercises := t.exercises - {eid}))
  }

  /** The clients of trainer `tid`. */
  function ClientsOf(t: Tables, tid: Id): (r: set<Id>)
    ensures forall c :: c in r <==> c in t.clients && t.clients[c].trainerId == tid
  {
    set c | c in t.clients && t.clients[c].trainerId == tid
  }

  /**
   * Performed exercise `x` outlives the cascade from trainer `tid`: neither its
   * client nor its session's client is one of the trainer's clients.
   */
  predicate PerformedSurvives(t: Tables, tid: Id, x: Id) {
    && x in t.sessionExercises
    && t.sessionExercises[x].clientId !in ClientsOf(t, tid)
    && t.sessionExercises[x].sessionId in t.sessions
    && t.sessions[t.sessionExercises[x].sessionId].clientId !in ClientsOf(t, tid)
  }

  /** Performed exercise `x` outlives the cascade but refers to an exercise of trainer `tid`. */
  predicate BlocksTrainerDelete(t: Tables, tid: Id, x: Id) {
    && PerformedSurvives(t, tid, x)
    && t.sessionExercises[x].exerciseId in t.exercises
    && t.exercises[t.sessionExercises[x].exerciseId].trainerId == tid
  }

  /**
   * Deleting a trainer removes it, its clients with their sessions and
   * performed exercises, and its exercises.  It is refused when a performed
   * exercise that the client cascade keeps still refers to one of those
   * exercises (`ondelete="RESTRICT"`).
   */
  function DeleteTrainer(t: Tables, tid: Id): (r: Option<Tables>)
    ensures r.None? <==> exists x :: x in t.sessionExercises && BlocksTrainerDelete(t, tid, x)
    ensures r.Some? ==>
      && (forall k :: k in r.value.trainers <==> k in t.trainers && k != tid)
      && (forall k :: k in r.value.trainers ==> r.value.trainers[k] == t.trainers[k])
      && (forall c :: c in r.value.clients <==> c in t.clients && t.clients[c].trainerId != tid)
      && (forall c :: c in r.value.clients ==> r.value.clients[c] == t.clients[c])
      && (forall e :: e in r.value.exercises <==> e in t.exercises && t.exercises[e].trainerId != tid)
      && (forall e :: e in r.value.exercises ==> r.value.exercises[e] == t.exercises[e])
      && (forall s :: s in r.value.sessions <==> s in t.sessions && t.sessions[s].clientId !in ClientsOf(t, tid))
      && (forall s :: s in r.value.sessions ==> r.value.sessions[s] == t.sessions[s])
      && (forall x :: x in r.value.sessionExercises <==> PerformedSurvives(t, tid, x))
      && (forall x :: x in r.value.sessionExercises ==> r.value.sessionExercises[x] == t.sessionExercises[x])
  {
    if exists x :: x in t.sessionExercises && BlocksTrainerDelete(t, tid, x) then None
    else
      var gone := ClientsOf(t, tid);
      Some(Tables(
        t.trainers - {tid},
        map c | c in t.clients && c !in gone :: t.clients[c],
        map s | s in t.sessions && t.sessions[s].clientId !in gone :: t.sessions[s],
        map e | e in t.exercises && t.exercises[e].trainerId != tid :: t.exercises[e],
        map x | x in t.sessionExercises && PerformedSurvives(t, tid, x) :: t.sessionExercises[x]))
  }

  // ---------------------------------------------------------------------------
  // deletes keep the database consistent

  lemma DeleteSessionKeepsConsistent(t: Tables, sid: Id)
    requires Consistent(t) && AppInvariant(t)
    ensures Consistent(DeleteSession(t, sid)) && AppInvariant(DeleteSession(t, sid))
  {
  }

  lemma DeleteClientKeepsConsistent(t: Tables, cid: Id)
    requires Consistent(t) && AppInvariant(t)
    ensures Consistent(DeleteClient(t, cid)) && AppInvariant(DeleteClient(t, cid))
  {
    var r := DeleteClient(t, cid);
    forall x | x in r.sessionExercises
      ensures r.sessionExercises[x].sessionId in r.sessions
    {
      var se := t.sessionExercises[x];
      assert se.sessionId !in SessionsOf(t, cid);
    }
  }

  lemma DeleteExerciseKeepsConsistent(t: Tables, eid: Id)
    requires Consistent(t) && AppInvariant(t)
    requires DeleteExercise(t, eid).Some?
    ensures Consistent(DeleteExercise(t, eid).value) && AppInvariant(DeleteExercise(t, eid).value)
  {
    var r := DeleteExercise(t, eid).value;
    forall x | x in r.sessionExercises
      ensures r.sessionExercises[x].exerciseId in r.exercises
    {
      assert t.sessionExercises[x].exerciseId != eid;
    }
  }

  lemma DeleteTrainerKeepsConsistent(t: Tables, tid: Id)
    requires Consistent(t) && AppInvariant(t)
    requires DeleteTrainer(t, tid).Some?
    ensures Consistent(DeleteTrainer(t, tid).value) && AppInvariant(DeleteTrainer(t, tid).value)
  {
    var r := DeleteTrainer(t, tid).value;
    forall x | x in r.sessionExercises
      ensures r.sessionExercises[x].exerciseId in r.exercises
    {
      var e := t.sessionExercises[x].exerciseId;
      assert e in t.exercises;
    }
  }

  // ---------------------------------------------------------------------------
  // inserts and updates that keep the database consistent

  /**
   * A new client keeps the constraints when its trainer exists, its price is
   * at least 0, its public id is new and its trainer has no client of that name.
   */
  lemma InsertClientKeepsConsistent(t: Tables, id: Id, c: Client)
    requires Consistent(t) && AppInvariant(t)
    requires id !in t.clients
    requires c.trainerId in t.trainers && c.price >= 0
    requires forall x :: x in t.clients ==> t.clients[x].publicId != c.publicId
    requires forall x :: x in t.clients && t.clients[x].trainerId == c.trainerId ==> t.clients[x].name != c.name
    ensures Consistent(t.(clients := t.clients[id := c])) && AppInvariant(t.(clients := t.clients[id := c]))
  {
  }

  /**
   * Changing a client keeps the constraints when its trainer and public id
   * stay, its price is at least 0 and no other client of the trainer has its
   * new name.
   */
  lemma UpdateClientKeepsConsistent(t: Tables, id: Id, c: Client)
    requires Consistent(t) && AppInvariant(t)
    requires id in t.clients
    requires c.trainerId == t.clients[id].trainerId && c.publicId == t.clients[id].publicId && c.price >= 0
    requires forall x :: x in t.clients && x != id && t.clients[x].trainerId == c.trainerId ==> t.clients[x].name != c.name
    ensures Consistent(t.(clients := t.clients[id := c])) && AppInvariant(t.(clients := t.clients[id := c]))
  {
  }

  /** A new trainer keeps the constraints when no trainer has its email. */
  lemma InsertTrainerKeepsConsistent(t: Tables, id: Id, tr: Trainer)
    requires Consistent(t) && AppInvariant(t)
    requires id !in t.trainers
    requires forall x :: x in t.trainers ==> t.trainers[x].email != tr.email
    ensures Consistent(t.(trainers := t.trainers[id := tr])) && AppInvariant(t.(trainers := t.trainers[id := tr]))
  {
  }

  /**
   * A new or renamed exercise keeps the constraints, and the names' distinctness
   * ignoring case, when no other exercise of its trainer has its name ignoring
   * case.
   */
  lemma PutExerciseKeepsConsistent(t: Tables, id: Id, e: Exercise)
    requires Consistent(t) && AppInvariant(t)
    requires e.trainerId in t.trainers
    requires id in t.exercises ==> t.exercises[id].trainerId == e.trainerId
    requires forall x :: x in t.exercises && x != id && t.exercises[x].trainerId == e.trainerId ==>
      !Text.SameIgnoringCase(t.exercises[x].name, e.name)
    ensures Consistent(t.(exercises := t.exercises[id := e])) && AppInvariant(t.(exercises := t.exercises[id := e]))
  {
    var r := t.(exercises := t.exercises[id := e]);
    forall a, b | a in r.exercises && b in r.exercises && a != b && r.exercises[a].trainerId == r.exercises[b].trainerId
      ensures r.exercises[a].name != r.exercises[b].name
    {
      assert !Text.SameIgnoringCase(r.exercises[a].name, r.exercises[b].name);
    }
  }

  /** A new session keeps the constraints when its client exists, its price is at least 0 and its duration positive. */
  lemma InsertSessionKeepsConsistent(t: Tables, id: Id, s: Session)
    requires Consistent(t) && AppInvariant(t)
    requires id !in t.sessions
    requires forall x :: x in t.sessionExercises ==> t.sessionExercises[x].sessionId != id
    requires s.clientId in t.clients && s.price >= 0 && s.durationMin > 0
    ensures Consistent(t.(sessions := t.sessions[id := s])) && AppInvariant(t.(sessions := t.sessions[id := s]))
  {
  }

  /**
   * A new performed exercise keeps the constraints when its session and
   * exercise exist, it records its session's client, and its sets, reps and
   * weight are in range.
   */
  lemma InsertSessionExerciseKeepsConsistent(t: Tables, id: Id, se: SessionExercise)
    requires Consistent(t) && AppInvariant(t)
    requires se.sessionId in t.sessions && se.exerciseId in t.exercises
    requires se.clientId == t.sessions[se.sessionId].clientId
    requires se.sets > 0 && se.reps > 0 && se.weight >= 0
    requires IdsBelow(t, id)
    ensures Consistent(t.(sessionExercises := t.sessionExercises[id := se]))
    ensures AppInvariant(t.(sessionExercises := t.sessionExercises[id := se]))
    ensures IdsBelow(t.(sessionExercises := t.sessionExercises[id := se]), id + 1)
  {
  }
}
