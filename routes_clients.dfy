/**
 * The client pages: the active and archived lists, adding a client, the detail
 * page with its edit form, and archive, unarchive and delete.  Every lookup is
 * limited to the logged-in trainer's clients.
 */
module ClientRoutes {
  import opened Wrappers
  import opened Models
  import opened Database
  import opened Responses
  import Text
  import Ordering
  import ClientForms
  import PublicIds

  const DuplicateName: string := "A client with this name already exists."

  // ---------------------------------------------------------------------------
  // queries

  /** Client `cid` belongs to `trainer` and is not archived. */
  predicate ActiveClient(t: Tables, trainer: Id, cid: Id) {
    cid in t.clients && t.clients[cid].trainerId == trainer && t.clients[cid].archivedAt.None?
  }

  /** Client `cid` belongs to `trainer` and is archived. */
  predicate ArchivedClient(t: Tables, trainer: Id, cid: Id) {
    cid in t.clients && t.clients[cid].trainerId == trainer && t.clients[cid].archivedAt.Some?
  }

  /** Client `cid` belongs to `trainer` and carries `publicId`. */
  predicate Owns(t: Tables, trainer: Id, publicId: string, cid: Id) {
    cid in t.clients && t.clients[cid].trainerId == trainer && t.clients[cid].publicId == publicId
  }

  /**
   * Client `cid` is what the routes' lookup finds: owned, with that public id,
   * and archived or not as `archived` asks (None: either).
   */
  predicate Matches(t: Tables, trainer: Id, publicId: string, archived: Option<bool>, cid: Id) {
    Owns(t, trainer, publicId, cid) && (archived.None? || archived.value == t.clients[cid].archivedAt.Some?)
  }

  /** The `select(Client).where(...).first()` of the client routes. */
  method FindClient(st: Store, trainer: Id, publicId: string, archived: Option<bool>) returns (r: Option<Id>)
    requires Models.PublicIdsUnique(st.clients)
    ensures r.None? <==> forall c :: !Matches(st.Rows(), trainer, publicId, archived, c)
    ensures r.Some? ==> Matches(st.Rows(), trainer, publicId, archived, r.value)
    ensures r.Some? ==> forall c :: Owns(st.Rows(), trainer, publicId, c) ==> c == r.value
  {
    if exists c :: c in st.clients && Matches(st.Rows(), trainer, publicId, archived, c) {
      var c :| c in st.clients && Matches(st.Rows(), trainer, publicId, archived, c);
      r := Some(c);
    } else {
      r := None;
    }
  }

  /** Some session of client `cid` is still planned. */
  predicate HasPlannedSession(t: Tables, cid: Id) {
    exists s :: s in t.sessions && t.sessions[s].clientId == cid && t.sessions[s].status == Planned
  }

  /** Another client of `trainer` than `self` is called `name`. */
  predicate NameClash(cs: map<Id, Client>, trainer: Id, name: string, self: Option<Id>) {
    exists c :: c in cs && Some(c) != self && cs[c].trainerId == trainer && cs[c].name == name
  }

  function PublicIdsOf(cs: map<Id, Client>): set<string> {
    set c | c in cs :: cs[c].publicId
  }

  function NameOf(cs: map<Id, Client>, c: Id): string {
    if c in cs then cs[c].name else ""
  }

  /**
   * `r` is `max(start_dt)` over the sessions of client `cid`: None when it has
   * none, otherwise the start of one of them that no other starts after.
   */
  ghost predicate IsLatestStart(ss: map<Id, Session>, cid: Id, r: Option<Instant>) {
    && (r.None? <==> forall s :: s in ss ==> ss[s].clientId != cid)
    && (r.Some? ==>
          && (exists s :: s in ss && ss[s].clientId == cid && ss[s].startDt == r.value)
          && (forall s :: s in ss && ss[s].clientId == cid ==> ss[s].startDt <= r.value))
  }

  /** The latest start is determined by the sessions. */
  lemma LatestStartUnique(ss: map<Id, Session>, cid: Id, a: Option<Instant>, b: Option<Instant>)
    requires IsLatestStart(ss, cid, a) && IsLatestStart(ss, cid, b)
    ensures a == b
  {
    if a.Some? && b.Some? {
      var x :| x in ss && ss[x].clientId == cid && ss[x].startDt == a.value;
      var y :| y in ss && ss[y].clientId == cid && ss[y].startDt == b.value;
      assert a.value <= b.value && b.value <= a.value;
    }
  }

  /** The `func.max(Session.start_dt)` of the outer join, for one client. */
  method LastSessionStart(ss: map<Id, Session>, cid: Id) returns (r: Option<Instant>)
    ensures IsLatestStart(ss, cid, r)
  {
    r := None;
    var rest := ss.Keys;
    var seen: set<Id> := {};
    while rest != {}
      invariant rest !! seen && rest + seen == ss.Keys
      invariant r.None? <==> forall s :: s in seen ==> ss[s].clientId != cid
      invariant r.Some? ==> exists s :: s in seen && ss[s].clientId == cid && ss[s].startDt == r.value
      invariant r.Some? ==> forall s :: s in seen && ss[s].clientId == cid ==> ss[s].startDt <= r.value
      decreases |rest|
    {
      var s :| s in rest;
      if ss[s].clientId == cid && (r.None? || r.value < ss[s].startDt) {
        r := Some(ss[s].startDt);
      }
      rest := rest - {s};
      seen := seen + {s};
    }
  }

  // ---------------------------------------------------------------------------
  // clients, archived_clients

  /** `clients`: the logged-in trainer's clients that are not archived, in no particular order. */
  method ListClients(st: Store) returns (out: Outcome, ids: seq<Id>)
    ensures st.current.None? ==> out == LoginRequired && ids == []
    ensures st.current.Some? ==> out == Shown
    ensures st.current.Some? ==> Ordering.NoDuplicates(ids)
    ensures st.current.Some? ==> forall c :: c in ids <==> ActiveClient(st.Rows(), st.current.value, c)
  {
    if st.current.None? {
      return LoginRequired, [];
    }
    var me := st.current.value;
    ids := [];
    var rest := st.clients.Keys;
    while rest != {}
      invariant rest <= st.clients.Keys
      invariant forall c :: c in ids <==> ActiveClient(st.Rows(), me, c) && c !in rest
      invariant Ordering.NoDuplicates(ids)
      decreases |rest|
    {
      var c :| c in rest;
      if st.clients[c].trainerId == me && st.clients[c].archivedAt.None? {
        ids := ids + [c];
      }
      rest := rest - {c};
    }
    out := Shown;
  }

  datatype ArchivedRow = ArchivedRow(client: Id, lastSessionDt: Option<Instant>)

  /**
   * `archived_clients`: the logged-in trainer's archived clients, each once,
   * ordered by name, each with the start of its latest session.
   */
  method ArchivedClients(st: Store) returns (out: Outcome, rows: seq<ArchivedRow>)
    ensures st.current.None? ==> out == LoginRequired && rows == []
    ensures st.current.Some? ==> out == Shown
    ensures st.current.Some? ==> forall c :: ArchivedClient(st.Rows(), st.current.value, c) <==>
      exists i :: 0 <= i < |rows| && rows[i].client == c
    ensures forall i :: 0 <= i < |rows| ==> ArchivedClient(st.Rows(), st.current.value, rows[i].client)
    ensures forall i, j :: 0 <= i < j < |rows| ==> rows[i].client != rows[j].client
    ensures forall i, j :: 0 <= i < j < |rows| ==>
      Ordering.LexLeq(NameOf(st.clients, rows[i].client), NameOf(st.clients, rows[j].client))
    ensures forall i :: 0 <= i < |rows| ==> IsLatestStart(st.sessions, rows[i].client, rows[i].lastSessionDt)
  {
    if st.current.None? {
      return LoginRequired, [];
    }
    var me := st.current.value;
    var cs := st.clients;
    var archived := set c | c in cs && cs[c].trainerId == me && cs[c].archivedAt.Some?;
    var le := (a: Id, b: Id) => Ordering.LexLeq(NameOf(cs, a), NameOf(cs, b));
    forall a, b | a in archived && b in archived
      ensures le(a, b) || le(b, a)
    {
      Ordering.LexLeqTotal(NameOf(cs, a), NameOf(cs, b));
    }
    forall a, b, c | a in archived && b in archived && c in archived && le(a, b) && le(b, c)
      ensures le(a, c)
    {
      Ordering.LexLeqTransitive(NameOf(cs, a), NameOf(cs, b), NameOf(cs, c));
    }
    var sorted := Ordering.SortBy(archived, le);
    rows := [];
    var i := 0;
    while i < |sorted|
      invariant 0 <= i <= |sorted|
      invariant |rows| == i
      invariant forall k :: 0 <= k < i ==> rows[k].client == sorted[k]
      invariant forall k :: 0 <= k < i ==> IsLatestStart(st.sessions, sorted[k], rows[k].lastSessionDt)
    {
      var last := LastSessionStart(st.sessions, sorted[i]);
      rows := rows + [ArchivedRow(sorted[i], last)];
      i := i + 1;
    }
    forall c
      ensures ArchivedClient(st.Rows(), me, c) <==> exists i :: 0 <= i < |rows| && rows[i].client == c
    {
      if ArchivedClient(st.Rows(), me, c) {
        assert c in sorted;
        var k :| 0 <= k < |sorted| && sorted[k] == c;
        assert rows[k].client == c;
      }
      if exists i :: 0 <= i < |rows| && rows[i].client == c {
        var i :| 0 <= i < |rows| && rows[i].client == c;
        assert sorted[i] in sorted;
      }
    }
    forall i | 0 <= i < |rows|
      ensures ArchivedClient(st.Rows(), me, rows[i].client)
    {
      assert sorted[i] in sorted;
    }
    out := Shown;
  }

  // ---------------------------------------------------------------------------
  // add_client

  function StatusOf(s: string): ClientStatus {
    if s == "pause" then Pause else if s == "archive" then Archive else Active
  }

  function StatusName(s: ClientStatus): string {
    match s
    case Active => "active"
    case Pause => "pause"
    case Archive => "archive"
  }

  /**
   * The row `add_client` inserts: name, contact and notes stripped, an empty
   * contact or notes stored as None, not archived.
   */
  function NewClient(trainer: Id, publicId: string, d: ClientForms.ClientData): (c: Client)
    requires d.name.Some? && d.price.Some? && d.status.Some?
    ensures c.trainerId == trainer && c.publicId == publicId && c.archivedAt.None?
    ensures Text.NoEdgeSpace(c.name) && (c.name == [] <==> Text.AllSpace(d.name.value))
    ensures c.contact.Some? ==> Text.NoEdgeSpace(c.contact.value)
    ensures c.notes.Some? ==> Text.NoEdgeSpace(c.notes.value)
    ensures c.contact.None? <==> d.contact == None || d.contact == Some([])
    ensures c.notes.None? <==> d.notes == None || d.notes == Some([])
  {
    Client(trainer, publicId, Text.Strip(d.name.value), Text.StripOrNone(d.contact), Text.StripOrNone(d.notes),
           d.price.value, StatusOf(d.status.value), None)
  }

  /** Some of the first `maxRetries` candidates is free. */
  predicate GeneratorSucceeds(candidates: seq<string>, existing: set<string>, maxRetries: nat)
    requires |candidates| >= maxRetries
  {
    exists i :: 0 <= i < maxRetries && candidates[i] !in existing
  }

  /** Candidate `k` is the first one not in `existing`. */
  predicate FirstFree(candidates: seq<string>, existing: set<string>, k: nat) {
    k < |candidates| && candidates[k] !in existing && forall i :: 0 <= i < k ==> candidates[i] in existing
  }

  /**
   * `add_client`.  The client's public id comes from the generator over
   * `candidates`; a trainer who already has a client of the stripped name gets
   * a field error and no new row.
   */
  method AddClient(st: Store, isPost: bool, inp: ClientForms.ClientInput, candidates: seq<string>, maxRetries: nat)
    returns (out: Outcome)
    requires st.Valid()
    requires |candidates| >= maxRetries
    modifies st
    ensures st.Valid()
    ensures st.current == old(st.current)
    ensures out != Redirected ==> st.Rows() == old(st.Rows())
    ensures old(st.current).None? ==> out == LoginRequired && st.nextId == old(st.nextId)
    ensures var d := ClientForms.ProcessClient(inp, ClientForms.Blank);
      old(st.current).Some? && !(isPost && ClientForms.ClientValid(d)) ==> out == Shown && st.nextId == old(st.nextId)
    ensures var d := ClientForms.ProcessClient(inp, ClientForms.Blank);
      old(st.current).Some? && isPost && ClientForms.ClientValid(d) ==>
        var existing := PublicIdsOf(old(st.clients));
        && (!GeneratorSucceeds(candidates, existing, maxRetries) ==> out == ServerError && st.nextId == old(st.nextId))
        && (GeneratorSucceeds(candidates, existing, maxRetries) ==>
              && st.nextId == old(st.nextId) + 1
              && (NameClash(old(st.clients), old(st.current).value, Text.Strip(d.name.value), None) ==>
                    out == FieldError("name", DuplicateName))
              && (!NameClash(old(st.clients), old(st.current).value, Text.Strip(d.name.value), None) ==>
                    && out == Redirected
                    && st.trainers == old(st.trainers) && st.sessions == old(st.sessions)
                    && st.exercises == old(st.exercises) && st.sessionExercises == old(st.sessionExercises)
                    && exists k :: 0 <= k < maxRetries && FirstFree(candidates, existing, k)
                         && st.clients == old(st.clients)[old(st.nextId) := NewClient(old(st.current).value, candidates[k], d)]))
  {
    if st.current.None? {
      return LoginRequired;
    }
    var me := st.current.value;
    var d := ClientForms.ProcessClient(inp, ClientForms.Blank);
    if !isPost || !ClientForms.ClientValid(d) {
      return Shown;
    }
    var existing := PublicIdsOf(st.clients);
    var publicId, attempts := PublicIds.GenerateUnique(candidates, existing, maxRetries);
    if publicId.None? {
      return ServerError;
    }
    assert GeneratorSucceeds(candidates, existing, maxRetries) by {
      assert 0 <= attempts - 1 < maxRetries && candidates[attempts - 1] !in existing;
    }
    assert d.price.value >= 1;
    var c := NewClient(me, publicId.value, d);
    assert forall x :: x in st.clients ==> st.clients[x].publicId in existing;
    out := InsertClient(st, c);
    assert FirstFree(candidates, existing, attempts - 1);
  }

  /**
   * Adding the row and committing: the insert uses up a key, and a name the
   * trainer already gave another client violates `uq_client_name_per_trainer`,
   * which is reported on the name field with nothing written.
   */
  method InsertClient(st: Store, c: Client) returns (out: Outcome)
    requires st.Valid()
    requires c.trainerId in st.trainers && c.price >= 0
    requires forall x :: x in st.clients ==> st.clients[x].publicId != c.publicId
    modifies st
    ensures st.Valid()
    ensures st.current == old(st.current) && st.nextId == old(st.nextId) + 1
    ensures st.trainers == old(st.trainers) && st.sessions == old(st.sessions)
    ensures st.exercises == old(st.exercises) && st.sessionExercises == old(st.sessionExercises)
    ensures NameClash(old(st.clients), c.trainerId, c.name, None) ==>
      out == FieldError("name", DuplicateName) && st.clients == old(st.clients)
    ensures !NameClash(old(st.clients), c.trainerId, c.name, None) ==>
      out == Redirected && st.clients == old(st.clients)[old(st.nextId) := c]
  {
    var id := st.nextId;
    st.nextId := st.nextId + 1;
    if NameClash(st.clients, c.trainerId, c.name, None) {
      return FieldError("name", DuplicateName);
    }
    Models.InsertClientKeepsConsistent(st.Rows(), id, c);
    st.clients := st.clients[id := c];
    out := Redirected;
  }

  // ---------------------------------------------------------------------------
  // client (detail page and edit)

  /** The values the detail form is built with: the stored client. */
  function FormOf(c: Client): ClientForms.ClientData {
    ClientForms.ClientData(Some(c.name), Some(c.price), Some(StatusName(c.status)), c.contact, c.notes)
  }

  /** `form.populate_obj(client)`: the form's values as submitted, not stripped. */
  function Populate(c: Client, d: ClientForms.ClientData): (r: Client)
    requires d.name.Some? && d.price.Some? && d.status.Some?
    ensures r.trainerId == c.trainerId && r.publicId == c.publicId && r.archivedAt == c.archivedAt
    ensures r.name == d.name.value && r.price == d.price.value && r.contact == d.contact && r.notes == d.notes
    ensures r.status == StatusOf(d.status.value)
    ensures d.status.value in {"active", "pause", "archive"} ==> StatusName(r.status) == d.status.value
  {
    c.(name := d.name.value, price := d.price.value, status := StatusOf(d.status.value),
       contact := d.contact, notes := d.notes)
  }

  /** The sessions listed on a client's page: exactly that client's, by start time. */
  ghost predicate SessionsOfClientByStart(ss: map<Id, Session>, cid: Id, ids: seq<Id>) {
    && Ordering.NoDuplicates(ids)
    && (forall s :: s in ids <==> s in ss && ss[s].clientId == cid)
    && (forall i, j :: 0 <= i < j < |ids| ==> ss[ids[i]].startDt <= ss[ids[j]].startDt)
  }

  method SessionsByStart(ss: map<Id, Session>, cid: Id) returns (ids: seq<Id>)
    ensures SessionsOfClientByStart(ss, cid, ids)
  {
    var mine := set s | s in ss && ss[s].clientId == cid;
    var le := (a: Id, b: Id) => a in ss && b in ss && ss[a].startDt <= ss[b].startDt;
    ids := Ordering.SortBy(mine, le);
  }

  /**
   * `client`: the detail page of an owned client, and on POST its edit.  A POST
   * for an archived client is forbidden; a name another of the trainer's
   * clients has makes the commit fail and nothing changes.
   */
  method ClientDetail(st: Store, publicId: string, isPost: bool, inp: ClientForms.ClientInput)
    returns (out: Outcome, sessions: seq<Id>)
    requires st.Valid()
    modifies st
    ensures st.Valid()
    ensures st.current == old(st.current) && st.nextId == old(st.nextId)
    ensures st.trainers == old(st.trainers) && st.sessions == old(st.sessions)
    ensures st.exercises == old(st.exercises) && st.sessionExercises == old(st.sessionExercises)
    ensures out != Redirected ==> st.clients == old(st.clients)
    ensures old(st.current).None? ==> out == LoginRequired
    ensures old(st.current).Some? ==>
      (out == NotFound <==> forall c :: !Matches(old(st.Rows()), old(st.current).value, publicId, None, c))
    ensures forall c :: old(st.current).Some? && Matches(old(st.Rows()), old(st.current).value, publicId, None, c) ==>
      var client := old(st.clients)[c];
      var d := ClientForms.ProcessClient(inp, FormOf(client));
      && (isPost && client.archivedAt.Some? ==> out == Forbidden)
      && (!(isPost && client.archivedAt.Some?) ==> SessionsOfClientByStart(st.sessions, c, sessions))
      && (!isPost || (client.archivedAt.None? && !ClientForms.ClientValid(d)) ==> out == Shown)
      && (isPost && client.archivedAt.None? && ClientForms.ClientValid(d) ==>
            && (NameClash(old(st.clients), old(st.current).value, d.name.value, Some(c)) ==> out == Failed)
            && (!NameClash(old(st.clients), old(st.current).value, d.name.value, Some(c)) ==>
                  out == Redirected && st.clients == old(st.clients)[c := Populate(client, d)]))
  {
    sessions := [];
    if st.current.None? {
      return LoginRequired, sessions;
    }
    var me := st.current.value;
    var found := FindClient(st, me, publicId, None);
    if found.None? {
      return NotFound, sessions;
    }
    var c := found.value;
    var client := st.clients[c];
    if isPost && client.archivedAt.Some? {
      return Forbidden, sessions;
    }
    sessions := SessionsByStart(st.sessions, c);
    var d := ClientForms.ProcessClient(inp, FormOf(client));
    if !isPost || !ClientForms.ClientValid(d) {
      return Shown, sessions;
    }
    if NameClash(st.clients, me, d.name.value, Some(c)) {
      return Failed, sessions;
    }
    Models.UpdateClientKeepsConsistent(st.Rows(), c, Populate(client, d));
    st.clients := st.clients[c := Populate(client, d)];
    out := Redirected;
  }

  // ---------------------------------------------------------------------------
  // archive_client, unarchive_client, delete_client

  /**
   * `archive_client`: finds only an owned client that is not archived; with a
   * planned session nothing changes, otherwise only its `archived_at` is set.
   */
  method ArchiveClient(st: Store, publicId: string, now: Instant) returns (out: Outcome)
    requires st.Valid()
    modifies st
    ensures st.Valid()
    ensures st.current == old(st.current) && st.nextId == old(st.nextId)
    ensures st.trainers == old(st.trainers) && st.sessions == old(st.sessions)
    ensures st.exercises == old(st.exercises) && st.sessionExercises == old(st.sessionExercises)
    ensures out != Redirected ==> st.clients == old(st.clients)
    ensures old(st.current).None? ==> out == LoginRequired
    ensures old(st.current).Some? ==>
      (out == NotFound <==> forall c :: !Matches(old(st.Rows()), old(st.current).value, publicId, Some(false), c))
    ensures forall c :: old(st.current).Some? && Matches(old(st.Rows()), old(st.current).value, publicId, Some(false), c) ==>
      && (HasPlannedSession(old(st.Rows()), c) ==> out == Refused)
      && (!HasPlannedSession(old(st.Rows()), c) ==>
            out == Redirected && st.clients == old(st.clients)[c := old(st.clients)[c].(archivedAt := Some(now))])
  {
    if st.current.None? {
      return LoginRequired;
    }
    var found := FindClient(st, st.current.value, publicId, Some(false));
    if found.None? {
      return NotFound;
    }
    var c := found.value;
    if HasPlannedSession(st.Rows(), c) {
      return Refused;
    }
    var archived := st.clients[c].(archivedAt := Some(now));
    Models.UpdateClientKeepsConsistent(st.Rows(), c, archived);
    st.clients := st.clients[c := archived];
    out := Redirected;
  }

  /** `unarchive_client`: finds only an owned archived client and clears its `archived_at`. */
  method UnarchiveClient(st: Store, publicId: string) returns (out: Outcome)
    requires st.Valid()
    modifies st
    ensures st.Valid()
    ensures st.current == old(st.current) && st.nextId == old(st.nextId)
    ensures st.trainers == old(st.trainers) && st.sessions == old(st.sessions)
    ensures st.exercises == old(st.exercises) && st.sessionExercises == old(st.sessionExercises)
    ensures out != Redirected ==> st.clients == old(st.clients)
    ensures old(st.current).None? ==> out == LoginRequired
    ensures old(st.current).Some? ==>
      (out == NotFound <==> forall c :: !Matches(old(st.Rows()), old(st.current).value, publicId, Some(true), c))
    ensures forall c :: old(st.current).Some? && Matches(old(st.Rows()), old(st.current).value, publicId, Some(true), c) ==>
      out == Redirected && st.clients == old(st.clients)[c := old(st.clients)[c].(archivedAt := None)]
  {
    if st.current.None? {
      return LoginRequired;
    }
    var found := FindClient(st, st.current.value, publicId, Some(true));
    if found.None? {
      return NotFound;
    }
    var c := found.value;
    var restored := st.clients[c].(archivedAt := None);
    Models.UpdateClientKeepsConsistent(st.Rows(), c, restored);
    st.clients := st.clients[c := restored];
    out := Redirected;
  }

  /**
   * `delete_client`: refused while the owned client has a planned session;
   * otherwise the client goes, and with it its sessions and their performed
   * exercises.
   */
  method DeleteClient(st: Store, publicId: string) returns (out: Outcome)
    requires st.Valid()
    modifies st
    ensures st.Valid()
    ensures st.current == old(st.current) && st.nextId == old(st.nextId)
    ensures out != Redirected ==> st.Rows() == old(st.Rows())
    ensures old(st.current).None? ==> out == LoginRequired
    ensures old(st.current).Some? ==>
      (out == NotFound <==> forall c :: !Matches(old(st.Rows()), old(st.current).value, publicId, None, c))
    ensures forall c :: old(st.current).Some? && Matches(old(st.Rows()), old(st.current).value, publicId, None, c) ==>
      && (HasPlannedSession(old(st.Rows()), c) ==> out == Refused)
      && (!HasPlannedSession(old(st.Rows()), c) ==> out == Redirected && st.Rows() == Models.DeleteClient(old(st.Rows()), c))
  {
    if st.current.None? {
      return LoginRequired;
    }
    var found := FindClient(st, st.current.value, publicId, None);
    if found.None? {
      return NotFound;
    }
    var c := found.value;
    if HasPlannedSession(st.Rows(), c) {
      return Refused;
    }
    var r := Models.DeleteClient(st.Rows(), c);
    Models.DeleteClientKeepsConsistent(st.Rows(), c);
    st.clients, st.sessions, st.sessionExercises := r.clients, r.sessions, r.sessionExercises;
    assert st.Rows() == r;
    out := Redirected;
  }
}
