/**
 * The database as the request handlers see it: the five tables, the trainer
 * the request is logged in as, and the id sequence.
 */
module Database {
  import opened Wrappers
  import opened Models

  class Store {
    var trainers: map<Id, Trainer>
    var clients: map<Id, Client>
    var sessions: map<Id, Session>
    var exercises: map<Id, Exercise>
    var sessionExercises: map<Id, SessionExercise>
    /** Flask-Login's `current_user`: the logged-in trainer, None for an anonymous visitor. */
    var current: Option<Id>
    /**
     * The next primary key the sequences hand out (one sequence for all tables
     * here).  A rolled-back insert still uses up its key.
     */
    var nextId: nat

    function Rows(): Tables
      reads this
    {
      Models.Tables(trainers, clients, sessions, exercises, sessionExercises)
    }

    /** The schema's constraints, the application's own invariant, a real logged-in trainer and fresh keys from `nextId` on. */
    ghost predicate Valid()
      reads this
    {
      && Consistent(Rows()) && AppInvariant(Rows())
      && (current.Some? ==> current.value in trainers)
      && IdsBelow(Rows(), nextId)
    }

    /** An empty database and an anonymous visitor. */
    constructor ()
      ensures Valid()
      ensures Rows() == Empty && current == None && nextId == 0
    {
      trainers, clients, sessions, exercises, sessionExercises := map[], map[], map[], map[], map[];
      current := None;
      nextId := 0;
    }

    /** `db.session.rollback()`: the tables return to `saved`; keys already drawn stay used. */
    method Rollback(saved: Tables)
      requires Consistent(saved) && AppInvariant(saved)
      requires current.Some? ==> current.value in saved.trainers
      requires IdsBelow(saved, nextId)
      modifies this
      ensures Valid() && Rows() == saved
      ensures current == old(current) && nextId == old(nextId)
    {
      trainers, clients, sessions := saved.trainers, saved.clients, saved.sessions;
      exercises, sessionExercises := saved.exercises, saved.sessionExercises;
    }
  }
}
