/**
 * The account pages: the index, login, logout and registration.  An email is
 * compared and stored in one canonical form, stripped and lower-cased, and the
 * password only ever as its hash.
 */
module UserRoutes {
  import opened Wrappers
  import opened Models
  import opened Database
  import opened Responses
  import Text
  import Passwords
  import opened UserForms

  const EmailTaken: string := "Email already registered. Please use a different email."
  const BadCredentials: string := "Invalid email or password."

  // ---------------------------------------------------------------------------
  // the canonical email

  /** `email.strip().lower()`. */
  function CanonicalEmail(email: string): (r: string)
    ensures Text.NoEdgeSpace(r)
    ensures |r| <= |email|
  {
    LowerNoEdgeSpace(Text.Strip(email));
    Text.Lower(Text.Strip(email))
  }

  /** Lower-casing keeps the edges free of whitespace. */
  lemma LowerNoEdgeSpace(s: string)
    requires Text.NoEdgeSpace(s)
    ensures Text.NoEdgeSpace(Text.Lower(s))
  {
    if s != [] {
      Text.LowerKeepsSpace(s[0]);
      Text.LowerKeepsSpace(s[|s| - 1]);
    }
  }

  /** A canonical email is its own canonical form. */
  lemma {:induction false} CanonicalIdempotent(email: string)
    ensures CanonicalEmail(CanonicalEmail(email)) == CanonicalEmail(email)
  {
    var s := Text.Strip(email);
    Text.StripLower(s);
    Text.StripIdempotent(email);
    Text.LowerIdempotent(s);
  }

  /** Emails that differ only in letter case name the same account. */
  lemma {:induction false} CanonicalIgnoresCase(a: string, b: string)
    requires Text.SameIgnoringCase(a, b)
    ensures CanonicalEmail(a) == CanonicalEmail(b)
  {
    Text.StripLower(a);
    Text.StripLower(b);
  }

  /** Whitespace typed around an email is ignored. */
  lemma CanonicalIgnoresPadding(p: string, email: string, q: string)
    requires Text.AllSpace(p) && Text.AllSpace(q)
    ensures CanonicalEmail(p + email + q) == CanonicalEmail(email)
  {
    Text.StripPadded(p, email, q);
  }

  // ---------------------------------------------------------------------------
  // index, logout

  /** `index`: the main page, for a logged-in trainer only. */
  method Index(st: Store) returns (out: Outcome)
    ensures st.current.None? <==> out == LoginRequired
    ensures st.current.Some? <==> out == Shown
  {
    out := if st.current.None? then LoginRequired else Shown;
  }

  /** `logout`: the visitor becomes anonymous; no row changes. */
  method Logout(st: Store) returns (out: Outcome)
    requires st.Valid()
    modifies st
    ensures st.Valid()
    ensures st.Rows() == old(st.Rows()) && st.nextId == old(st.nextId)
    ensures st.current == None
    ensures old(st.current).None? <==> out == LoginRequired
    ensures old(st.current).Some? <==> out == Redirected
  {
    if st.current.None? {
      return LoginRequired;
    }
    st.current := None;
    out := Redirected;
  }

  // ---------------------------------------------------------------------------
  // login

  /** `select(Trainer).where(Trainer.email == email).scalar_one_or_none()`. */
  method FindTrainer(st: Store, email: string) returns (r: Option<Id>)
    requires Models.EmailsUnique(st.trainers)
    ensures r.None? <==> forall x :: x in st.trainers ==> st.trainers[x].email != email
    ensures r.Some? ==> r.value in st.trainers && st.trainers[r.value].email == email
    ensures r.Some? ==> forall x :: x in st.trainers && st.trainers[x].email == email ==> x == r.value
  {
    if exists x :: x in st.trainers && st.trainers[x].email == email {
      var x :| x in st.trainers && st.trainers[x].email == email;
      r := Some(x);
    } else {
      r := None;
    }
  }

  /** The trainer with email `email`, if any, accepts `password`. */
  predicate Authenticates(ts: map<Id, Trainer>, id: Id, email: string, password: string) {
    id in ts && ts[id].email == email && Passwords.Check(ts[id].passwordHash, password)
  }

  /**
   * `login`.  A trainer is logged in exactly when a trainer has the canonical
   * form of the submitted email and its hash accepts the password; an unknown
   * email and a wrong password get the same error on the password field.
   * Nothing is written.
   */
  method Login(st: Store, isPost: bool, f: LoginInput) returns (out: Outcome)
    requires st.Valid()
    modifies st
    ensures st.Valid()
    ensures st.Rows() == old(st.Rows()) && st.nextId == old(st.nextId)
    ensures old(st.current).Some? ==> out == AlreadyAuthenticated && st.current == old(st.current)
    ensures old(st.current).None? && !(isPost && LoginValid(f)) ==> out == Shown && st.current == None
    ensures old(st.current).None? && isPost && LoginValid(f) ==>
      var email := CanonicalEmail(f.email.value);
      (forall x: Id :: !Authenticates(st.trainers, x, email, f.password.value)) ==>
            out == FieldError("password", BadCredentials) && st.current == None
    ensures old(st.current).None? && isPost && LoginValid(f) ==>
      var email := CanonicalEmail(f.email.value);
      forall x: Id :: Authenticates(st.trainers, x, email, f.password.value) ==> out == Redirected && st.current == Some(x)
  {
    if st.current.Some? {
      return AlreadyAuthenticated;
    }
    if !isPost || !LoginValid(f) {
      return Shown;
    }
    var email := CanonicalEmail(f.email.value);
    var found := FindTrainer(st, email);
    if found.Some? && Passwords.Check(st.trainers[found.value].passwordHash, f.password.value) {
      assert Authenticates(st.trainers, found.value, email, f.password.value);
      st.current := found;
      return Redirected;
    }
    assert forall x: Id :: !Authenticates(st.trainers, x, email, f.password.value);
    out := FieldError("password", BadCredentials);
  }

  /**
   * An unknown email and a known email with the wrong password both leave no
   * trainer to log in, so `Login` answers both with the same field error.
   */
  lemma {:induction false} LoginFailureUniform(ts: map<Id, Trainer>, email: string, password: string)
    requires Models.EmailsUnique(ts)
    requires (forall x :: x in ts ==> ts[x].email != email)
          || (exists y :: y in ts && ts[y].email == email && !Passwords.Check(ts[y].passwordHash, password))
    ensures forall x :: !Authenticates(ts, x, email, password)
  {
    if exists y :: y in ts && ts[y].email == email && !Passwords.Check(ts[y].passwordHash, password) {
      var y :| y in ts && ts[y].email == email && !Passwords.Check(ts[y].passwordHash, password);
      forall x | x in ts && ts[x].email == email
        ensures !Passwords.Check(ts[x].passwordHash, password)
      {
        assert x == y;
      }
    }
  }

  // ---------------------------------------------------------------------------
  // register

  /**
   * The row `register` inserts: the stripped username, the canonical email, the
   * hash of the password, and the default timezone and currency.
   */
  function NewTrainer(f: RegisterInput): (tr: Trainer)
    requires RegisterValid(f)
    ensures UsernameChars(tr.name) && 2 <= |tr.name| <= UsernameMax
    ensures tr.email == CanonicalEmail(f.email.value) && CanonicalEmail(tr.email) == tr.email
    ensures tr.name == Text.Strip(f.username.value)
    ensures forall p :: Passwords.Check(tr.passwordHash, p) <==> p == f.password.value
    ensures tr.timezone == DefaultTimezone && tr.currency == DefaultCurrency
  {
    RegisterUsernameStripped(f);
    CanonicalIdempotent(f.email.value);
    Trainer(Text.Strip(f.username.value), CanonicalEmail(f.email.value), Passwords.Hash(f.password.value),
            DefaultTimezone, DefaultCurrency)
  }

  /**
   * `register`.  The insert draws a key whether or not it commits.  An email
   * whose canonical form a trainer already has violates the unique constraint:
   * the transaction is rolled back and the error is shown on the email field.
   * Otherwise the new trainer is stored and logged in.
   */
  method Register(st: Store, isPost: bool, f: RegisterInput) returns (out: Outcome)
    requires st.Valid()
    modifies st
    ensures st.Valid()
    ensures out != Redirected ==> st.Rows() == old(st.Rows()) && st.current == old(st.current)
    ensures old(st.current).Some? ==> out == AlreadyAuthenticated && st.nextId == old(st.nextId)
    ensures old(st.current).None? && !(isPost && RegisterValid(f)) ==> out == Shown && st.nextId == old(st.nextId)
    ensures old(st.current).None? && isPost && RegisterValid(f) ==>
      var tr := NewTrainer(f);
      && st.nextId == old(st.nextId) + 1
      && (EmailInUse(old(st.trainers), tr.email) ==> out == FieldError("email", EmailTaken))
      && (!EmailInUse(old(st.trainers), tr.email) ==>
            && out == Redirected && st.current == Some(old(st.nextId))
            && st.Rows() == old(st.Rows()).(trainers := old(st.trainers)[old(st.nextId) := tr]))
  {
    if st.current.Some? {
      return AlreadyAuthenticated;
    }
    if !isPost || !RegisterValid(f) {
      return Shown;
    }
    out := InsertTrainer(st, NewTrainer(f));
  }

  /** Some trainer has `email`. */
  predicate EmailInUse(ts: map<Id, Trainer>, email: string) {
    exists x :: x in ts && ts[x].email == email
  }

  /**
   * Adding the row and committing, then logging the new trainer in.  The key
   * is drawn before the unique constraint on the email is checked.
   */
  method InsertTrainer(st: Store, tr: Trainer) returns (out: Outcome)
    requires st.Valid() && st.current.None?
    modifies st
    ensures st.Valid()
    ensures st.nextId == old(st.nextId) + 1
    ensures EmailInUse(old(st.trainers), tr.email) ==>
      out == FieldError("email", EmailTaken) && st.Rows() == old(st.Rows()) && st.current == None
    ensures !EmailInUse(old(st.trainers), tr.email) ==>
      && out == Redirected && st.current == Some(old(st.nextId))
      && st.Rows() == old(st.Rows()).(trainers := old(st.trainers)[old(st.nextId) := tr])
  {
    var id := st.nextId;
    st.nextId := id + 1;
    if EmailInUse(st.trainers, tr.email) {
      return FieldError("email", EmailTaken);
    }
    assert id !in st.trainers;
    Models.InsertTrainerKeepsConsistent(st.Rows(), id, tr);
    st.trainers := st.trainers[id := tr];
    st.current := Some(id);
    out := Redirected;
  }
}
