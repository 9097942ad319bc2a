# trainer-journal, modelled in Dafny

trainer-journal is a Flask/SQLAlchemy web application. Personal trainers use it to keep a list of
clients, a catalogue of exercises and a journal of training sessions. This project models the
request handlers of that application, the forms they validate and the tables they write. It proves
what each handler does to the database and that every handler keeps the database consistent.

The model is organised as follows:

- **Database** (`database.dfy`, `models.dfy`). The database is one `Store` object holding five
  tables (trainers, clients, sessions, exercises, performed exercises), the logged-in trainer and
  the next key the id sequence hands out.
  - Its invariant `Valid` is made of three parts:
    - the schema's check, foreign-key and uniqueness constraints;
    - the application's own rules: exercise names differ ignoring case, and a performed exercise
      records its session's client;
    - "every key in use is below `nextId`".
  - Cascading and restricted deletes are functions on the tables, each with a lemma that it keeps
    the constraints.
- **Handlers** (`routes_*.dfy`). Each handler is a method on the store. It returns the kind of
  response (`Outcome`) and states exactly which rows change.
- **Forms** (`forms_*.dfy`, `validators.dfy`). Each form is two things:
  - a processing function from the submitted values to WTForms field data (absent keys keep the
    default, `int()` conversion, coercion);
  - a validity predicate over that data.
- **Helpers.**
  - String handling: `text.dfy` (`strip`, `" ".join(s.split())`, `lower`, `int()`).
  - Name ordering: `ordering.dfy`.
  - The public-id generator: `public_ids.dfy`.
  - The `dt_no_seconds` filter: `template_filters.dfy`.
  - Password hashing, kept abstract: `passwords.dfy`.

Where the code and the design description of the application disagree, the model follows the code:

- `add_session` in this snapshot only accepts ids of existing exercises. There are no free-typed
  exercise names and no creation of exercises on the fly.
- There is no session edit route, so there is no full-replace of performed exercises and no
  payment-date transitions.
- Start times arrive already parsed; no time-zone conversion is modelled.
- `models.py` declares neither `Client.public_id`, `Client.archived_at` nor `Exercise.is_active`,
  but the routes use all three. The model adds them: `is_active` is true for new rows, and
  `public_id` is drawn by the generator when the client is added.

## Model

| member | source | states |
|---|---|---|
| Database.Store.constructor | models.py:6-187 | an empty database satisfies every table constraint and the application's invariant |
| Database.Store.Rollback | app/routes/sessions.py:117-135 | a rollback restores the saved tables; keys already drawn stay used |
| Models.DeleteSession | models.py:123-128 | deleting a session removes it and exactly its performed exercises; the other tables are untouched |
| Models.DeleteClient | models.py:68-73 | deleting a client removes it, its sessions, and the performed exercises of the client or its sessions; trainers and exercises are untouched |
| Models.DeleteExercise | models.py:162-167 | deleting an exercise is refused exactly when a performed exercise refers to it; otherwise only that exercise goes |
| Models.DeleteTrainer | models.py:27-40 | deleting a trainer is refused exactly when a performed exercise that survives the client cascade refers to one of the trainer's exercises (`ondelete="RESTRICT"`); otherwise it removes the trainer, its clients, their sessions, the performed exercises of those clients or sessions, and its exercises, and every other row is kept with its value |
| Models.SessionsOf | models.py:68-73 | the sessions the client cascade reaches are exactly those of the client |
| Models.ClientsOf | models.py:27-32 | the clients the trainer cascade reaches are exactly those of the trainer |
| Models.DeleteSessionKeepsConsistent | models.py:123-128 | the session cascade keeps every constraint and the application invariant |
| Models.DeleteClientKeepsConsistent | models.py:68-73 | the client cascade leaves no dangling performed exercise |
| Models.DeleteExerciseKeepsConsistent | models.py:162-167 | an allowed exercise delete leaves no performed exercise without its exercise |
| Models.DeleteTrainerKeepsConsistent | models.py:27-40 | an allowed trainer delete keeps every constraint |
| Models.InsertClientKeepsConsistent | models.py:77-80 | a new client with an existing trainer, a price of at least 0, a fresh public id and a name new for its trainer keeps the constraints |
| Models.UpdateClientKeepsConsistent | models.py:77-80 | changing a client without a clash of names keeps the constraints |
| Models.InsertTrainerKeepsConsistent | models.py:12 | a trainer with an unused email keeps email uniqueness |
| Models.PutExerciseKeepsConsistent | models.py:147-149 | an exercise whose name no other exercise of its trainer has, ignoring case, keeps both the exact and the case-insensitive uniqueness |
| Models.InsertSessionKeepsConsistent | models.py:117-120 | a session with an existing client, a price of at least 0 and a positive duration keeps the constraints |
| Models.InsertSessionExerciseKeepsConsistent | models.py:180-185 | a performed exercise with an existing session and exercise, its session's client, sets and reps above 0 and a weight of at least 0 keeps the constraints and leaves keys below the next one |
| Models.IdsBelowGrow | models.py:10 | keys below a bound are below any larger bound |
| Models.AppInvariantNamesDistinct | models.py:147-149 | names distinct ignoring case are distinct |
| Text.StripLeft | app/routes/clients.py:53 | the result is a suffix of the input, only whitespace is dropped, and it does not start with whitespace |
| Text.StripRight | app/routes/clients.py:53 | the result is a prefix of the input, only whitespace is dropped, and it does not end with whitespace |
| Text.Strip | app/routes/clients.py:53 | the result has no whitespace at either end, and it is empty exactly when the input is all whitespace |
| Text.StripLeftPadded | app/routes/clients.py:53 | leading whitespace does not change the left strip |
| Text.StripRightPadded | app/routes/clients.py:53 | trailing whitespace does not change the right strip |
| Text.StripLeftNoLead | app/routes/clients.py:53 | a string without leading whitespace is its own left strip |
| Text.StripRightNoTrail | app/routes/clients.py:53 | a string without trailing whitespace is its own right strip |
| Text.StripLeftAppend | app/routes/clients.py:53 | the left strip of a concatenation |
| Text.StripPadded | app/routes/clients.py:53 | whitespace padding on both sides does not change the strip |
| Text.StripIdempotent | app/routes/clients.py:53 | stripping twice is stripping once |
| Text.StripUnpadded | app/routes/clients.py:53 | a string without edge whitespace is its own strip |
| Text.StripOrNone | app/routes/clients.py:55-56 | `x.strip() if x else None`: None exactly for a missing or empty value, "" for an all-whitespace value, otherwise the stripped text |
| Text.LowerIdempotent | app/routes/user.py:32 | lower-casing twice is lower-casing once |
| Text.LowerKeepsSpace | app/routes/user.py:32 | lower-casing keeps whitespace and non-whitespace apart |
| Text.StripLeftLower | app/routes/user.py:32 | the left strip commutes with lower-casing |
| Text.StripRightLower | app/routes/user.py:32 | the right strip commutes with lower-casing |
| Text.StripLower | app/routes/user.py:32 | strip commutes with lower-casing |
| Text.WordLen | app/routes/exercises.py:28 | the leading word is a run of non-whitespace ended by whitespace or by the end of the string |
| Text.Words | app/routes/exercises.py:28 | `split()` yields non-empty words free of whitespace |
| Text.NormalizeSpaces | app/routes/exercises.py:28 | the normalised name has no edge whitespace, and each whitespace character in it is a single space between two words |
| Text.JoinNormalized | app/routes/exercises.py:28 | joining words with single spaces gives a normalised string |
| Text.WordsSkipsSpace | app/routes/exercises.py:28 | leading whitespace adds no word |
| Text.WordsOfWordThenRest | app/routes/exercises.py:28 | a word followed by whitespace splits off as the first word |
| Text.WordLenOfWord | app/routes/exercises.py:28 | the leading word of a word followed by whitespace is that word |
| Text.WordsOfJoin | app/routes/exercises.py:28 | splitting a space-joined list of words returns the list |
| Text.NormalizeKeepsWords | app/routes/exercises.py:28 | normalising keeps the words of the input, in order |
| Text.NormalizeIdempotent | app/routes/exercises.py:83 | normalising a normalised name changes nothing |
| Text.ParseInt | app/routes/sessions.py:177 | `int()` succeeds exactly when the stripped text is digit groups with an optional sign; the value is the digits' value, negated after a minus; an all-whitespace string is rejected |
| Text.NatToString | app/routes/sessions.py:177 | the decimal form of a natural number is a non-empty digit string |
| Text.NatToStringValue | app/routes/sessions.py:177 | the decimal form reads back as the number |
| Text.DigitsAreGroups | app/routes/sessions.py:177 | a plain digit string is accepted by `int()` |
| Text.DigitNotSpace | app/routes/sessions.py:177 | digits and the minus sign are not whitespace |
| Text.ParseNatString | app/routes/sessions.py:177 | `int(str(n))` is `n` for `n >= 0` |
| Text.ParseNegativeString | app/routes/sessions.py:177 | `int(str(n))` is `n` for `n < 0` |
| Text.ParseIntRoundTrip | app/routes/sessions.py:177 | `int(str(n)) == n` for every integer |
| Ordering.LexLeqTotal | app/routes/clients.py:37 | any two names are ordered one way or the other |
| Ordering.LexLeqTransitive | app/routes/clients.py:37 | the name order is transitive |
| Ordering.MinExists | app/routes/clients.py:37 | a non-empty set has a least element under a total preorder |
| Ordering.SortBy | app/routes/clients.py:37 | `ORDER BY`: each element of the set exactly once, in ascending order |
| Passwords.CheckHash | app/routes/user.py:38 | a hash accepts the password it was made from and no other |
| PublicIds.GenerateUnique | app/utils/database.py:11-20 | at most `maxRetries` draws; the result is the first draw not in use; None exactly when every draw was in use |
| TemplateFilters.Pad2 | app/utils/template_filters.py:4 | two zero-padded digits reading back as the number |
| TemplateFilters.Pad4 | app/utils/template_filters.py:4 | four zero-padded digits reading back as the number |
| TemplateFilters.FormatNoSeconds | app/utils/template_filters.py:4-9 | "DD.MM.YYYY HH:MM" is 16 characters: day, month, year, hour and minute in their positions, separators between them |
| TemplateFilters.DtNoSeconds | app/utils/template_filters.py:4-9 | None gives "", a non-datetime is returned unchanged, a datetime gives a 16-character string |
| TemplateFilters.DtNoSecondsDropsOnlySeconds | app/utils/template_filters.py:9 | two datetimes render alike exactly when they differ at most in their seconds |
| SessionForms.ProcessEntries | app/forms/sessions.py:100-104 | at most 30 rows are kept, the first ones, each processed |
| SessionForms.EntryValidMeaning | app/forms/sessions.py:11-42 | a row is valid exactly when it names an offered exercise >= 1, has sets and reps >= 1, and has no negative weight |
| SessionForms.EmptySelectionRejected | app/forms/sessions.py:15-21 | an empty exercise selection is coerced to 0 and rejected |
| SessionForms.ZeroOrNoWeightAccepted | app/forms/sessions.py:36-42 | a weight of 0, or no weight at all, is accepted |
| SessionForms.HeaderValidMeaning | app/forms/sessions.py:44-86 | a valid header has a start, a duration in 1..480, mode online or offline, a price of at least 1 (0 fails `DataRequired`), and notes of at most 2048 characters |
| SessionForms.AbsentDurationAndModeDefault | app/forms/sessions.py:50-70 | without duration and mode the data is 60 minutes, offline |
| SessionForms.ProcessAddSession | app/forms/sessions.py:100-104 | the add form never holds more than 30 rows |
| SessionForms.AddSessionValidChoices | app/forms/sessions.py:89-98 | a valid add form names an offered client and only offered exercises |
| SessionForms.EditSessionStatus | app/forms/sessions.py:107-119 | a valid edit form has status planned, done, cancelled or no_show |
| ClientForms.ClientValidMeaning | app/forms/clients.py:9-54 | a valid client form has a non-blank name of 3..100 characters, a price of at least 1, status active or pause, a contact of at most 100 and notes of at most 4096 characters |
| ClientForms.AbsentStatusIsActive | app/forms/clients.py:28-36 | without a status the client is active |
| ClientForms.ArchiveNotAChoice | app/forms/clients.py:28-36 | "archive" is never accepted |
| ExerciseForms.ExerciseValidMeaning | app/forms/exercises.py:7-32 | a valid exercise form has a non-blank name of at most 90 characters, type reps or time, and a description of at most 1024 characters; the add and edit forms share it |
| ExerciseForms.AbsentTypeRejected | app/forms/exercises.py:18-23 | without a type the default "REPS" is used, which is not a choice, so the form fails |
| UserForms.UsernameCharNotSpace | app/forms/user.py:22-28 | username characters are not whitespace |
| UserForms.RegisterValidMeaning | app/forms/user.py:12-63 | a registration is valid exactly when the username has 3..25 characters matching the pattern, the email is present, not blank, at most 120 characters and accepted by `Email()`, and the password is not blank, has 8..1024 characters and is repeated exactly by the confirmation |
| UserForms.RegisterUsernameStripped | app/routes/user.py:63 | a valid registration's stripped username has 2..25 characters of `[A-Za-z0-9._-]` and differs from the submitted one at most by a final newline |
| UserForms.LoginValidMeaning | app/forms/user.py:67-87 | a login is valid exactly when the email is present, not blank, at most 120 characters and accepted by `Email()`, and the password is present, not blank and at most 1024 characters |
| UserForms.TrailingNewlineAccepted | app/forms/user.py:22-28 | the username pattern lets one trailing newline through |
| ClientRoutes.FindClient | app/routes/clients.py:87-94 | the lookup finds the trainer's client with that public id (and archived state) if there is one; the public id identifies it |
| ClientRoutes.LatestStartUnique | app/routes/clients.py:27 | the latest session start of a client is determined by its sessions |
| ClientRoutes.LastSessionStart | app/routes/clients.py:27-31 | `max(start_dt)` over the client's sessions, or None without sessions |
| ClientRoutes.ListClients | app/routes/clients.py:14-21 | exactly the trainer's clients that are not archived, each once |
| ClientRoutes.ArchivedClients | app/routes/clients.py:24-45 | exactly the trainer's archived clients, each once, by name, each with the start of its latest session |
| ClientRoutes.NewClient | app/routes/clients.py:53-66 | the new client has the stripped name, contact and notes (empty ones as None) and is not archived |
| ClientRoutes.AddClient | app/routes/clients.py:48-81 | an invalid form writes nothing; a failed generator is an error; a name the trainer already uses is a field error with no new row; otherwise exactly the new client is added |
| ClientRoutes.InsertClient | app/routes/clients.py:68-79 | the commit adds the client unless its name clashes, and the key is used either way |
| ClientRoutes.Populate | app/routes/clients.py:111 | `populate_obj` copies the submitted name, price, status, contact and notes unstripped, keeping owner, public id and archive state |
| ClientRoutes.SessionsByStart | app/routes/clients.py:99-107 | the client's sessions, each once, by start time |
| ClientRoutes.ClientDetail | app/routes/clients.py:84-127 | NotFound for a client that is not the trainer's; a POST for an archived client is Forbidden and writes nothing; a valid edit changes only that client unless its new name clashes |
| ClientRoutes.ArchiveClient | app/routes/clients.py:129-163 | finds only the trainer's unarchived client; with a planned session nothing changes, otherwise only its `archived_at` is set |
| ClientRoutes.UnarchiveClient | app/routes/clients.py:166-187 | finds only the trainer's archived client and clears its `archived_at` |
| ClientRoutes.DeleteClient | app/routes/clients.py:190-223 | refused while a planned session exists; otherwise exactly the client cascade is applied |
| SessionRoutes.ListSessions | app/routes/sessions.py:21-30 | exactly the sessions of the trainer's clients, each once, by start time |
| SessionRoutes.ClientChoices | app/routes/sessions.py:45-56 | the placeholder, then each active client of the trainer once, by name; `has_clients` exactly when there is one |
| SessionRoutes.NewSession | app/routes/sessions.py:83-92 | the new session is planned and unpaid, with the notes stripped or None |
| SessionRoutes.WithPerformedMeaning | app/routes/sessions.py:96-111 | one row per entry under consecutive keys, in order, and no other row touched |
| SessionRoutes.PerformedMeaning | app/routes/sessions.py:103-110 | each row records the new session, its client, the exercise, sets and reps, and the weight or 0 |
| SessionRoutes.InsertSession | app/routes/sessions.py:78-135 | NotFound for a client not the trainer's; a foreign exercise rolls everything back; otherwise one session and one row per entry are written |
| SessionRoutes.AddPerformedRows | app/routes/sessions.py:96-111 | the loop succeeds exactly when every entry's exercise is the trainer's, and then writes one row per entry |
| SessionRoutes.AddSessionRow | app/routes/sessions.py:93-94 | the session is written under the next key and nothing else changes |
| SessionRoutes.AddPerformedRow | app/routes/sessions.py:111 | the performed exercise is written under the next key and nothing else changes |
| SessionRoutes.AddSession | app/routes/sessions.py:33-142 | a GET shows one blank row; an invalid form writes nothing; a valid one writes the session and its rows; the NotFound paths cannot be reached, and the rollback path cannot while every value fits its column, which the model does not check |
| SessionRoutes.ExerciseRow | app/routes/sessions.py:145-164 | only HTMX requests are answered; the submitted rows get one blank row appended, and at 30 rows the request fails |
| SessionRoutes.RemoveExerciseRow | app/routes/sessions.py:167-207 | a missing, non-integer or out-of-range index is BadRequest; otherwise the rows without the one at that index, in order |
| SessionRoutes.CopyWithout | app/routes/sessions.py:187-194 | the copy loop gives the rows with the one at the index left out |
| SessionRoutes.RemoveRowShape | app/routes/sessions.py:187-194 | removing a row leaves one row fewer, with the rows before it in place and the rows after it moved up by one |
| SessionRoutes.ClientPrice | app/routes/sessions.py:210-227 | 0 without a client, the price of the trainer's client, NotFound for anyone else's; only HTMX requests are answered |
| ExerciseRoutes.ListExercises | app/routes/exercises.py:13-18 | exactly the trainer's exercises, active or not, each once |
| ExerciseRoutes.NewExercise | app/routes/exercises.py:27-53 | the stored name is normalised and keeps the submitted words; the description is stripped, or None when empty; the row is active |
| ExerciseRoutes.Renamed | app/routes/exercises.py:83-106 | an edit stores name and description as the add page would, keeping owner and activity |
| ExerciseRoutes.StoredNameStable | app/routes/exercises.py:83 | submitting a stored name again leaves it unchanged |
| ExerciseRoutes.SpacingIgnored | app/routes/exercises.py:28 | names that differ only in spacing are stored alike |
| ExerciseRoutes.OwnVariantNotTaken | app/routes/exercises.py:90-99 | renaming an exercise to a case variant of its own name never clashes |
| ExerciseRoutes.AddExercise | app/routes/exercises.py:21-65 | a name the trainer already uses, ignoring case, is a field error and writes nothing; otherwise exactly the new exercise is added |
| ExerciseRoutes.InsertExercise | app/routes/exercises.py:49-58 | the insert under the next key keeps every constraint |
| ExerciseRoutes.EditExercise | app/routes/exercises.py:68-118 | NotFound unless the exercise is the trainer's and active; a name another exercise of the trainer has, ignoring case, is a field error; otherwise only that exercise's name and description change |
| UserRoutes.CanonicalEmail | app/routes/user.py:32 | the canonical email has no edge whitespace |
| UserRoutes.LowerNoEdgeSpace | app/routes/user.py:32 | lower-casing keeps the edges free of whitespace |
| UserRoutes.CanonicalIdempotent | app/routes/user.py:32 | a canonical email is its own canonical form |
| UserRoutes.CanonicalIgnoresCase | app/routes/user.py:32 | emails that differ only in case have the same canonical form |
| UserRoutes.CanonicalIgnoresPadding | app/routes/user.py:32 | surrounding whitespace does not change the canonical form |
| UserRoutes.Index | app/routes/user.py:19-22 | the index is shown exactly to a logged-in trainer |
| UserRoutes.Logout | app/routes/user.py:48-53 | logging out leaves no one logged in and changes no row |
| UserRoutes.FindTrainer | app/routes/user.py:33-34 | the one trainer with that email, or None when there is none |
| UserRoutes.Login | app/routes/user.py:25-45 | a logged-in visitor is sent on; a trainer is logged in exactly when its email is the canonical form of the submitted one and its hash accepts the password; otherwise the same error is shown and nothing changes |
| UserRoutes.LoginFailureUniform | app/routes/user.py:36-43 | an unknown email and a wrong password both leave no one to log in |
| UserRoutes.NewTrainer | app/routes/user.py:63-72 | the new trainer has the stripped username, the canonical email, a hash accepting exactly the password, and the default timezone and currency |
| UserRoutes.Register | app/routes/user.py:56-87 | a logged-in visitor is sent on; a used email is a field error with no new row; otherwise exactly the new trainer is added and logged in (an email that does not fit its column is not checked) |
| UserRoutes.InsertTrainer | app/routes/user.py:72-85 | the key is drawn before the email check; the insert and the login happen exactly when the email is unused |

## Left out

- Rendering, flash texts, `redirect`/`url_for`, HTMX attributes and the JavaScript under
  `app/static/js/` are not modelled. A response is reduced to its kind (`Outcome`).
- CSRF tokens are not modelled; `validate_on_submit` is "a POST whose form is valid".
- Concurrency is not modelled. The race between the duplicate check and the commit in
  `app/routes/exercises.py:35-63` cannot occur: every request runs alone and commits atomically.
  So the `IntegrityError` branches of `add_exercise` and `exercise` cannot be reached.
- The email syntax check (`Email()`, the email_validator library) is an input flag
  (`emailSyntaxOk`).
- Password hashing is symbolic (`Passwords.Hash`/`Check`); werkzeug's salted scrypt is not modelled.
- The random draws of `nanoid.generate` are a parameter (`candidates`).
- `MAX_PUBLIC_ID_RETRIES` is a parameter; `app/constants.py` is not part of this model.
- `datetime.now` is a parameter (`now`).
- Decimal and date parsing are not modelled. The weight arrives already converted to hundredths of
  a kilogram, and the start time already parsed (`None` when absent or invalid). Invalid decimal
  text is therefore not modelled.
- Lower-casing covers ASCII letters only. Names are compared by code point, not by the database's
  collation, so `ORDER BY name` and `func.lower` may differ from PostgreSQL for non-ASCII text.
- Column widths (`String(100)`, `Numeric(5, 2)`) are not enforced; integers are unbounded.
- SessionRoutes.AddSession: states that the rollback path is never taken, which holds only while
  every value fits its column. In the application a weight of 1000 kg or more (`Numeric(5, 2)`)
  or a sets, reps, duration or price beyond 32 bits (`Integer`) fails at the database; the handler
  then rolls back and shows the form again.
- UserRoutes.Register: answers Redirected for an email of 101 to 120 characters. `Length(max=120)`
  lets such an email through, but `trainers.email` is `String(100)`, and `register` catches only
  `IntegrityError`, so the application answers with a server error.
- Text.ParseInt: accepts ASCII digits only. Python's `int()` also accepts every other Unicode
  decimal digit (for example Arabic-Indic or full-width digits).
- All tables draw keys from one sequence; PostgreSQL keeps a sequence per table.
- SessionRoutes.InsertSession: on the rollback path it states only that `nextId` grew, because the
  number of keys drawn before the failing entry is not part of the contract.
- `models.py` has no `Exercise.type` column (it exists only through a migration, which is not part
  of this model). The edit form's type therefore starts at its default. No handler stores a type.
- `remember_me` only sets the lifetime of the login cookie, so it is not modelled.
- `DeleteTrainer` is modelled as a function with its consistency lemma. No route deletes a trainer.
- `dt_no_seconds` is modelled with its default format only. The model always pads the year to four
  digits (`Pad4`), while `strftime`'s `%Y` does not pad years below 1000 on every platform.
- `app/routes/sessions.py:15` imports `AddSessionHelperForm`, but the forms package exports
  `SessionExercisesHelperForm` (`app/forms/sessions.py:123-128`). The model uses the latter's
  rows.
- `app/routes/exercises.py:8` imports `EditExerciseForm`, which the forms package does not
  export. The model uses the form as defined in `app/forms/exercises.py`.
- The legacy `forms.py`, `routes.py` and `app.py` at the repository root are not modelled. Neither
  are the app factory and config, the static `robots.txt` route, or the Alembic migrations.
