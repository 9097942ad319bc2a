/** AddClientForm: the form for adding a client and for editing one. */
module ClientForms {
  import opened Wrappers
  import Text
  import opened Validators

  const NameMin: nat := 3
  const NameMax: nat := 100
  const ContactMax: nat := 100
  const NotesMax: nat := 4096
  /** "archive" is a status of the table but not a choice of the form. */
  const StatusChoices: set<string> := {"active", "pause"}
  const StatusDefault: string := "active"

  /** The submitted values (None: the key was absent). */
  datatype ClientInput = ClientInput(
    name: Option<string>, price: Option<string>, status: Option<string>,
    contact: Option<string>, notes: Option<string>)

  datatype ClientData = ClientData(
    name: Option<string>, price: Option<int>, status: Option<string>,
    contact: Option<string>, notes: Option<string>)

  /** What the add form starts from: no values, status "active". */
  const Blank: ClientData := ClientData(None, None, Some(StatusDefault), None, None)

  /**
   * Processing a submission over the values the form was built with (`Blank`
   * for the add page, the stored client for the detail page): a key absent
   * from the submission keeps that value.
   */
  function ProcessClient(inp: ClientInput, base: ClientData): ClientData {
    ClientData(
      if inp.name.None? then base.name else inp.name,
      IntegerData(inp.price, base.price),
      SelectData(inp.status, base.status),
      if inp.contact.None? then base.contact else inp.contact,
      if inp.notes.None? then base.notes else inp.notes)
  }

  predicate ClientValid(d: ClientData) {
    && TextRequired(d.name) && LengthWithin(d.name, NameMin, NameMax)
    && NumberRequired(d.price) && NumberAtLeast(d.price, 1)
    && IsChoice(d.status, StatusChoices) && TextRequired(d.status)
    && LengthAtMost(d.contact, ContactMax)
    && LengthAtMost(d.notes, NotesMax)
  }

  /**
   * A valid client form has a non-blank name of 3 to 100 characters (measured
   * before stripping), a price of at least 1, status active or pause, a contact
   * of at most 100 and notes of at most 4096 characters.
   */
  lemma ClientValidMeaning(d: ClientData)
    ensures ClientValid(d) <==>
      && d.name.Some? && !Text.AllSpace(d.name.value) && 3 <= |d.name.value| <= 100
      && d.price.Some? && d.price.value >= 1
      && (d.status == Some("active") || d.status == Some("pause"))
      && DataLength(d.contact) <= 100
      && DataLength(d.notes) <= 4096
  {
    assert "active"[0] == 'a' && "pause"[0] == 'p' && !Text.IsSpace('a') && !Text.IsSpace('p');
  }

  /** Without a status in the submission the client is active. */
  lemma AbsentStatusIsActive(inp: ClientInput)
    requires inp.status.None?
    ensures ProcessClient(inp, Blank).status == Some("active")
  {
  }

  /** The form never offers "archive". */
  lemma ArchiveNotAChoice(d: ClientData)
    requires d.status == Some("archive")
    ensures !ClientValid(d)
  {
  }
}
