/** RegisterForm and LoginForm. */
module UserForms {
  import opened Wrappers
  import Text
  import opened Validators

  const UsernameMin: nat := 3
  const UsernameMax: nat := 25
  const EmailMax: nat := 120
  const PasswordMin: nat := 8
  const PasswordMax: nat := 1024

  /** A character of the class `[A-Za-z0-9._-]`. */
  predicate UsernameChar(c: char) {
    ('A' <= c <= 'Z') || ('a' <= c <= 'z') || ('0' <= c <= '9') || c == '.' || c == '_' || c == '-'
  }

  predicate UsernameChars(s: string) {
    s != [] && forall i :: 0 <= i < |s| ==> UsernameChar(s[i])
  }

  /**
   * `re.match('^[A-Za-z0-9._-]+$', s)`.  Python's `$` also matches just before a
   * newline that ends the string, so one trailing "\n" is let through.
   */
  predicate UsernamePattern(s: string) {
    || UsernameChars(s)
    || (|s| >= 2 && s[|s| - 1] == '\n' && UsernameChars(s[..|s| - 1]))
  }

  /**
   * The submitted values.  `emailSyntaxOk` is the verdict of the `Email()`
   * validator, which delegates to the email_validator library.
   */
  datatype RegisterInput = RegisterInput(
    username: Option<string>, email: Option<string>,
    password: Option<string>, password2: Option<string>,
    emailSyntaxOk: bool)

  predicate RegisterValid(f: RegisterInput) {
    && TextRequired(f.username) && LengthWithin(f.username, UsernameMin, UsernameMax)
    && UsernamePattern(f.username.GetOr(""))
    && TextRequired(f.email) && LengthAtMost(f.email, EmailMax) && f.emailSyntaxOk
    && TextRequired(f.password) && LengthWithin(f.password, PasswordMin, PasswordMax)
    && TextRequired(f.password2) && LengthAtMost(f.password2, PasswordMax)
    && EqualTo(f.password2, f.password)
  }

  datatype LoginInput = LoginInput(
    email: Option<string>, password: Option<string>, rememberMe: bool,
    emailSyntaxOk: bool)

  predicate LoginValid(f: LoginInput) {
    && TextRequired(f.email) && LengthAtMost(f.email, EmailMax) && f.emailSyntaxOk
    && TextRequired(f.password) && LengthAtMost(f.password, PasswordMax)
  }

  lemma UsernameCharNotSpace(c: char)
    requires UsernameChar(c)
    ensures !Text.IsSpace(c)
  {
  }

  /**
   * A registration is valid exactly when the username is 3 to 25 characters
   * matching the pattern, the email is present, not blank, at most 120
   * characters and accepted by `Email()`, and the password is 8 to 1024
   * characters, not blank, and repeated exactly by the confirmation.
   */
  lemma RegisterValidMeaning(f: RegisterInput)
    ensures RegisterValid(f) <==>
      && f.username.Some? && UsernameMin <= |f.username.value| <= UsernameMax && UsernamePattern(f.username.value)
      && f.email.Some? && !Text.AllSpace(f.email.value) && |f.email.value| <= EmailMax && f.emailSyntaxOk
      && f.password.Some? && !Text.AllSpace(f.password.value) && PasswordMin <= |f.password.value| <= PasswordMax
      && f.password2 == f.password
  {
    if f.username.Some? && UsernamePattern(f.username.value) {
      var u := f.username.value;
      UsernameCharNotSpace(u[0]);
      assert !Text.AllSpace(u);
    }
  }

  /**
   * A login is valid exactly when the email is present, not blank, at most 120
   * characters and accepted by `Email()`, and the password is present, not
   * blank and at most 1024 characters.  `remember_me` plays no part.
   */
  lemma LoginValidMeaning(f: LoginInput)
    ensures LoginValid(f) <==>
      && f.email.Some? && !Text.AllSpace(f.email.value) && |f.email.value| <= EmailMax && f.emailSyntaxOk
      && f.password.Some? && !Text.AllSpace(f.password.value) && |f.password.value| <= PasswordMax
  {
  }

  /**
   * A valid registration has a username whose stripped form is 2 to 25
   * characters of `[A-Za-z0-9._-]`, and a password of 8 to 1024 characters that
   * the confirmation repeats exactly.
   */
  lemma RegisterUsernameStripped(f: RegisterInput)
    requires RegisterValid(f)
    ensures var u := Text.Strip(f.username.value);
      UsernameChars(u) && 2 <= |u| <= 25 && (u == f.username.value || u + "\n" == f.username.value)
    ensures f.password.Some? && 8 <= |f.password.value| <= 1024 && f.password2 == f.password
  {
    var s := f.username.value;
    if UsernameChars(s) {
      UsernameCharNotSpace(s[0]);
      UsernameCharNotSpace(s[|s| - 1]);
      Text.StripLeftNoLead(s);
      Text.StripRightNoTrail(s);
    } else {
      var t := s[..|s| - 1];
      UsernameCharNotSpace(t[0]);
      UsernameCharNotSpace(t[|t| - 1]);
      assert s == t + "\n";
      assert Text.AllSpace("\n");
      Text.StripPadded([], t, "\n");
      assert [] + t + "\n" == s;
      Text.StripLeftNoLead(t);
      Text.StripRightNoTrail(t);
    }
  }

  /** The pattern lets a username through that ends in a newline. */
  lemma TrailingNewlineAccepted()
    ensures UsernamePattern("abc\n")
  {
    assert "abc\n"[..3] == "abc";
  }
}
