/**
 The contact form: three text fields, the validator run on submit, and the
 three things that change the form's state — editing a field, submitting,
 and the timeout that resets the form after a successful submission.
 */
module ContactForm {
  import opened Text
  import opened EmailPattern
  import opened Wrappers

  /** The `name` attribute of one of the form's three inputs. */
  datatype Field = Name | Email | Message

  /** The `formData` record: the current value of each input. */
  datatype FormData = FormData(name: string, email: string, message: string)

  /** `formData[f]`. */
  function Value(form: FormData, f: Field): string {
    match f
    case Name => form.name
    case Email => form.email
    case Message => form.message
  }

  /** `{ ...form, [f]: v }`: field `f` becomes `v`, the others keep their values. */
  function WithField(form: FormData, f: Field, v: string): (r: FormData)
    ensures Value(r, f) == v
    ensures forall g :: g != f ==> Value(r, g) == Value(form, g)
  {
    match f
    case Name => form.(name := v)
    case Email => form.(email := v)
    case Message => form.(message := v)
  }

  const EmptyForm := FormData("", "", "")

  /** The `errors` object: a message per field; a missing key means no message. */
  type Errors = map<Field, string>

  const NameRequired := "Name is required"
  const EmailRequired := "Email is required"
  const EmailInvalid := "Email is invalid"
  const MessageRequired := "Message is required"

  /**
   What a successful validation needs: a name and a message that are not
   all white space, and an email in which some substring matches the pattern
   (such an email is never all white space).
   */
  ghost predicate Acceptable(form: FormData) {
    !AllWs(form.name) && !AllWs(form.message) && !AllWs(form.email) && PatternFound(form.email)
  }

  /** The message for a required field, if its value is blank after trimming. */
  function RequiredError(s: string, msg: string): (r: Option<string>)
    ensures r.Some? <==> AllWs(s)
    ensures r.Some? ==> r.value == msg
  {
    if Blank(s) then Some(msg) else None
  }

  /**
   The message for the email field: required when blank after trimming,
   otherwise invalid when no substring of the untrimmed value matches.
   */
  function EmailError(s: string): (r: Option<string>)
    ensures AllWs(s) ==> r == Some(EmailRequired)
    ensures !AllWs(s) ==> (r.Some? <==> !PatternFound(s))
    ensures !AllWs(s) && r.Some? ==> r.value == EmailInvalid
  {
    LooksLikeEmailIffFound(s);
    if Blank(s) then Some(EmailRequired)
    else if !LooksLikeEmail(s) then Some(EmailInvalid)
    else None
  }

  /** The error object holding a key exactly for each field that has a message. */
  function Collect(name: Option<string>, email: Option<string>, message: Option<string>): (errs: Errors)
    ensures Name in errs <==> name.Some?
    ensures Name in errs ==> errs[Name] == name.value
    ensures Email in errs <==> email.Some?
    ensures Email in errs ==> errs[Email] == email.value
    ensures Message in errs <==> message.Some?
    ensures Message in errs ==> errs[Message] == message.value
    ensures errs == map[] <==> name.None? && email.None? && message.None?
  {
    var e1: Errors := if name.Some? then map[Name := name.value] else map[];
    var e2 := if email.Some? then e1[Email := email.value] else e1;
    var e3 := if message.Some? then e2[Message := message.value] else e2;
    assert name.None? && email.None? && message.None? ==> e3 == map[] by {
      if name.None? && email.None? && message.None? {
        assert forall f :: f !in e3;
      }
    }
    e3
  }

  /**
   `validateForm`. The name and message are required after trimming; the
   email is required after trimming and otherwise tested, untrimmed,
   against the pattern. Only failing fields get a key.
   */
  function Validate(form: FormData): (errs: Errors)
    ensures Name in errs <==> AllWs(form.name)
    ensures Name in errs ==> errs[Name] == NameRequired
    ensures AllWs(form.email) ==> Email in errs && errs[Email] == EmailRequired
    ensures !AllWs(form.email) ==> (Email in errs <==> !PatternFound(form.email))
    ensures !AllWs(form.email) && Email in errs ==> errs[Email] == EmailInvalid
    ensures Message in errs <==> AllWs(form.message)
    ensures Message in errs ==> errs[Message] == MessageRequired
  {
    Collect(
      RequiredError(form.name, NameRequired),
      EmailError(form.email),
      RequiredError(form.message, MessageRequired))
  }

  /**
   The validator returns no errors, so that submission goes ahead, exactly
   when name and message are not blank and the email matches.
   */
  lemma ValidateEmptyIffAcceptable(form: FormData)
    ensures Validate(form) == map[] <==> Acceptable(form)
  {
    var errs := Validate(form);
    if !(Name in errs || Email in errs || Message in errs) {
      assert forall f :: f !in errs;
    }
  }

  /**
   Every message the validator stores is a non-empty string, so the
   `errors[name]` test of the edit handler sees it as present.
   */
  lemma ValidateMessagesNonEmpty(form: FormData)
    ensures forall f :: f in Validate(form) ==> Validate(form)[f] != ""
  {
    var errs := Validate(form);
    forall f | f in errs ensures |errs[f]| > 0 {
      match f
      case Name => assert errs[f] == NameRequired;
      case Email => assert errs[f] == EmailRequired || errs[f] == EmailInvalid;
      case Message => assert errs[f] == MessageRequired;
    }
  }

  /** A plain address, "a@b.com", matches the pattern. */
  lemma SampleAddressMatches()
    ensures PatternFound("a@b.com")
  {
    assert MatchesAt("a@b.com", 0, 1, 3, 5);
  }

  /** An address surrounded by other text still matches: the test is unanchored. */
  lemma EmbeddedAddressMatches()
    ensures PatternFound("mail me: a@b.c!")
  {
    assert MatchesAt("mail me: a@b.c!", 9, 10, 12, 14);
  }

  /** A blank name is the only thing wrong with this form. */
  lemma ExampleMissingName(form: FormData)
    requires form == FormData("", "a@b.com", "hi")
    ensures var e := Validate(form);
      Name in e && e[Name] == NameRequired && Email !in e && Message !in e
  {
    assert !IsWs(form.message[0]) && !IsWs(form.email[0]);
    SampleAddressMatches();
  }

  /** An email without an '@' is reported as invalid, not as missing. */
  lemma ExampleInvalidEmail(form: FormData)
    requires form == FormData("A", "not-an-email", "hi")
    ensures var e := Validate(form);
      Name !in e && Email in e && e[Email] == EmailInvalid && Message !in e
  {
    assert !IsWs(form.name[0]) && !IsWs(form.message[0]) && !IsWs(form.email[0]);
    NoAtNoMatch(form.email);
  }

  /** A complete form yields no errors, so submission goes ahead. */
  lemma ExampleValid(form: FormData)
    requires form == FormData("A", "a@b.com", "hi")
    ensures Validate(form) == map[]
  {
    assert !IsWs(form.name[0]) && !IsWs(form.message[0]) && !IsWs(form.email[0]);
    SampleAddressMatches();
    ValidateEmptyIffAcceptable(form);
  }

  /** The test is unanchored: an address inside other text is accepted. */
  lemma ExampleEmbeddedEmail(form: FormData)
    requires form == FormData("A", "mail me: a@b.c!", "hi")
    ensures Validate(form) == map[]
  {
    assert !IsWs(form.name[0]) && !IsWs(form.message[0]) && !IsWs(form.email[0]);
    EmbeddedAddressMatches();
    ValidateEmptyIffAcceptable(form);
  }

  /**
   The component's state. `pendingResets` counts the reset timeouts that
   successful submissions have scheduled and that have not fired yet; the
   code never cancels one.
   */
  datatype Contact = Contact(form: FormData, errors: Errors, submitted: bool, pendingResets: nat)

  const Initial := Contact(EmptyForm, map[], false, 0)

  /**
   `handleChange`: the edited field takes the new value; when that field
   has a non-empty message, the message is overwritten with "" (the key
   stays). Nothing else changes.
   */
  function HandleChange(st: Contact, f: Field, v: string): (r: Contact)
    ensures Value(r.form, f) == v
    ensures forall g :: g != f ==> Value(r.form, g) == Value(st.form, g)
    ensures r.errors.Keys == st.errors.Keys
    ensures f in st.errors ==> r.errors[f] == ""
    ensures forall g :: g in st.errors && g != f ==> r.errors[g] == st.errors[g]
    ensures r.submitted == st.submitted && r.pendingResets == st.pendingResets
  {
    var errors := if f in st.errors && st.errors[f] != "" then st.errors[f := ""] else st.errors;
    st.(form := WithField(st.form, f, v), errors := errors)
  }

  /**
   `handleSubmit`. An acceptable form shows the success notice and schedules
   one reset, leaving the values and the stored errors as they are;
   otherwise the stored errors become exactly the validator's result.
   The entered values are never changed here.
   */
  function HandleSubmit(st: Contact): (r: Contact)
    ensures r.form == st.form
    ensures Acceptable(st.form) ==>
      r.submitted && r.errors == st.errors && r.pendingResets == st.pendingResets + 1
    ensures !Acceptable(st.form) ==>
      && r.errors == Validate(st.form) && r.errors != map[]
      && r.submitted == st.submitted && r.pendingResets == st.pendingResets
  {
    var errs := Validate(st.form);
    ValidateEmptyIffAcceptable(st.form);
    if |errs| == 0 then
      st.(submitted := true, pendingResets := st.pendingResets + 1)
    else
      st.(errors := errs)
  }

  /**
   The timeout callback scheduled by a successful submit: all three values
   become "" and the notice is hidden; the stored errors are left alone.
   With no timeout pending there is nothing to fire.
   */
  function FireReset(st: Contact): (r: Contact)
    ensures st.pendingResets > 0 ==>
      && r.form == EmptyForm && !r.submitted && r.errors == st.errors
      && r.pendingResets == st.pendingResets - 1
    ensures st.pendingResets == 0 ==> r == st
  {
    if st.pendingResets == 0 then st
    else Contact(EmptyForm, st.errors, false, st.pendingResets - 1)
  }

  datatype Event = Change(field: Field, value: string) | Submit | ResetFired

  function Step(st: Contact, ev: Event): Contact {
    match ev
    case Change(f, v) => HandleChange(st, f, v)
    case Submit => HandleSubmit(st)
    case ResetFired => FireReset(st)
  }

  /** The state after the events `evs`, in order, starting from `st`. */
  function Run(st: Contact, evs: seq<Event>): Contact
    decreases |evs|
  {
    if |evs| == 0 then st else Run(Step(st, evs[0]), evs[1..])
  }

  /**
   What holds in every reachable state: a stored message that is not ""
   belongs to a field that currently fails validation, and the success
   notice is shown only while a reset is pending.
   */
  ghost predicate Consistent(st: Contact) {
    && (forall f :: f in st.errors && st.errors[f] != "" ==> f in Validate(st.form))
    && (st.submitted ==> st.pendingResets > 0)
  }

  lemma InitialConsistent()
    ensures Consistent(Initial)
  {
  }

  /** Every event keeps the state consistent. */
  lemma StepConsistent(st: Contact, ev: Event)
    requires Consistent(st)
    ensures Consistent(Step(st, ev))
  {
    match ev
    case Change(f, v) => ChangeConsistent(st, f, v);
    case Submit =>
    case ResetFired => ResetConsistent(st);
  }

  /**
   Editing keeps the state consistent: the edited field's message becomes ""
   and every other field keeps both its value and its message.
   */
  lemma ChangeConsistent(st: Contact, f: Field, v: string)
    requires Consistent(st)
    ensures Consistent(HandleChange(st, f, v))
  {
    var r := HandleChange(st, f, v);
    forall g | g in r.errors && r.errors[g] != "" ensures g in Validate(r.form) {
      FieldVerdictLocal(st.form, r.form, g);
    }
  }

  /** The reset keeps the state consistent: every field of the empty form fails validation. */
  lemma ResetConsistent(st: Contact)
    requires Consistent(st)
    ensures Consistent(FireReset(st))
  {
    EmptyFormFailsEverywhere();
  }

  /** Each field of the reset form is blank, so each one fails validation. */
  lemma EmptyFormFailsEverywhere()
    ensures forall f :: f in Validate(EmptyForm)
  {
    var v := Validate(EmptyForm);
    forall f ensures f in v {
      match f
      case Name => assert AllWs(EmptyForm.name);
      case Email => assert AllWs(EmptyForm.email);
      case Message => assert AllWs(EmptyForm.message);
    }
  }

  /** Whether a field fails validation depends on that field's value alone. */
  lemma FieldVerdictLocal(a: FormData, b: FormData, g: Field)
    requires Value(a, g) == Value(b, g)
    ensures g in Validate(a) <==> g in Validate(b)
  {
    match g
    case Name => assert a.name == b.name;
    case Email => assert a.email == b.email;
    case Message => assert a.message == b.message;
  }

  /** Every state reached from a consistent one is consistent. */
  lemma {:induction false} RunConsistent(st: Contact, evs: seq<Event>)
    requires Consistent(st)
    ensures Consistent(Run(st, evs))
    decreases |evs|
  {
    if |evs| > 0 {
      StepConsistent(st, evs[0]);
      RunConsistent(Step(st, evs[0]), evs[1..]);
    }
  }

  /**
   In every reachable state, a submission that succeeds shows the success
   notice with no error text beside it: each stored message is "".
   */
  lemma AcceptedSubmitShowsNoErrors(evs: seq<Event>)
    ensures var st := Run(Initial, evs);
      Acceptable(st.form) ==>
        var r := HandleSubmit(st);
        r.submitted && forall f :: f in r.errors ==> r.errors[f] == ""
  {
    RunConsistent(Initial, evs);
  }

  /**
   Two successful submits schedule two resets; the first one to fire hides
   the success notice although the second is still pending.
   */
  lemma FirstResetHidesLaterNotice(st: Contact)
    requires Acceptable(st.form)
    ensures var r := FireReset(HandleSubmit(HandleSubmit(st)));
      !r.submitted && r.pendingResets == st.pendingResets + 1
  {
  }

  /**
   The success notice and an error text can show together: after a
   successful submit, blanking the name and submitting again before the
   reset fires stores "Name is required" while the notice stays up.
   */
  lemma NoticeWithErrors(st: Contact, blank: string)
    requires Acceptable(st.form)
    requires AllWs(blank)
    ensures var r := HandleSubmit(HandleChange(HandleSubmit(st), Name, blank));
      r.submitted && Name in r.errors && r.errors[Name] == NameRequired
  {
    var s1 := HandleChange(HandleSubmit(st), Name, blank);
    assert s1.form.name == blank;
  }
}
