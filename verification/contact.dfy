/** src/components/sections/ContactSection.tsx: the contact form's field rules and its
    submit handler. The `email()` check of the schema and the Formspree request are
    external; they enter as `emailOk` and as the outcome of the send. */
module Contact {
  import opened Text

  datatype Form = Form(firstName: string, lastName: string, email: string,
                       subject: string, message: string, honeypot: string)

  /** The form's default values, which `form.reset()` restores. */
  const EmptyForm: Form := Form("", "", "", "", "", "")

  datatype Field = FirstName | LastName | Email | Subject | Message

  /** `min(2)` and `/^[a-zA-Z]+$/`. */
  predicate NameOk(s: string) {
    |s| >= 2 && forall i :: 0 <= i < |s| ==> IsAsciiLetter(s[i])
  }

  /** `min(3)` and `/^[a-zA-Z\s]+$/`. */
  predicate SubjectOk(s: string) {
    |s| >= 3 && forall i :: 0 <= i < |s| ==> IsAsciiLetter(s[i]) || IsSpace(s[i])
  }

  /** `min(10)`. */
  predicate MessageOk(s: string) {
    |s| >= 10
  }

  predicate FieldOk(f: Form, emailOk: bool, field: Field) {
    match field
    case FirstName => NameOk(f.firstName)
    case LastName => NameOk(f.lastName)
    case Email => emailOk
    case Subject => SubjectOk(f.subject)
    case Message => MessageOk(f.message)
  }

  /** The fields the schema rejects, in form order. */
  function Errors(f: Form, emailOk: bool): (r: seq<Field>)
    ensures forall field :: field in r <==> !FieldOk(f, emailOk, field)
    ensures |r| <= 5
  {
    (if NameOk(f.firstName) then [] else [FirstName]) +
    (if NameOk(f.lastName) then [] else [LastName]) +
    (if emailOk then [] else [Email]) +
    (if SubjectOk(f.subject) then [] else [Subject]) +
    (if MessageOk(f.message) then [] else [Message])
  }

  /** Concrete readings of the rules: two letters make a name, one letter or a digit or an
      apostrophe do not; a subject may contain spaces; nine characters are too short a
      message. */
  lemma RuleExamples()
    ensures NameOk("Jo") && !NameOk("J") && !NameOk("Jo3") && !NameOk("O'Brien")
    ensures SubjectOk("Hi there") && !SubjectOk("Hi") && !SubjectOk("Q&A")
    ensures MessageOk("0123456789") && !MessageOk("012345678")
  {
    assert !IsAsciiLetter("Jo3"[2]);
    assert !IsAsciiLetter("O'Brien"[1]);
    assert !IsAsciiLetter("Q&A"[1]) && !IsSpace("Q&A"[1]);
  }

  /** The outcome of the POST: an ok response, another response, or a thrown error. */
  datatype Send = SendOk | SendNotOk | SendThrew

  datatype Toast = NoToast | MessageSent | FailedToSend | SomethingWentWrong

  /** The form after submitting, whether a request went out, and the toast shown. */
  datatype Submitted = Submitted(form: Form, requested: bool, toast: Toast)

  /** Submitting: an invalid form never reaches `onSubmit`; a filled honeypot returns before
      any request; otherwise the form is cleared only on an ok response. */
  function Submit(f: Form, emailOk: bool, send: Send): (r: Submitted)
    ensures r.requested <==> Errors(f, emailOk) == [] && f.honeypot == ""
    ensures r.requested && send == SendOk ==> r.form == EmptyForm
    ensures !(r.requested && send == SendOk) ==> r.form == f
    ensures r.toast == NoToast <==> !r.requested
  {
    if Errors(f, emailOk) != [] then
      assert !NameOk(f.firstName) || !NameOk(f.lastName) || !emailOk || !SubjectOk(f.subject) || !MessageOk(f.message);
      Submitted(f, false, NoToast)
    else if f.honeypot != "" then Submitted(f, false, NoToast)
    else
      match send
      case SendOk => Submitted(EmptyForm, true, MessageSent)
      case SendNotOk => Submitted(f, true, FailedToSend)
      case SendThrew => Submitted(f, true, SomethingWentWrong)
  }

  /** A bot that fills the hidden field never triggers a request, whatever else it sends. */
  lemma HoneypotBlocksSending(f: Form, emailOk: bool, send: Send)
    requires f.honeypot != ""
    ensures !Submit(f, emailOk, send).requested && Submit(f, emailOk, send).form == f
  {
  }

  /** A successful send resets all six fields to the empty string; a failed one keeps them. */
  lemma SendOutcomeDecidesReset(f: Form, emailOk: bool)
    requires Errors(f, emailOk) == [] && f.honeypot == ""
    ensures var r := Submit(f, emailOk, SendOk);
      r.form.firstName == "" && r.form.lastName == "" && r.form.email == "" &&
      r.form.subject == "" && r.form.message == "" && r.form.honeypot == ""
    ensures Submit(f, emailOk, SendNotOk).form == f && Submit(f, emailOk, SendThrew).form == f
  {
  }
}
