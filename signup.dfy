/**
 * Signing up: a new chat is asked, one message at a time, for the full name, the e-mail, the
 * phone and the position, each checked before the next is asked for.
 */
module Signup {
  import opened Wrappers
  import opened Strings
  import opened Records

  /** The position keyboard: each button and the position stored for it. */
  const PositionButtons: map<string, string> := map[
    "👨‍💻 Стажер" := "Стажер",
    "👨‍💻 Junior разработчик" := "Junior разработчик",
    "👨‍💻 Middle разработчик" := "Middle разработчик",
    "👨‍💻 Senior разработчик" := "Senior разработчик",
    "👨‍💻 Team Lead" := "Team Lead",
    "👨‍💼 Менеджер проектов" := "Менеджер проектов",
    "👨‍💼 Руководитель отдела" := "Руководитель отдела",
    "👨‍💼 Директор" := "Директор"]

  /** A full name is accepted once stripped to at least two characters. */
  predicate ValidFullName(name: string)
  {
    |Strip(name)| >= 2
  }

  /** An e-mail is accepted once stripped when it contains both '@' and '.'. */
  predicate ValidEmail(email: string)
  {
    '@' in Strip(email) && '.' in Strip(email)
  }

  /** Where the form stands and what it holds; after a position is chosen the form waits for confirmation. */
  datatype Form =
    | Closed
    | AskFullName
    | AskEmail(fullName: string)
    | AskPhone(fullName: string, email: string)
    | AskPosition(fullName: string, email: string, phone: string, position: Option<string>)

  /** What the bot answers. */
  datatype Answer = Cancelled | Crashed | Retry | Next | Summary(fullName: string, email: string, phone: string, position: string)

  /** The form's answer to one message and its new state. */
  datatype Step = Step(answer: Answer, form: Form)

  /**
   * `process_full_name`, `process_email`, `process_phone` and `process_position`: the cancel
   * button closes the form at the first three steps; a message without text raises at those
   * steps on `.strip()`; a value that fails its check asks again; the position step asks
   * again for anything that is not one of its buttons, the cancel button included, and stays
   * where it is after a valid choice, waiting for the confirmation buttons.
   */
  function Advance(form: Form, text: Option<string>): (r: Step)
    requires !form.Closed?
    ensures !form.AskPosition? && text == Some(CancelButton) ==> r == Step(Cancelled, Closed)
    ensures !form.AskPosition? && text.None? ==> r == Step(Crashed, form)
    ensures r.answer == Retry ==> r.form == form
    ensures form.AskFullName? && text.Some? && text.value != CancelButton ==>
              r == if ValidFullName(text.value) then Step(Next, AskEmail(Strip(text.value))) else Step(Retry, form)
    ensures form.AskEmail? && text.Some? && text.value != CancelButton ==>
              r == if ValidEmail(text.value) then Step(Next, AskPhone(form.fullName, Strip(text.value))) else Step(Retry, form)
    ensures form.AskPhone? && text.Some? && text.value != CancelButton ==>
              r == Step(Next, AskPosition(form.fullName, form.email, Strip(text.value), None))
    ensures form.AskPosition? ==>
              r == if text.Some? && text.value in PositionButtons then
                     var p := PositionButtons[text.value];
                     Step(Summary(form.fullName, form.email, form.phone, p), form.(position := Some(p)))
                   else Step(Retry, form)
  {
    if form.AskPosition? then
      if text.Some? && text.value in PositionButtons then
        var p := PositionButtons[text.value];
        Step(Summary(form.fullName, form.email, form.phone, p), form.(position := Some(p)))
      else Step(Retry, form)
    else if text == Some(CancelButton) then Step(Cancelled, Closed)
    else if text.None? then Step(Crashed, form)
    else
      var value := Strip(text.value);
      if form.AskFullName? then
        if |value| >= 2 then Step(Next, AskEmail(value)) else Step(Retry, form)
      else if form.AskEmail? then
        if '@' in value && '.' in value then Step(Next, AskPhone(form.fullName, value)) else Step(Retry, form)
      else Step(Next, AskPosition(form.fullName, form.email, value, None))
  }

  /** Whatever the form holds has passed its check and is stored stripped. */
  predicate Checked(form: Form)
  {
    match form
    case Closed => true
    case AskFullName => true
    case AskEmail(name) => |name| >= 2 && Unpadded(name)
    case AskPhone(name, email) => |name| >= 2 && Unpadded(name) && '@' in email && '.' in email && Unpadded(email)
    case AskPosition(name, email, phone, p) =>
      && |name| >= 2 && Unpadded(name) && '@' in email && '.' in email && Unpadded(email) && Unpadded(phone)
      && (p.Some? ==> p.value in PositionButtons.Values)
  }

  /** Every step keeps the form's contents checked. */
  lemma AdvanceKeepsChecked(form: Form, text: Option<string>)
    requires !form.Closed? && Checked(form)
    ensures Checked(Advance(form, text).form)
  {
  }

  /** A stored value passes its own check again: stripping it once more changes nothing. */
  lemma StoredValuesRecheck(form: Form)
    requires Checked(form)
    ensures form.AskEmail? ==> ValidFullName(form.fullName) && Strip(form.fullName) == form.fullName
    ensures form.AskPhone? ==> ValidEmail(form.email) && Strip(form.email) == form.email
  {
    if form.AskEmail? {
      StripUnpadded(form.fullName);
    }
    if form.AskPhone? {
      StripUnpadded(form.email);
    }
  }

  /** Four good answers fill the form in order and show the summary of the stripped values. */
  lemma FillsInOrder(name: string, email: string, phone: string, button: string)
    requires name != CancelButton && email != CancelButton && phone != CancelButton
    requires ValidFullName(name) && ValidEmail(email) && button in PositionButtons
    ensures var s1 := Advance(AskFullName, Some(name)).form;
      var s2 := Advance(s1, Some(email)).form;
      var s3 := Advance(s2, Some(phone)).form;
      Advance(s3, Some(button)).answer == Summary(Strip(name), Strip(email), Strip(phone), PositionButtons[button])
  {
  }

  /** The cancel button closes the form at the first three steps, and is only a wrong answer at the fourth. */
  lemma CancelClosesEarlySteps(form: Form)
    requires !form.Closed?
    ensures !form.AskPosition? ==> Advance(form, Some(CancelButton)).form == Closed
    ensures form.AskPosition? ==> Advance(form, Some(CancelButton)) == Step(Retry, form)
  {
  }
}
