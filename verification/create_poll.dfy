/**
 * The Create Poll modal of components/CreatePoll.tsx as a state machine:
 * the five form fields, the upload flag, and the modal's CSS class, with
 * one transition per handler.
 *
 * `handleSubmit` writes the two dates back into the form state as numbers
 * (`poll.startsAt = new Date(poll.startsAt).getTime()`) before it sends the
 * form to the contract, so from then on a date field holds a Number, not
 * the text the user typed. `FieldValue` keeps the two apart.
 */
module CreatePoll {
  import opened Wrappers
  import opened Calendar
  import opened Forms

  /** A Number that `Date.prototype.getTime` can return: NaN or a whole number of milliseconds. */
  datatype TimeValue = NaN | Time(ms: int)

  /** What a form field holds: the text of its input, or a Number stored by a submission. */
  datatype FieldValue = Str(s: string) | Num(n: TimeValue)

  /** `PollParams`: the fields the form collects. */
  datatype PollParams = PollParams(
    image: string, title: string, description: string,
    startsAt: FieldValue, endsAt: FieldValue)

  /** The `name` of an input: the field `handleChange` writes. */
  datatype Field = Image | Title | Description | StartsAt | EndsAt

  /** The component's state, and the `createModal` class it is shown with. */
  datatype Form = Form(poll: PollParams, isLoading: bool, modal: string)

  const PollCreated: string := "Poll created successfully 👌"

  /** The form as it starts and as `closeModal` leaves it. */
  const EmptyPoll: PollParams := PollParams("", "", "", Str(""), Str(""))

  /** The value field `f` holds. */
  function Value(p: PollParams, f: Field): FieldValue {
    match f
    case Image => Str(p.image)
    case Title => Str(p.title)
    case Description => Str(p.description)
    case StartsAt => p.startsAt
    case EndsAt => p.endsAt
  }

  /** JavaScript truthiness: the empty string, NaN and 0 are falsy. */
  predicate Truthy(v: FieldValue) {
    match v
    case Str(s) => s != ""
    case Num(NaN) => false
    case Num(Time(ms)) => ms != 0
  }

  /** The first guard of `handleSubmit` lets the form through. */
  predicate Filled(p: PollParams) {
    && p.image != "" && p.title != "" && p.description != ""
    && Truthy(p.startsAt) && Truthy(p.endsAt)
  }

  /** Two parameter records are equal when every field holds the same value. */
  lemma ValuesDetermineParams(p: PollParams, q: PollParams)
    requires forall f :: Value(p, f) == Value(q, f)
    ensures p == q
  {
    assert Value(p, Image) == Value(q, Image);
    assert Value(p, Title) == Value(q, Title);
    assert Value(p, Description) == Value(q, Description);
    assert Value(p, StartsAt) == Value(q, StartsAt);
    assert Value(p, EndsAt) == Value(q, EndsAt);
  }

  /** `handleChange`: the input named `f` now holds `value`. */
  function HandleChange(form: Form, f: Field, value: string): (r: Form)
    ensures Value(r.poll, f) == Str(value)
    ensures forall g :: g != f ==> Value(r.poll, g) == Value(form.poll, g)
    ensures r.isLoading == form.isLoading && r.modal == form.modal
  {
    var p := form.poll;
    var p' := match f
      case Image => p.(image := value)
      case Title => p.(title := value)
      case Description => p.(description := value)
      case StartsAt => p.(startsAt := Str(value))
      case EndsAt => p.(endsAt := Str(value));
    form.(poll := p')
  }

  /** Writing a field twice keeps only the second value. */
  lemma ChangeOverwrites(form: Form, f: Field, v: string, w: string)
    ensures HandleChange(HandleChange(form, f, v), f, w) == HandleChange(form, f, w)
  {
    ValuesDetermineParams(HandleChange(HandleChange(form, f, v), f, w).poll, HandleChange(form, f, w).poll);
  }

  /** Writes to two different fields do not interfere. */
  lemma ChangesCommute(form: Form, f: Field, g: Field, v: string, w: string)
    requires f != g
    ensures HandleChange(HandleChange(form, f, v), g, w) == HandleChange(HandleChange(form, g, w), f, v)
  {
    ValuesDetermineParams(HandleChange(HandleChange(form, f, v), g, w).poll,
                          HandleChange(HandleChange(form, g, w), f, v).poll);
  }

  /** Writing the text a field already holds changes nothing. */
  lemma ChangeToCurrentValue(form: Form, f: Field, v: string)
    requires Value(form.poll, f) == Str(v)
    ensures HandleChange(form, f, v) == form
  {
    ValuesDetermineParams(HandleChange(form, f, v).poll, form.poll);
  }

  /** The part of `handleImageUpload` before the `await`: a chosen file sets the upload flag. */
  function StartUpload(form: Form, hasFile: bool): (r: Form)
    ensures r.poll == form.poll && r.modal == form.modal
    ensures r.isLoading == (hasFile || form.isLoading)
    ensures !hasFile ==> r == form
  {
    if hasFile then form.(isLoading := true) else form
  }

  /**
   * The part of `handleImageUpload` after the `await`: the image of the
   * state at that moment is replaced after a success, the flag is cleared
   * in any case, and a toast reports the outcome.
   */
  function FinishUpload(form: Form, outcome: UploadOutcome): (r: Effect<Form>)
    ensures !r.state.isLoading && r.state.modal == form.modal
    ensures outcome.Uploaded? ==> Value(r.state.poll, Image) == Str(UploadedUrl(outcome.pinataUrl))
    ensures !outcome.Uploaded? ==> r.state.poll == form.poll
    ensures forall g :: g != Image ==> Value(r.state.poll, g) == Value(form.poll, g)
    ensures r.notice == Some(UploadNotice(outcome))
    ensures r.notice.value.Success? <==> outcome.Uploaded?
  {
    Effect(Form(form.poll.(image := ImageAfter(outcome, form.poll.image)), false, form.modal),
           Some(UploadNotice(outcome)))
  }

  /**
   * `handleImageUpload` when nothing else happens while the file uploads:
   * without a file nothing changes; with one the image follows the outcome
   * and the flag ends cleared.
   */
  function HandleImageUpload(form: Form, hasFile: bool, outcome: UploadOutcome): (r: Effect<Form>)
    ensures !hasFile ==> r.state == form && r.notice.None?
    ensures hasFile ==> !r.state.isLoading && r.state.modal == form.modal
    ensures hasFile && outcome.Uploaded? ==> r.state.poll.image == UploadedUrl(outcome.pinataUrl)
    ensures hasFile && !outcome.Uploaded? ==> r.state.poll == form.poll
    ensures forall g :: g != Image ==> Value(r.state.poll, g) == Value(form.poll, g)
    ensures hasFile ==> r.notice == Some(UploadNotice(outcome))
  {
    if !hasFile then Effect(form, None)
    else FinishUpload(StartUpload(form, true), outcome)
  }

  /**
   * The upload writes the image through a functional state update, so an
   * edit of another field made while the file uploads survives it.
   */
  lemma ChangeDuringUploadKept(form: Form, g: Field, v: string, outcome: UploadOutcome)
    requires g != Image
    ensures FinishUpload(HandleChange(StartUpload(form, true), g, v), outcome)
         == Effect(HandleChange(FinishUpload(StartUpload(form, true), outcome).state, g, v),
                   Some(UploadNotice(outcome)))
  {
    var left := FinishUpload(HandleChange(StartUpload(form, true), g, v), outcome).state;
    var right := HandleChange(FinishUpload(StartUpload(form, true), outcome).state, g, v);
    forall f
      ensures Value(left.poll, f) == Value(right.poll, f)
    {
      if f != Image && f != g {
        assert Value(left.poll, f) == Value(form.poll, f);
      }
    }
    ValuesDetermineParams(left.poll, right.poll);
  }

  /** `TimeClip`: a time value outside the range of section 21.4.1.1 of ECMA-262 becomes NaN. */
  function Clip(v: TimeValue): (r: TimeValue)
    ensures r.Time? ==> IsValidTime(r.ms) && r == v
    ensures v.Time? && IsValidTime(v.ms) ==> r == v
  {
    match v
    case NaN => NaN
    case Time(t) => if IsValidTime(t) then v else NaN
  }

  /**
   * `new Date(v).getTime()`: a string goes through the host's date parser
   * `parse` (local time zone and all), a Number is taken as it is; either
   * way the result is clipped.
   */
  function DateToTime(v: FieldValue, parse: string -> TimeValue): (r: TimeValue)
    ensures r.Time? ==> IsValidTime(r.ms)
    ensures v.Num? && v.n.Time? && IsValidTime(v.n.ms) ==> r == v.n
    ensures v.Num? && v.n.NaN? ==> r.NaN?
  {
    match v
    case Str(s) => Clip(parse(s))
    case Num(n) => Clip(n)
  }

  /** Converting a converted date again gives the same Number. */
  lemma DateToTimeIdempotent(v: FieldValue, parse: string -> TimeValue)
    ensures DateToTime(Num(DateToTime(v, parse)), parse) == DateToTime(v, parse)
  {
  }

  /** Lines 37-38 of `handleSubmit`: both dates replaced by their time values. */
  function ConvertDates(p: PollParams, parse: string -> TimeValue): (r: PollParams)
    ensures r.image == p.image && r.title == p.title && r.description == p.description
    ensures r.startsAt.Num? && r.endsAt.Num?
  {
    p.(startsAt := Num(DateToTime(p.startsAt, parse)), endsAt := Num(DateToTime(p.endsAt, parse)))
  }

  /**
   * `handleSubmit`: nothing without all five fields, a warning without a
   * wallet, otherwise the dates are converted in the form state and that
   * state is what `createPoll` is called with.
   */
  function Submit(form: Form, wallet: string, parse: string -> TimeValue): (r: Submission<Form, PollParams>)
    ensures r.Ignored? <==>
      (form.poll.image == "" || form.poll.title == "" || form.poll.description == ""
       || !Truthy(form.poll.startsAt) || !Truthy(form.poll.endsAt))
    ensures r.Warned? <==> Filled(form.poll) && wallet == ""
    ensures r.Warned? ==> r.notice == Warning(ConnectWalletFirst)
    ensures r.Sent? <==> Filled(form.poll) && wallet != ""
    ensures r.Sent? ==> r.call == r.state.poll
    ensures r.Sent? ==> r.state.isLoading == form.isLoading && r.state.modal == form.modal
    ensures r.Sent? ==> r.call.image == form.poll.image && r.call.title == form.poll.title
                        && r.call.description == form.poll.description
    ensures r.Sent? ==> r.call.startsAt == Num(DateToTime(form.poll.startsAt, parse))
                        && r.call.endsAt == Num(DateToTime(form.poll.endsAt, parse))
  {
    var converted := form.(poll := ConvertDates(form.poll, parse));
    Guarded(Filled(form.poll), wallet, converted, converted.poll)
  }

  /** `closeModal`: the modal hidden and every field emptied. */
  function CloseModal(form: Form): (r: Form)
    ensures forall f :: Value(r.poll, f) == Str("")
    ensures r.modal == ModalClosed
    ensures r.isLoading == form.isLoading
  {
    Form(EmptyPoll, form.isLoading, ModalClosed)
  }

  /** The end of the `createPoll` promise: it closes the modal only when it resolves. */
  function Settle(form: Form, tx: TxOutcome): (r: Effect<Form>)
    ensures tx == Rejected ==> r.state == form && r.notice == Some(Error(TransactionFailed))
    ensures tx == Resolved ==> r.state.modal == ModalClosed && !Filled(r.state.poll)
    ensures tx == Resolved ==> r.state.poll == EmptyPoll && r.state.isLoading == form.isLoading
    ensures tx == Resolved ==> r.notice == Some(Success(PollCreated))
  {
    match tx
    case Resolved => Effect(CloseModal(form), Some(Success(PollCreated)))
    case Rejected => Effect(form, Some(Error(TransactionFailed)))
  }

  /** The form after a whole submission: the guards, then, if the call is made, its outcome. */
  function SubmitAndSettle(form: Form, wallet: string, parse: string -> TimeValue, tx: TxOutcome): (r: Form)
    ensures r.isLoading == form.isLoading
    ensures r.modal == form.modal || r.modal == ModalClosed
  {
    match Submit(form, wallet, parse)
    case Ignored => form
    case Warned(_) => form
    case Sent(state, _) => Settle(state, tx).state
  }

  /**
   * A submission closes and empties the form exactly when both guards pass
   * and the transaction resolves; in every other case the modal keeps its
   * class.
   */
  lemma ClosesOnlyWhenResolved(form: Form, wallet: string, parse: string -> TimeValue, tx: TxOutcome)
    requires form.modal != ModalClosed
    ensures SubmitAndSettle(form, wallet, parse, tx).modal == ModalClosed
        <==> Filled(form.poll) && wallet != "" && tx == Resolved
    ensures SubmitAndSettle(form, wallet, parse, tx).modal == ModalClosed
        ==> SubmitAndSettle(form, wallet, parse, tx).poll == EmptyPoll
  {
  }

  /**
   * A rejected transaction leaves the dates converted; submitting again
   * sends the same parameters, or nothing at all when a converted date is
   * falsy (NaN, or the epoch itself).
   */
  lemma RetryAfterRejection(form: Form, wallet: string, parse: string -> TimeValue)
    requires Submit(form, wallet, parse).Sent?
    ensures Settle(Submit(form, wallet, parse).state, Rejected).state.poll
         == ConvertDates(form.poll, parse)
    ensures Submit(Settle(Submit(form, wallet, parse).state, Rejected).state, wallet, parse)
         == if Filled(ConvertDates(form.poll, parse)) then Submit(form, wallet, parse) else Ignored
  {
    var s := Submit(form, wallet, parse).state;
    DateToTimeIdempotent(form.poll.startsAt, parse);
    DateToTimeIdempotent(form.poll.endsAt, parse);
    assert ConvertDates(s.poll, parse) == s.poll;
  }

  /** A closed form has nothing to submit. */
  lemma ClosedFormIgnoresSubmit(form: Form, wallet: string, parse: string -> TimeValue)
    ensures Submit(CloseModal(form), wallet, parse) == Ignored
  {
    assert Value(CloseModal(form).poll, Image) == Str("");
  }

  /** The upload flag does not hold a submission back. */
  lemma SubmitIgnoresLoading(form: Form, wallet: string, parse: string -> TimeValue)
    ensures Submit(form.(isLoading := true), wallet, parse).Sent? == Submit(form, wallet, parse).Sent?
  {
  }
}
