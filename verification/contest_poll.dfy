/**
 * The Become a Contestant modal of components/ContestPoll.tsx as a state
 * machine: the contestant's name and image, the upload flag, and the
 * modal's CSS class, with one transition per handler. The poll being
 * contested is the structured poll the page passes in.
 */
module ContestPoll {
  import opened Wrappers
  import opened Forms
  import Structure

  /** The fields the form collects. */
  datatype ContestantParams = ContestantParams(name: string, image: string)

  /** The `name` of an input: the field `handleChange` writes. */
  datatype Field = Name | Image

  /** The component's state, and the `contestModal` class it is shown with. */
  datatype Form = Form(contestant: ContestantParams, isLoading: bool, modal: string)

  /** The arguments of `contestPoll(id, name, image)`. */
  datatype ContestCall = ContestCall(pollId: int, name: string, image: string)

  const PollContested: string := "Poll contested successfully 👌"

  /** The form as it starts and as `closeModal` leaves it. */
  const EmptyContestant: ContestantParams := ContestantParams("", "")

  /** The text field `f` holds. */
  function Value(c: ContestantParams, f: Field): string {
    match f
    case Name => c.name
    case Image => c.image
  }

  /** The first guard of `handleSubmit` lets the form through. */
  predicate Filled(c: ContestantParams) {
    c.name != "" && c.image != ""
  }

  lemma ValuesDetermineParams(c: ContestantParams, d: ContestantParams)
    requires forall f :: Value(c, f) == Value(d, f)
    ensures c == d
  {
    assert Value(c, Name) == Value(d, Name);
    assert Value(c, Image) == Value(d, Image);
  }

  /** `handleChange`: the input named `f` now holds `value`. */
  function HandleChange(form: Form, f: Field, value: string): (r: Form)
    ensures Value(r.contestant, f) == value
    ensures forall g :: g != f ==> Value(r.contestant, g) == Value(form.contestant, g)
    ensures r.isLoading == form.isLoading && r.modal == form.modal
  {
    match f
    case Name => form.(contestant := form.contestant.(name := value))
    case Image => form.(contestant := form.contestant.(image := value))
  }

  /** Writing a field twice keeps only the second value. */
  lemma ChangeOverwrites(form: Form, f: Field, v: string, w: string)
    ensures HandleChange(HandleChange(form, f, v), f, w) == HandleChange(form, f, w)
  {
    ValuesDetermineParams(HandleChange(HandleChange(form, f, v), f, w).contestant,
                          HandleChange(form, f, w).contestant);
  }

  /** Writes to the two fields do not interfere. */
  lemma ChangesCommute(form: Form, v: string, w: string)
    ensures HandleChange(HandleChange(form, Name, v), Image, w)
         == HandleChange(HandleChange(form, Image, w), Name, v)
  {
    ValuesDetermineParams(HandleChange(HandleChange(form, Name, v), Image, w).contestant,
                          HandleChange(HandleChange(form, Image, w), Name, v).contestant);
  }

  /** The part of `handleImageUpload` before the `await`: a chosen file sets the upload flag. */
  function StartUpload(form: Form, hasFile: bool): (r: Form)
    ensures r.contestant == form.contestant && r.modal == form.modal
    ensures r.isLoading == (hasFile || form.isLoading)
    ensures !hasFile ==> r == form
  {
    if hasFile then form.(isLoading := true) else form
  }

  /**
   * The part of `handleImageUpload` after the `await`: the image of the
   * state at that moment is replaced after a success, the flag is cleared
   * in any case, and a toast reports the outcome.
   */
  function FinishUpload(form: Form, outcome: UploadOutcome): (r: Effect<Form>)
    ensures !r.state.isLoading && r.state.modal == form.modal
    ensures outcome.Uploaded? ==> r.state.contestant.image == UploadedUrl(outcome.pinataUrl)
    ensures !outcome.Uploaded? ==> r.state.contestant == form.contestant
    ensures r.state.contestant.name == form.contestant.name
    ensures r.notice == Some(UploadNotice(outcome))
    ensures r.notice.value.Success? <==> outcome.Uploaded?
  {
    Effect(Form(form.contestant.(image := ImageAfter(outcome, form.contestant.image)), false, form.modal),
           Some(UploadNotice(outcome)))
  }

  /**
   * `handleImageUpload` when nothing else happens while the file uploads:
   * without a file nothing changes; with one the image follows the outcome,
   * the name stays, and the flag ends cleared.
   */
  function HandleImageUpload(form: Form, hasFile: bool, outcome: UploadOutcome): (r: Effect<Form>)
    ensures !hasFile ==> r.state == form && r.notice.None?
    ensures hasFile ==> !r.state.isLoading && r.state.modal == form.modal
    ensures hasFile && outcome.Uploaded? ==> r.state.contestant.image == UploadedUrl(outcome.pinataUrl)
    ensures hasFile && !outcome.Uploaded? ==> r.state.contestant == form.contestant
    ensures r.state.contestant.name == form.contestant.name
    ensures hasFile ==> r.notice == Some(UploadNotice(outcome))
  {
    if !hasFile then Effect(form, None)
    else FinishUpload(StartUpload(form, true), outcome)
  }

  /** A name typed while the file uploads survives the upload. */
  lemma NameChangeDuringUploadKept(form: Form, v: string, outcome: UploadOutcome)
    ensures FinishUpload(HandleChange(StartUpload(form, true), Name, v), outcome)
         == Effect(HandleChange(FinishUpload(StartUpload(form, true), outcome).state, Name, v),
                   Some(UploadNotice(outcome)))
  {
    var left := FinishUpload(HandleChange(StartUpload(form, true), Name, v), outcome).state;
    var right := HandleChange(FinishUpload(StartUpload(form, true), outcome).state, Name, v);
    ValuesDetermineParams(left.contestant, right.contestant);
  }

  /**
   * `handleSubmit`: nothing without a name and an image, a warning without
   * a wallet, otherwise `contestPoll` with the displayed poll's id and the
   * form's name and image; the form state itself is not touched.
   */
  function Submit(form: Form, wallet: string, poll: Structure.Poll): (r: Submission<Form, ContestCall>)
    ensures r.Ignored? <==> form.contestant.name == "" || form.contestant.image == ""
    ensures r.Warned? <==> Filled(form.contestant) && wallet == ""
    ensures r.Warned? ==> r.notice == Warning(ConnectWalletFirst)
    ensures r.Sent? <==> Filled(form.contestant) && wallet != ""
    ensures r.Sent? ==> r.state == form
    ensures r.Sent? ==> r.call.pollId == poll.id && r.call.name == form.contestant.name
                        && r.call.image == form.contestant.image
  {
    Guarded(Filled(form.contestant), wallet, form,
            ContestCall(poll.id, form.contestant.name, form.contestant.image))
  }

  /** `closeModal`: the modal hidden and both fields emptied. */
  function CloseModal(form: Form): (r: Form)
    ensures forall f :: Value(r.contestant, f) == ""
    ensures r.modal == ModalClosed
    ensures r.isLoading == form.isLoading
  {
    Form(EmptyContestant, form.isLoading, ModalClosed)
  }

  /** The end of the `contestPoll` promise: it closes the modal only when it resolves. */
  function Settle(form: Form, tx: TxOutcome): (r: Effect<Form>)
    ensures tx == Rejected ==> r.state == form && r.notice == Some(Error(TransactionFailed))
    ensures tx == Resolved ==> r.state.modal == ModalClosed && !Filled(r.state.contestant)
    ensures tx == Resolved ==> r.state.contestant == EmptyContestant && r.state.isLoading == form.isLoading
    ensures tx == Resolved ==> r.notice == Some(Success(PollContested))
  {
    match tx
    case Resolved => Effect(CloseModal(form), Some(Success(PollContested)))
    case Rejected => Effect(form, Some(Error(TransactionFailed)))
  }

  /** The form after a whole submission: the guards, then, if the call is made, its outcome. */
  function SubmitAndSettle(form: Form, wallet: string, poll: Structure.Poll, tx: TxOutcome): (r: Form)
    ensures r.isLoading == form.isLoading
    ensures r.modal == form.modal || r.modal == ModalClosed
  {
    match Submit(form, wallet, poll)
    case Ignored => form
    case Warned(_) => form
    case Sent(state, _) => Settle(state, tx).state
  }

  /**
   * A submission closes and empties the form exactly when both guards pass
   * and the transaction resolves; otherwise the form is left as it was.
   */
  lemma ClosesOnlyWhenResolved(form: Form, wallet: string, poll: Structure.Poll, tx: TxOutcome)
    requires form.modal != ModalClosed
    ensures SubmitAndSettle(form, wallet, poll, tx).modal == ModalClosed
        <==> Filled(form.contestant) && wallet != "" && tx == Resolved
    ensures SubmitAndSettle(form, wallet, poll, tx).modal == ModalClosed
        ==> SubmitAndSettle(form, wallet, poll, tx).contestant == EmptyContestant
    ensures SubmitAndSettle(form, wallet, poll, tx).modal != ModalClosed
        ==> SubmitAndSettle(form, wallet, poll, tx) == form
  {
  }

  /** After a rejected transaction, submitting again makes the very same call. */
  lemma RetryAfterRejection(form: Form, wallet: string, poll: Structure.Poll)
    requires Submit(form, wallet, poll).Sent?
    ensures Submit(Settle(Submit(form, wallet, poll).state, Rejected).state, wallet, poll)
         == Submit(form, wallet, poll)
  {
  }

  /** A closed form has nothing to submit. */
  lemma ClosedFormIgnoresSubmit(form: Form, wallet: string, poll: Structure.Poll)
    ensures Submit(CloseModal(form), wallet, poll) == Ignored
  {
    assert Value(CloseModal(form).contestant, Name) == "";
  }
}
