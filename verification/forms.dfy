/**
 * What the two modal forms of components/CreatePoll.tsx and
 * components/ContestPoll.tsx have in common: the outcome of an image upload
 * as the pinning service reports it, the toasts the forms raise, the order
 * in which a submission checks its guards, and the transaction outcome that
 * decides whether the modal closes.
 */
module Forms {
  import opened Wrappers

  /** A toast: its kind and its text. */
  datatype Notice = Success(text: string) | Warning(text: string) | Error(text: string)

  const ConnectWalletFirst: string := "Connect wallet first!"
  const ImageUploaded: string := "Image uploaded successfully!"
  const UploadFailedText: string := "Failed to upload image"
  const UploadErrorText: string := "Error uploading image"
  const TransactionFailed: string := "Encountered error 🤯"

  /** The CSS class that hides a modal. */
  const ModalClosed: string := "scale-0"

  /**
   * What `await uploadFile(file)` gave the form: a result with `success`
   * set and maybe a `pinataUrl`, a result without `success`, or an
   * exception.
   */
  datatype UploadOutcome = Uploaded(pinataUrl: Option<string>) | UploadFailed | UploadThrew

  /** `result.pinataUrl || ''`: the URL, or the empty string when there is none. */
  function UploadedUrl(url: Option<string>): string {
    match url
    case Some(u) => u
    case None => ""
  }

  /**
   * The image a form holds once the upload is over: the uploaded URL after
   * a success, the image it had before otherwise.
   */
  function ImageAfter(outcome: UploadOutcome, current: string): string {
    if outcome.Uploaded? then UploadedUrl(outcome.pinataUrl) else current
  }

  /** The toast that ends an upload attempt. */
  function UploadNotice(outcome: UploadOutcome): Notice {
    match outcome
    case Uploaded(_) => Success(ImageUploaded)
    case UploadFailed => Error(UploadFailedText)
    case UploadThrew => Error(UploadErrorText)
  }

  /** How the contract call a submission started came back. */
  datatype TxOutcome = Resolved | Rejected

  /** A state after a transition, with the toast the transition raised, if any. */
  datatype Effect<S> = Effect(state: S, notice: Option<Notice>)

  /**
   * What a submission does: returns at the first guard, warns at the
   * second, or starts the contract call `call` from form state `state`.
   */
  datatype Submission<S, A> = Ignored | Warned(notice: Notice) | Sent(state: S, call: A)

  /**
   * The guards both `handleSubmit`s check, in their order: any required
   * field falsy returns silently; an empty wallet raises the warning and
   * returns; only then is the call made.
   */
  function Guarded<S, A>(filled: bool, wallet: string, state: S, call: A): (r: Submission<S, A>)
    ensures r.Ignored? <==> !filled
    ensures r.Warned? <==> filled && wallet == ""
    ensures r.Warned? ==> r.notice == Warning(ConnectWalletFirst)
    ensures r.Sent? <==> filled && wallet != ""
    ensures r.Sent? ==> r.state == state && r.call == call
  {
    if !filled then Ignored
    else if wallet == "" then Warned(Warning(ConnectWalletFirst))
    else Sent(state, call)
  }
}
