/** The decision logic of the registration screen: the password check, and
    the toast and navigation that follow the server's answer. */
module Register {
  import opened Wrappers
  import opened Toasts
  import opened Messages

  /** The error body: each field, when present, is a list of messages. */
  datatype RegisterErrors = RegisterErrors(username: Option<seq<string>>, email: Option<seq<string>>,
                                           password: Option<seq<string>>, nonFieldErrors: Option<seq<string>>)

  /** The request threw (the fetch or `response.json()`), carrying the
      error's `message` when it has one, or it answered. */
  datatype RegisterCall = Threw(message: Option<string>) | Answered(ok: bool, data: RegisterErrors)

  /** What the user sees: one toast with its detail line (None where the
      source passes `undefined`), whether a request was sent, and whether
      the screen navigates to Login. */
  datatype RegisterEffect = RegisterEffect(toast: Toast, detail: Option<string>,
                                           requestSent: bool, navigateToLogin: bool)

  const MismatchMessage: string := "As senhas não coincidem."
  const UnknownErrorMessage: string := "Erro desconhecido. Por favor, tente novamente."

  /** The message chain: a present field is truthy even when its list is
      empty, so it is chosen and yields `undefined`. */
  function ErrorMessage(e: RegisterErrors): (r: Option<string>)
    ensures e.username.None? && e.email.None? && e.password.None? && e.nonFieldErrors.None? ==>
      r == Some(UnknownErrorMessage)
    ensures r.Some? && r.value != UnknownErrorMessage ==>
      (e.username.Some? && r.value in e.username.value) ||
      (e.email.Some? && r.value in e.email.value) ||
      (e.password.Some? && r.value in e.password.value) ||
      (e.nonFieldErrors.Some? && r.value in e.nonFieldErrors.value)
  {
    if e.username.Some? then First(e.username.value)
    else if e.email.Some? then First(e.email.value)
    else if e.password.Some? then First(e.password.value)
    else if e.nonFieldErrors.Some? then First(e.nonFieldErrors.value)
    else Some(UnknownErrorMessage)
  }

  function HandleRegister(password: string, confirmPassword: string, call: RegisterCall): (r: RegisterEffect)
    ensures password != confirmPassword ==>
      r == RegisterEffect(Toast(Error, "Erro de Registro"), Some(MismatchMessage), false, false)
    ensures password == confirmPassword ==> r.requestSent
    ensures r.navigateToLogin <==> password == confirmPassword && call.Answered? && call.ok
    ensures r.toast.kind == Success <==> r.navigateToLogin
    ensures password == confirmPassword && call.Threw? ==>
      r.toast == Toast(Error, "Erro de Registro") && r.detail == Some(ThrownMessage(call.message, FallbackMessage))
    ensures password == confirmPassword && call.Answered? && !call.ok ==>
      r.toast == Toast(Error, "Falha no Registro") && r.detail == ErrorMessage(call.data)
  {
    if password != confirmPassword then
      RegisterEffect(Toast(Error, "Erro de Registro"), Some(MismatchMessage), false, false)
    else match call
      case Threw(message) =>
        RegisterEffect(Toast(Error, "Erro de Registro"), Some(ThrownMessage(message, FallbackMessage)), true, false)
      case Answered(ok, data) =>
        if ok then
          RegisterEffect(Toast(Success, "Registro bem-sucedido!"),
                         Some("Sua conta foi criada. Faça login para continuar."), true, true)
        else RegisterEffect(Toast(Error, "Falha no Registro"), ErrorMessage(data), true, false)
  }

  /** The priority of the message chain: username before email before
      password before the non-field errors, and the fixed default when
      none is present. */
  lemma ErrorPriority(e: RegisterErrors)
    ensures e.username.Some? && |e.username.value| > 0 ==> ErrorMessage(e) == Some(e.username.value[0])
    ensures e.username.None? && e.email.Some? && |e.email.value| > 0 ==>
      ErrorMessage(e) == Some(e.email.value[0])
    ensures e.username.None? && e.email.None? && e.password.Some? && |e.password.value| > 0 ==>
      ErrorMessage(e) == Some(e.password.value[0])
    ensures e.username.None? && e.email.None? && e.password.None? &&
            e.nonFieldErrors.Some? && |e.nonFieldErrors.value| > 0 ==>
      ErrorMessage(e) == Some(e.nonFieldErrors.value[0])
    ensures e.username.None? && e.email.None? && e.password.None? && e.nonFieldErrors.None? ==>
      ErrorMessage(e) == Some(UnknownErrorMessage)
    ensures ErrorMessage(e).None? <==>
      (e.username.Some? && e.username.value == []) ||
      (e.username.None? && e.email.Some? && e.email.value == []) ||
      (e.username.None? && e.email.None? && e.password.Some? && e.password.value == []) ||
      (e.username.None? && e.email.None? && e.password.None? &&
       e.nonFieldErrors.Some? && e.nonFieldErrors.value == [])
  {
  }
}
