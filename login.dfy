/** The decision logic of the login screen: on success the token is handed
    to the session's `signIn`, otherwise a message is chosen. */
module Login {
  import opened Wrappers
  import opened Toasts
  import opened Messages

  /** The parsed body: the token on success, the error list otherwise. */
  datatype LoginData = LoginData(token: Option<string>, nonFieldErrors: Option<seq<string>>)

  datatype LoginCall = Threw(message: Option<string>) | Answered(ok: bool, data: LoginData)

  /** Whether `signIn` was called, and with what `data.token` held. */
  datatype SignIn = NotCalled | Called(token: Option<string>)

  datatype LoginEffect = LoginEffect(toast: Toast, detail: Option<string>, signIn: SignIn)

  const InvalidCredentialsMessage: string := "Credenciais inválidas. Por favor, tente novamente."

  function HandleLogin(call: LoginCall): (r: LoginEffect)
    ensures r.signIn.Called? <==> call.Answered? && call.ok
    ensures r.signIn.Called? ==>
      r.signIn.token == call.data.token && r.toast == Toast(Success, "Login bem-sucedido!")
    ensures call.Answered? && !call.ok ==>
      r.toast == Toast(Error, "Falha no Login") &&
      (call.data.nonFieldErrors.Some? ==> r.detail == First(call.data.nonFieldErrors.value)) &&
      (call.data.nonFieldErrors.None? ==> r.detail == Some(InvalidCredentialsMessage))
    ensures call.Threw? ==>
      r.toast == Toast(Error, "Erro de Login") &&
      r.detail == Some(ThrownMessage(call.message, FallbackMessage))
  {
    match call
    case Threw(message) =>
      LoginEffect(Toast(Error, "Erro de Login"),
                  Some(ThrownMessage(message, FallbackMessage)), NotCalled)
    case Answered(ok, data) =>
      if ok then LoginEffect(Toast(Success, "Login bem-sucedido!"), Some("Bem-vindo de volta!"), Called(data.token))
      else if data.nonFieldErrors.Some? then
        LoginEffect(Toast(Error, "Falha no Login"), First(data.nonFieldErrors.value), NotCalled)
      else LoginEffect(Toast(Error, "Falha no Login"), Some(InvalidCredentialsMessage), NotCalled)
  }
}
