/** How the screens turn JavaScript values into the text of a toast. */
module Messages {
  import opened Wrappers

  const FallbackMessage: string := "Algo deu errado. Por favor, tente novamente mais tarde."

  /** `list[0]`: undefined on an empty list. */
  function First(list: seq<string>): (r: Option<string>)
    ensures |list| == 0 <==> r.None?
    ensures r.Some? ==> r.value == list[0]
  {
    if |list| == 0 then None else Some(list[0])
  }

  /** `error.message || fallback`: an absent or empty message falls back. */
  function ThrownMessage(message: Option<string>, fallback: string): (r: string)
    ensures message.Some? && message.value != "" ==> r == message.value
    ensures message.None? || message.value == "" ==> r == fallback
  {
    if message.Some? && message.value != "" then message.value else fallback
  }
}
