/**
 * What a controller action answers, reduced to what the rules decide: where a redirect goes
 * with which flash, or which bare status is returned. Rendering is left out.
 */
module Web {
  import opened Wrappers

  const Success: nat := 200
  const Forbidden: nat := 403
  const NotFound: nat := 404
  const Unprocessable: nat := 422

  datatype Flash = NoFlash | Notice(text: string) | Alert(text: string)

  /** Redirect targets: the chat list (optionally with a chat opened), one chat, the calendar. */
  datatype Location = ChatsIndex(activeChat: Option<nat>) | ChatPage(chatId: nat) | EventsIndex | EventPage(eventId: nat)

  datatype Response = Redirect(to: Location, flash: Flash) | Status(code: nat)
}
