/** `_init_stream` (scripts/chat_utils.py): the chat stream is emptied and
    seeded with the system prompt and the welcome message. */
module ChatUtils {
  import opened Messages

  /** The assistant's greeting, `WELCOME_MSG`. */
  const WelcomeText: string := "Hi! Ask me about our MoJ GitHub repos."

  /** The default `sys` argument: a system message carrying the app's system
      prompt, whose text is given. */
  function SystemPrompt(appSysPrompt: string): (m: Message)
    ensures m.role == "system" && m.content == appSysPrompt
  {
    Message("system", appSysPrompt)
  }

  /** The default `wlcm` argument. */
  function Welcome(): (m: Message)
    ensures m.role == "assistant" && m.content == WelcomeText
  {
    Message("assistant", WelcomeText)
  }

  /** `_init_stream(stream, sys, wlcm)`: whatever the stream held is gone;
      it holds `sys` then `wlcm`. */
  function InitStream(stream: seq<Message>, sys: Message, wlcm: Message): (r: seq<Message>)
    ensures |r| == 2 && r[0] == sys && r[1] == wlcm
    ensures forall m :: m in r ==> m == sys || m == wlcm
  {
    [sys, wlcm]
  }

  /** Re-initialising an initialised stream changes nothing, and the result
      never depends on the earlier conversation. */
  lemma InitStreamForgetsHistory(a: seq<Message>, b: seq<Message>, sys: Message, wlcm: Message)
    ensures InitStream(InitStream(a, sys, wlcm), sys, wlcm) == InitStream(a, sys, wlcm)
    ensures InitStream(a, sys, wlcm) == InitStream(b, sys, wlcm)
  {
  }

  /** With the defaults the stream opens with a system message and then the
      assistant's greeting. */
  lemma DefaultStreamOpening(stream: seq<Message>, appSysPrompt: string)
    ensures var r := InitStream(stream, SystemPrompt(appSysPrompt), Welcome());
      r[0].role == "system" && r[1].role == "assistant" && r[1].content == WelcomeText
  {
  }
}
