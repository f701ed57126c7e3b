/** The chat message record that the server emits as `new_message`, that
    the App keeps in its window and that the tablet screen types out. */
module Messages {
  import opened Common
  import opened JsText

  /** `{ id, author, message, timestamp }`; fields other than `id` may be
      absent (the startup message has only `id` and `message`). The text is
      kept as code units because its length and slices are what the screen
      types; the other fields are only compared or copied. */
  datatype Message = Message(
    id: string,
    author: Option<string>,
    text: Option<JsString>,
    timestamp: Option<string>)

  /** `currentMessage.message || ""`: an absent text is typed as the empty
      string, and a present one as itself. */
  function TextOf(m: Message): (r: JsString)
    ensures m.text.None? ==> r == []
    ensures m.text.Some? ==> r == m.text.value
  {
    match m.text
    case None => []
    case Some(t) => t
  }

  /** The texts of a list of messages, in order. */
  function Texts(ms: seq<Message>): (r: seq<JsString>)
    ensures |r| == |ms|
    ensures forall i :: 0 <= i < |ms| ==> r[i] == TextOf(ms[i])
  {
    seq(|ms|, i requires 0 <= i < |ms| => TextOf(ms[i]))
  }

  /** `Texts` distributes over concatenation, so texts taken one message at a
      time keep the order of the messages. */
  lemma TextsAppend(a: seq<Message>, b: seq<Message>)
    ensures Texts(a + b) == Texts(a) + Texts(b)
  {
    assert forall i :: 0 <= i < |a + b| ==> Texts(a + b)[i] == (Texts(a) + Texts(b))[i];
  }
}
