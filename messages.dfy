/** The chat side of the client: the submit handler that sends the trimmed
    input, and the `aMessage` handler that renders an incoming message as a
    row (timestamp, sender label in the sender's colour, text) and hands its
    text to the speech rule. */
module ChatClient {
  import opened JsValues
  import HexColor
  import TtsSession

  /** The payload of an `aMessage` event: the sender's socket id and the
      text, either of which may be missing. */
  datatype ChatMessage = ChatMessage(id: Option<string>, message: Option<string>)

  /** `s || d` for a string that may be missing. */
  function OrElse(s: Option<string>, d: string): (r: string)
    ensures Truthy(s) ==> r == s.value
    ensures !Truthy(s) ==> r == d
  {
    if Truthy(s) then s.value else d
  }

  /** How many characters `slice(-5)` keeps. */
  const LABEL_LENGTH: nat := 5

  /** The sender label: the last five characters of the id (all of a
      shorter id), or "Unknown" when the id is missing or empty. */
  function SenderLabel(id: Option<string>): (shown: string)
    ensures Truthy(id) ==>
              && |shown| == (if |id.value| < LABEL_LENGTH then |id.value| else LABEL_LENGTH)
              && shown == id.value[|id.value| - |shown|..]
    ensures !Truthy(id) ==> shown == "Unknown"
  {
    if !Truthy(id) then "Unknown"
    else if |id.value| <= LABEL_LENGTH then id.value
    else id.value[|id.value| - LABEL_LENGTH..]
  }

  /** Ids that end in the same five characters get the same label. */
  lemma SameTailSameLabel(p: string, q: string, tail: string)
    requires |tail| == LABEL_LENGTH
    ensures SenderLabel(Some(p + tail)) == SenderLabel(Some(q + tail)) == tail
  {
    assert (p + tail)[|p|..] == tail;
    assert (q + tail)[|q|..] == tail;
  }

  /** One rendered message row. */
  datatype MessageRow = MessageRow(timestamp: string, sender: string, color: string, body: string)

  /** The row an incoming message becomes. The clock reading is passed in
      as `timestamp`. */
  method RenderRow(msg: ChatMessage, timestamp: string) returns (row: MessageRow)
    ensures row.timestamp == timestamp
    ensures row.sender == SenderLabel(msg.id)
    ensures row.color == HexColor.ColorOf(HexColor.Hash(Utf16(OrElse(msg.id, "default"))))
    ensures HexColor.IsHexColor(row.color)
    ensures row.body == OrElse(msg.message, "")
  {
    var sender := SenderLabel(msg.id);
    var color := HexColor.GenerateHexColor(OrElse(msg.id, "default"));
    row := MessageRow(timestamp, sender, color, OrElse(msg.message, ""));
  }

  /** The message container: the rows shown so far, oldest first. */
  class Transcript {
    var rows: seq<MessageRow>

    constructor ()
      ensures rows == []
    {
      rows := [];
    }

    /** The `aMessage` handler: appends the row and returns what speakText
        does with the message text; an empty or missing text is not
        spoken. */
    method OnMessage(session: TtsSession.Session, msg: ChatMessage, timestamp: string, synthAvailable: bool, speaking: bool)
        returns (action: TtsSession.SpeakAction)
      modifies this
      ensures rows == old(rows) + [MessageRow(timestamp, SenderLabel(msg.id),
                                              HexColor.ColorOf(HexColor.Hash(Utf16(OrElse(msg.id, "default")))),
                                              OrElse(msg.message, ""))]
      ensures HexColor.IsHexColor(rows[|rows| - 1].color)
      ensures !Truthy(msg.message) ==> action.NoOp?
      ensures Truthy(msg.message) ==> action == session.SpeakFor(msg.message.value, false, synthAvailable, speaking)
    {
      var row := RenderRow(msg, timestamp);
      rows := rows + [row];
      var textToSpeak := OrElse(msg.message, "");
      action := TtsSession.NoOp;
      if textToSpeak != "" {
        action := session.SpeakFor(textToSpeak, false, synthAvailable, speaking);
      }
    }
  }

  /** An incoming message is spoken only when its text is present and not
      empty, and then only under the speech rule's own conditions. */
  lemma SpokenOnlyWithText(session: TtsSession.Session, text: string, synthAvailable: bool, speaking: bool)
    ensures session.SpeakFor(text, false, synthAvailable, speaking).Speak? <==>
              text != "" && session.enabled && synthAvailable
  {
  }

  /** The message form: the input's value and the messages emitted to the
      server so far. */
  class MessageForm {
    var value: string
    var outbox: seq<string>

    /** Everything emitted is non-empty and already trimmed. */
    predicate Valid()
      reads this
    {
      forall i :: 0 <= i < |outbox| ==> outbox[i] != "" && Trim(outbox[i]) == outbox[i]
    }

    constructor ()
      ensures value == "" && outbox == [] && Valid()
    {
      value := "";
      outbox := [];
    }

    /** The submit handler: trims the input; a non-empty result is emitted
        and the input cleared, an empty one changes nothing. */
    method Submit()
      requires Valid()
      modifies this
      ensures Valid()
      ensures Trim(old(value)) != "" ==> outbox == old(outbox) + [Trim(old(value))] && value == ""
      ensures Trim(old(value)) == "" ==> outbox == old(outbox) && value == old(value)
    {
      var msg := Trim(value);
      if msg != "" {
        outbox := outbox + [msg];
        value := "";
      }
    }
  }

  /** Submitting white space only emits nothing. */
  lemma BlankIsNotSent(s: string)
    requires AllSpace(s)
    ensures Trim(s) == ""
  {
    TrimEmptyIffAllSpace(s);
  }
}
