/** The chat area: the input box with its submit guard, the loading state
    derived from the stream status, and the feedback taken from the latest
    assistant reply for the sidebar. */
module ChatArea {
  import opened Wrappers
  import opened Text
  import opened Json
  import opened ChatUtils

  // ----- Loading state and disabled controls -----

  /** The chat hook's `status`. */
  datatype Status = Submitted | Streaming | Ready | Failed

  /** `isLoading`: a request is on its way or its reply is streaming in. */
  predicate IsLoading(status: Status) {
    status == Streaming || status == Submitted
  }

  /** The text box is disabled while loading. */
  predicate InputDisabled(status: Status) {
    IsLoading(status)
  }

  /** The send button is disabled while loading or when the input is blank. */
  predicate SendDisabled(status: Status, input: string) {
    IsLoading(status) || Trim(input) == []
  }

  /** The send button is enabled exactly when nothing is loading and the input
      has a non-whitespace character; an enabled button therefore never
      submits blank input. */
  lemma SendEnabledIff(status: Status, input: string)
    ensures !SendDisabled(status, input) <==> (status == Ready || status == Failed) && exists i :: 0 <= i < |input| && !IsSpace(input[i])
  {
    TrimEmptyIff(input);
  }

  // ----- The input form -----

  /** The controlled input and the messages handed to `sendMessage`. */
  class ChatForm {
    var input: string
    var sent: seq<string>

    constructor ()
      ensures input == [] && sent == []
    {
      input := [];
      sent := [];
    }

    /** `onChange`: the box now holds `text`. */
    method Change(text: string)
      modifies this
      ensures input == text && sent == old(sent)
    {
      input := text;
    }

    /** `handleFormSubmit`: blank input is ignored and stays in the box;
        otherwise the input, untrimmed, is sent and the box is cleared. */
    method Submit() returns (accepted: bool)
      modifies this
      ensures accepted <==> Trim(old(input)) != []
      ensures accepted ==> sent == old(sent) + [old(input)] && input == []
      ensures !accepted ==> sent == old(sent) && input == old(input)
    {
      if Trim(input) == [] {
        return false;
      }
      sent := sent + [input];
      input := [];
      return true;
    }
  }

  // ----- Feedback for the sidebar -----

  /** `messages.filter(m => m.role === "assistant").pop()`. */
  function LastAssistant(msgs: seq<Message>): (r: Option<Message>)
    ensures r.None? <==> forall i :: 0 <= i < |msgs| ==> msgs[i].role != Assistant
    ensures r.Some? ==> exists i :: 0 <= i < |msgs| && msgs[i] == r.value && r.value.role == Assistant
                          && forall j :: i < j < |msgs| ==> msgs[j].role != Assistant
  {
    if msgs == [] then None
    else if msgs[|msgs| - 1].role == Assistant then Some(msgs[|msgs| - 1])
    else LastAssistant(msgs[..|msgs| - 1])
  }

  /** `lastFeedback`: nothing while the latest assistant text is empty,
      otherwise that text parsed, whether or not it is still streaming. */
  function LastFeedback(msgs: seq<Message>, parse: string -> Option<Json>): Option<Json> {
    var text := MessageText(LastAssistant(msgs));
    if text == [] then None else ParseJsonSafely(text, parse)
  }

  /** Without an assistant message there is no feedback. */
  lemma NoReplyNoFeedback(msgs: seq<Message>, parse: string -> Option<Json>)
    requires forall i :: 0 <= i < |msgs| ==> msgs[i].role != Assistant
    ensures LastFeedback(msgs, parse) == None
  {
  }

  /** Sending a user message keeps the feedback of the previous reply. */
  lemma UserMessageKeepsFeedback(msgs: seq<Message>, m: Message, parse: string -> Option<Json>)
    requires m.role != Assistant
    ensures LastFeedback(msgs + [m], parse) == LastFeedback(msgs, parse)
  {
    assert (msgs + [m])[..|msgs|] == msgs;
  }

  /** A new assistant reply replaces the feedback with its own. */
  lemma NewReplyGivesFeedback(msgs: seq<Message>, m: Message, parse: string -> Option<Json>)
    requires m.role == Assistant
    ensures LastAssistant(msgs + [m]) == Some(m)
    ensures LastFeedback(msgs + [m], parse) == LastFeedback([m], parse)
  {
  }
}
