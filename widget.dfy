/** The chat widget's state machine: visibility, the append-only message
    list, the draft input and the typing indicator, with the simulated
    reply turned into an explicit timer event. Time is injected: `now` is
    the value `Date.now()` would return and `stamp` the formatted time of
    day shown under the bubble. */
module Widget {
  import opened Text
  import opened Reply

  datatype Option<T> = None | Some(value: T)

  datatype Sender = User | Bot

  /** One chat bubble. */
  datatype Message = Message(id: int, text: string, sender: Sender, timestamp: string)

  const WelcomeId: int := 1
  const WelcomeText: string :=
    "Bienvenue ! Je suis votre assistant IA. " + "Comment puis-je vous assister aujourd'hui ?"

  /** The send button's `disabled` condition, which is also the condition
      under which a submit is ignored: a blank draft, or a reply on its way. */
  function SendDisabled(input: string, isTyping: bool): (d: bool)
    ensures d <==> IsBlank(input) || isTyping
  {
    TrimSpec(input);
    Trim(input) == [] || isTyping
  }

  /** Message `k` of the conversation takes its turn: odd positions are the
      user's posts, trimmed and non-empty, even positions (after the welcome) the bot's answer to
      the post just before. */
  ghost predicate TurnAt(ms: seq<Message>, k: int)
    requires 1 <= k < |ms|
  {
    if k % 2 == 1 then ms[k].sender == User && IsTrimmed(ms[k].text)
    else ms[k].sender == Bot && ms[k].text == ReplyFor(ms[k - 1].text)
  }

  /** The welcome message followed by question/answer turns. */
  ghost predicate Conversation(ms: seq<Message>) {
    |ms| >= 1 &&
    ms[0].id == WelcomeId && ms[0].text == WelcomeText && ms[0].sender == Bot &&
    forall k :: 1 <= k < |ms| ==> TurnAt(ms, k)
  }

  /** The states the widget can reach: the typing indicator is on exactly
      while a reply is pending, which is exactly while the last message is
      an unanswered user post, and the pending text is that post. */
  ghost predicate Consistent(ms: seq<Message>, isTyping: bool, pending: Option<string>) {
    Conversation(ms) &&
    (isTyping <==> pending.Some?) &&
    (pending.Some? <==> |ms| % 2 == 0) &&
    (pending.Some? ==> pending.value == ms[|ms| - 1].text)
  }

  /** Ids strictly increase in display order. */
  predicate IdsAscending(ms: seq<Message>) {
    forall k :: 1 <= k < |ms| ==> ms[k - 1].id < ms[k].id
  }

  function LastId(ms: seq<Message>): (id: int)
    requires ms != []
  {
    ms[|ms| - 1].id
  }

  /** The typing indicator shows exactly when the last bubble is the user's. */
  lemma LastSpeaker(ms: seq<Message>, isTyping: bool, pending: Option<string>)
    requires Consistent(ms, isTyping, pending)
    ensures ms[|ms| - 1].sender == (if isTyping then User else Bot)
  {
    if |ms| > 1 {
      assert TurnAt(ms, |ms| - 1);
    }
  }

  /** Posting the trimmed draft from an idle state keeps the state consistent. */
  lemma PostKeepsConsistent(ms: seq<Message>, input: string, now: int, stamp: string)
    requires Consistent(ms, false, None) && !IsBlank(input)
    ensures Consistent(ms + [Message(now, Trim(input), User, stamp)], true, Some(Trim(input)))
  {
    var ms' := ms + [Message(now, Trim(input), User, stamp)];
    TrimSpec(input);
    forall k | 1 <= k < |ms'| ensures TurnAt(ms', k) {
      if k < |ms| {
        assert TurnAt(ms, k);
      }
    }
  }

  /** Posting the answer to the pending text keeps the state consistent. */
  lemma AnswerKeepsConsistent(ms: seq<Message>, q: string, now: int, stamp: string)
    requires Consistent(ms, true, Some(q))
    ensures Consistent(ms + [Message(now + 1, ReplyFor(q), Bot, stamp)], false, None)
  {
    var ms' := ms + [Message(now + 1, ReplyFor(q), Bot, stamp)];
    forall k | 1 <= k < |ms'| ensures TurnAt(ms', k) {
      if k < |ms| {
        assert TurnAt(ms, k);
        assert ms'[k] == ms[k] && ms'[k - 1] == ms[k - 1];
      } else {
        assert ms'[k - 1] == ms[|ms| - 1];
      }
    }
  }

  /** Appending a message with a larger id keeps the ids ascending. */
  lemma AppendKeepsIdsAscending(ms: seq<Message>, m: Message)
    requires IdsAscending(ms) && (ms != [] ==> LastId(ms) < m.id)
    ensures IdsAscending(ms + [m])
  {
    var ms' := ms + [m];
    forall k | 1 <= k < |ms'| ensures ms'[k - 1].id < ms'[k].id {
      if k < |ms| {
        assert ms'[k - 1] == ms[k - 1] && ms'[k] == ms[k];
      }
    }
  }

  class ChatWidget {
    var isOpen: bool
    var messages: seq<Message>
    var input: string
    var isTyping: bool
    /** The trimmed user text whose reply timer is outstanding, if any. */
    var pending: Option<string>

    ghost predicate Valid()
      reads this
    {
      Consistent(messages, isTyping, pending)
    }

    /** The widget as it mounts: closed, idle, an empty draft and the welcome message. */
    constructor (stamp: string)
      ensures Valid()
      ensures !isOpen && input == [] && !isTyping && pending == None
      ensures messages == [Message(WelcomeId, WelcomeText, Bot, stamp)]
    {
      isOpen := false;
      messages := [Message(WelcomeId, WelcomeText, Bot, stamp)];
      input := [];
      isTyping := false;
      pending := None;
    }

    /** The floating toggle button; only visibility changes. */
    method Open()
      requires Valid()
      modifies this`isOpen
      ensures Valid() && isOpen
      ensures messages == old(messages) && input == old(input)
      ensures isTyping == old(isTyping) && pending == old(pending)
    {
      isOpen := true;
    }

    /** The close button in the header; only visibility changes. */
    method Close()
      requires Valid()
      modifies this`isOpen
      ensures Valid() && !isOpen
      ensures messages == old(messages) && input == old(input)
      ensures isTyping == old(isTyping) && pending == old(pending)
    {
      isOpen := false;
    }

    /** The input field's change handler; only the draft changes. */
    method SetInput(s: string)
      requires Valid()
      modifies this`input
      ensures Valid() && input == s
      ensures isOpen == old(isOpen) && messages == old(messages)
      ensures isTyping == old(isTyping) && pending == old(pending)
    {
      input := s;
    }

    /** The form's submit handler: ignored when the send button would be
        disabled; otherwise posts the trimmed draft under id `now`, clears
        the draft, shows the typing indicator and arms the reply timer. */
    method Submit(now: int, stamp: string)
      requires Valid()
      modifies this`messages, this`input, this`isTyping, this`pending
      ensures Valid() && isOpen == old(isOpen)
      ensures old(SendDisabled(input, isTyping)) ==>
        messages == old(messages) && input == old(input) &&
        isTyping == old(isTyping) && pending == old(pending)
      ensures !old(SendDisabled(input, isTyping)) ==>
        messages == old(messages) + [Message(now, Trim(old(input)), User, stamp)] &&
        input == [] && isTyping && pending == Some(Trim(old(input)))
      ensures old(IdsAscending(messages)) && now > LastId(old(messages)) ==> IdsAscending(messages)
    {
      var trimmed := Trim(input);
      if trimmed == [] || isTyping {
        return;
      }
      TrimSpec(input);
      PostKeepsConsistent(messages, input, now, stamp);
      if IdsAscending(messages) && now > LastId(messages) {
        AppendKeepsIdsAscending(messages, Message(now, trimmed, User, stamp));
      }
      messages := messages + [Message(now, trimmed, User, stamp)];
      input := [];
      isTyping := true;
      pending := Some(trimmed);
    }

    /** The reply timer fires: the bot answers the pending text under id
        `now + 1` and the typing indicator goes off. */
    method ReplyElapsed(now: int, stamp: string)
      requires Valid() && pending.Some?
      modifies this`messages, this`isTyping, this`pending
      ensures Valid() && isOpen == old(isOpen) && input == old(input)
      ensures messages == old(messages) + [Message(now + 1, ReplyFor(old(pending).value), Bot, stamp)]
      ensures !isTyping && pending == None
      ensures old(IdsAscending(messages)) && now + 1 > LastId(old(messages)) ==> IdsAscending(messages)
    {
      var reply := Message(now + 1, ReplyFor(pending.value), Bot, stamp);
      AnswerKeepsConsistent(messages, pending.value, now, stamp);
      if IdsAscending(messages) && now + 1 > LastId(messages) {
        AppendKeepsIdsAscending(messages, reply);
      }
      messages := messages + [reply];
      isTyping := false;
      pending := None;
    }
  }

  /** One question and its answer for any non-blank draft, with a second,
      ignored submit while the reply is pending and the panel closed and
      reopened in between: the list grows by exactly two and reopening
      keeps it. */
  method RoundTrip(draft: string, stamp: string, t0: int, t1: int) returns (log: seq<Message>)
    requires !IsBlank(draft)
    ensures |log| == 3 && log[0] == Message(WelcomeId, WelcomeText, Bot, stamp)
    ensures log[1] == Message(t0, Trim(draft), User, stamp)
    ensures log[2] == Message(t1 + 1, ReplyFor(Trim(draft)), Bot, stamp)
  {
    var w := new ChatWidget(stamp);
    w.Open();
    w.SetInput(draft);
    w.Submit(t0, stamp);
    w.Submit(t0, stamp);
    w.Close();
    w.ReplyElapsed(t1, stamp);
    w.Open();
    log := w.messages;
  }
}
