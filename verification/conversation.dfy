/** The conversation controller: an append-only log of the messages shown in
    the window, and a first-in first-out queue of bot replies whose timer has
    not fired yet. */
module Conversation {
  import opened Text
  import opened Intents
  import opened Seqs

  datatype Sender = User | Bot

  datatype Message = Message(sender: Sender, text: string)

  /** `log` is what the window shows, oldest first; `pending` holds, oldest
      first, the trimmed texts whose reply is still waiting for its timer. */
  datatype Chat = Chat(log: seq<Message>, pending: seq<string>)

  /** The message the bot shows when the window opens. */
  const Welcome: string := "Hi! I’m your offline GUI chatbot. Ask me something, or try “time”."

  function Init(): Chat {
    Chat([Message(Bot, Welcome)], [])
  }

  /** `on_send`: blank input changes nothing; otherwise the trimmed text is
      shown as a user message at once and its reply is scheduled. */
  function Send(c: Chat, raw: string): (c': Chat)
    ensures AllSpace(raw) <==> c' == c
    ensures !AllSpace(raw) ==> c'.log == c.log + [Message(User, Strip(raw))]
    ensures !AllSpace(raw) ==> c'.pending == c.pending + [Strip(raw)]
  {
    var text := Strip(raw);
    if text == [] then c
    else Chat(c.log + [Message(User, text)], c.pending + [text])
  }

  /** The timer callback for the oldest scheduled reply: `add_bot(_reply_for(text))`,
      with `clock` the time at which it fires. */
  function Deliver(c: Chat, clock: string): (c': Chat)
    requires c.pending != []
    ensures c.log <= c'.log && |c'.log| == |c.log| + 1
    ensures c'.log[|c.log|] == Message(Bot, ReplyFor(c.pending[0], clock))
    ensures c'.pending == c.pending[1..]
  {
    Chat(c.log + [Message(Bot, ReplyFor(c.pending[0], clock))], c.pending[1..])
  }

  /** What the event loop hands the controller: a submission, or the reply
      timer firing at the given clock reading. */
  datatype Event = Submit(raw: string) | Tick(clock: string)

  /** A timer only exists for a scheduled reply, so a tick with nothing
      pending does nothing. */
  function Step(c: Chat, e: Event): Chat {
    match e
    case Submit(raw) => Send(c, raw)
    case Tick(clock) => if c.pending == [] then c else Deliver(c, clock)
  }

  function Run(c: Chat, events: seq<Event>): Chat
    decreases |events|
  {
    if events == [] then c else Run(Step(c, events[0]), events[1..])
  }

  /** The texts `who` said in `log`, in order. */
  function Said(log: seq<Message>, who: Sender): seq<string>
    decreases |log|
  {
    if log == [] then []
    else
      var last := log[|log| - 1];
      Said(log[..|log| - 1], who) + (if last.sender == who then [last.text] else [])
  }

  lemma SaidAppend(log: seq<Message>, m: Message, who: Sender)
    ensures Said(log + [m], who) == Said(log, who) + (if m.sender == who then [m.text] else [])
  {
    assert (log + [m])[..|log|] == log;
  }

  /** No prefix of `conv` holds more bot messages than user messages: an
      answer never comes before its question. */
  predicate Balanced(conv: seq<Message>) {
    forall n :: 0 <= n <= |conv| ==> |Said(conv[..n], Bot)| <= |Said(conv[..n], User)|
  }

  /** After the welcome message, `conv` answers the user's messages in
      order under the rule table `rules`: the k-th bot message is a reply to
      the k-th user message, the unanswered user messages are exactly the
      pending queue, and an answer never comes before its question. */
  predicate Answered(conv: seq<Message>, pending: seq<string>, rules: seq<Rule>, fallback: string) {
    Paired(Said(conv, User), Said(conv, Bot), pending, rules, fallback) && Balanced(conv)
  }

  /** The k-th answer replies to the k-th question, and the questions not
      yet answered are exactly `pending`. */
  predicate Paired(asked: seq<string>, answers: seq<string>, pending: seq<string>, rules: seq<Rule>, fallback: string) {
    && |answers| + |pending| == |asked|
    && pending == asked[|answers|..]
    && (forall k :: 0 <= k < |answers| ==> IsReplyTo(rules, fallback, asked[k], answers[k]))
  }

  lemma PairedAsk(asked: seq<string>, answers: seq<string>, pending: seq<string>, rules: seq<Rule>, fallback: string, text: string)
    requires Paired(asked, answers, pending, rules, fallback)
    ensures Paired(asked + [text], answers, pending + [text], rules, fallback)
  {
    assert (asked + [text])[|answers|..] == asked[|answers|..] + [text];
  }

  lemma PairedAnswer(asked: seq<string>, answers: seq<string>, pending: seq<string>, rules: seq<Rule>, fallback: string, reply: string)
    requires Paired(asked, answers, pending, rules, fallback) && pending != []
    requires IsReplyTo(rules, fallback, pending[0], reply)
    ensures Paired(asked, answers + [reply], pending[1..], rules, fallback)
  {
    assert asked[|answers|] == pending[0];
  }

  /** The chat opens with the welcome message and then answers its user
      messages in order under the rule table `rules`. */
  predicate ValidUnder(c: Chat, rules: seq<Rule>, fallback: string) {
    && |c.log| >= 1
    && c.log[0] == Message(Bot, Welcome)
    && Answered(c.log[1..], c.pending, rules, fallback)
  }

  /** The invariant of every chat the controller can reach. */
  predicate Valid(c: Chat) {
    ValidUnder(c, Table, DefaultReply)
  }

  lemma InitValid()
    ensures Valid(Init())
  {
    assert Init().log[1..] == [];
  }

  /** A user message, or a bot message while a question is open, keeps every
      prefix balanced. */
  lemma BalancedAppend(conv: seq<Message>, m: Message)
    requires Balanced(conv)
    requires m.sender == User || |Said(conv, Bot)| < |Said(conv, User)|
    ensures Balanced(conv + [m])
  {
    var conv' := conv + [m];
    SaidAppend(conv, m, User);
    SaidAppend(conv, m, Bot);
    forall n | 0 <= n <= |conv'|
      ensures |Said(conv'[..n], Bot)| <= |Said(conv'[..n], User)|
    {
      if n <= |conv| {
        assert conv'[..n] == conv[..n];
      } else {
        assert conv'[..n] == conv';
      }
    }
  }

  /** A user message extends the conversation and the queue alike. */
  lemma AskKeepsAnswered(conv: seq<Message>, pending: seq<string>, rules: seq<Rule>, fallback: string, text: string)
    requires Answered(conv, pending, rules, fallback)
    ensures Answered(conv + [Message(User, text)], pending + [text], rules, fallback)
  {
    SaidAppend(conv, Message(User, text), User);
    SaidAppend(conv, Message(User, text), Bot);
    PairedAsk(Said(conv, User), Said(conv, Bot), pending, rules, fallback, text);
    BalancedAppend(conv, Message(User, text));
  }

  /** A bot message answering the oldest pending text keeps the conversation answered. */
  lemma AnswerKeepsAnswered(conv: seq<Message>, pending: seq<string>, rules: seq<Rule>, fallback: string, reply: string)
    requires Answered(conv, pending, rules, fallback) && pending != []
    requires IsReplyTo(rules, fallback, pending[0], reply)
    ensures Answered(conv + [Message(Bot, reply)], pending[1..], rules, fallback)
  {
    SaidAppend(conv, Message(Bot, reply), User);
    SaidAppend(conv, Message(Bot, reply), Bot);
    PairedAnswer(Said(conv, User), Said(conv, Bot), pending, rules, fallback, reply);
    BalancedAppend(conv, Message(Bot, reply));
  }

  /** Showing a user message and queueing its text keeps the invariant. */
  lemma AskKeepsValid(c: Chat, rules: seq<Rule>, fallback: string, text: string)
    requires ValidUnder(c, rules, fallback)
    ensures ValidUnder(Chat(c.log + [Message(User, text)], c.pending + [text]), rules, fallback)
  {
    AskKeepsAnswered(c.log[1..], c.pending, rules, fallback, text);
    assert (c.log + [Message(User, text)])[1..] == c.log[1..] + [Message(User, text)];
  }

  /** Showing a reply to the oldest queued text and dequeueing it keeps the invariant. */
  lemma AnswerKeepsValid(c: Chat, rules: seq<Rule>, fallback: string, reply: string)
    requires ValidUnder(c, rules, fallback) && c.pending != []
    requires IsReplyTo(rules, fallback, c.pending[0], reply)
    ensures ValidUnder(Chat(c.log + [Message(Bot, reply)], c.pending[1..]), rules, fallback)
  {
    AnswerKeepsAnswered(c.log[1..], c.pending, rules, fallback, reply);
    assert (c.log + [Message(Bot, reply)])[1..] == c.log[1..] + [Message(Bot, reply)];
  }

  lemma SendValid(c: Chat, raw: string)
    requires Valid(c)
    ensures Valid(Send(c, raw))
  {
    if !AllSpace(raw) {
      var text := Strip(raw);
      AskKeepsValid(c, Table, DefaultReply, text);
      assert Send(c, raw) == Chat(c.log + [Message(User, text)], c.pending + [text]);
    }
  }

  lemma DeliverValid(c: Chat, clock: string)
    requires Valid(c) && c.pending != []
    ensures Valid(Deliver(c, clock))
  {
    ReplyIsReplyTo(Table, DefaultReply, c.pending[0], clock);
    AnswerKeepsValid(c, Table, DefaultReply, ReplyFor(c.pending[0], clock));
  }

  /** Every run from a valid chat ends in a valid chat. */
  lemma {:induction false} RunValid(c: Chat, events: seq<Event>)
    requires Valid(c)
    ensures Valid(Run(c, events))
    decreases |events|
  {
    if events != [] {
      StepValid(c, events[0]);
      RunValid(Step(c, events[0]), events[1..]);
    }
  }

  lemma StepValid(c: Chat, e: Event)
    requires Valid(c)
    ensures Valid(Step(c, e))
  {
    match e
    case Submit(raw) => SendValid(c, raw);
    case Tick(clock) => if c.pending != [] { DeliverValid(c, clock); }
  }

  /** The log only grows: a run never removes or rewrites a message. */
  lemma {:induction false} RunAppendOnly(c: Chat, events: seq<Event>)
    ensures c.log <= Run(c, events).log
    decreases |events|
  {
    if events != [] {
      RunAppendOnly(Step(c, events[0]), events[1..]);
    }
  }

  /** Everything the controller can show starts with the welcome message,
      and answers its user messages in the order they were sent. */
  lemma Reachable(events: seq<Event>)
    ensures Valid(Run(Init(), events))
  {
    InitValid();
    RunValid(Init(), events);
  }

  /** With no reply outstanding, one send and its timer append the trimmed
      text and then its reply, which is the reply to the raw text. */
  lemma SendThenDeliver(c: Chat, raw: string, clock: string)
    requires c.pending == [] && !AllSpace(raw)
    ensures Send(c, raw).pending != []
    ensures Deliver(Send(c, raw), clock)
            == Chat(c.log + [Message(User, Strip(raw)), Message(Bot, ReplyFor(raw, clock))], [])
  {
    var text := Strip(raw);
    var c1 := Send(c, raw);
    assert c1.pending == [] + [text];
    assert c1.pending[0] == text;
    ReplyForTrimmed(raw, clock);
    AppendTwo(c.log, Message(User, text), Message(Bot, ReplyFor(raw, clock)));
  }

  /** One timer tick per clock reading. */
  function Ticks(clocks: seq<string>): seq<Event> {
    seq(|clocks|, i requires 0 <= i < |clocks| => Tick(clocks[i]))
  }

  /** The bot messages answering `pending` in order, the i-th at clock reading `clocks[i]`. */
  function Replies(pending: seq<string>, clocks: seq<string>): seq<Message>
    requires |pending| == |clocks|
  {
    seq(|pending|, i requires 0 <= i < |pending| => Message(Bot, ReplyFor(pending[i], clocks[i])))
  }

  lemma TicksFirst(clocks: seq<string>)
    requires clocks != []
    ensures Ticks(clocks) != [] && Ticks(clocks)[0] == Tick(clocks[0])
    ensures Ticks(clocks)[1..] == Ticks(clocks[1..])
  {
  }

  lemma RepliesFirst(pending: seq<string>, clocks: seq<string>)
    requires |pending| == |clocks| && pending != []
    ensures Replies(pending, clocks)
            == [Message(Bot, ReplyFor(pending[0], clocks[0]))] + Replies(pending[1..], clocks[1..])
  {
    var r := Replies(pending, clocks);
    var tail := Replies(pending[1..], clocks[1..]);
    assert forall i :: 0 <= i < |tail| ==> tail[i] == r[i + 1];
    assert r == r[..1] + r[1..];
  }

  /** The first tick of a drain delivers the oldest pending reply. */
  lemma DrainFirst(c: Chat, clocks: seq<string>)
    requires |clocks| == |c.pending| && clocks != []
    ensures Run(c, Ticks(clocks))
            == Run(Chat(c.log + [Message(Bot, ReplyFor(c.pending[0], clocks[0]))], c.pending[1..]), Ticks(clocks[1..]))
  {
    TicksFirst(clocks);
  }

  /** Every scheduled reply is eventually shown: one tick per pending text
      empties the queue and appends the replies in the order the texts were sent. */
  lemma {:induction false} DrainInOrder(c: Chat, clocks: seq<string>)
    requires |clocks| == |c.pending|
    ensures Run(c, Ticks(clocks)) == Chat(c.log + Replies(c.pending, clocks), [])
    decreases |clocks|
  {
    if clocks == [] {
      assert Ticks(clocks) == [];
      assert c.log + Replies(c.pending, clocks) == c.log;
    } else {
      var m := Message(Bot, ReplyFor(c.pending[0], clocks[0]));
      DrainFirst(c, clocks);
      DrainInOrder(Chat(c.log + [m], c.pending[1..]), clocks[1..]);
      RepliesFirst(c.pending, clocks);
      AppendAssoc(c.log, [m], Replies(c.pending[1..], clocks[1..]));
    }
  }
}
