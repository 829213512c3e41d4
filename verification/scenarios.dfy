/** The controller on concrete event sequences. As in `Examples`, concrete
    texts are parameters pinned by `requires`, which keeps the literals away
    from the unfolding of `ReplyFor`. */
module Scenarios {
  import opened Text
  import opened Intents
  import opened Conversation
  import opened Examples
  import opened Seqs

  /** Sending text that is already trimmed shows it and schedules its reply. */
  lemma SendTrimmed(c: Chat, s: string)
    requires s != [] && Strip(s) == s
    ensures Send(c, s) == Chat(c.log + [Message(User, s)], c.pending + [s])
  {
  }

  /** Two sends in a row show both texts and queue both replies. */
  lemma TwoSends(c: Chat, a: string, b: string)
    requires a != [] && Strip(a) == a && b != [] && Strip(b) == b
    ensures Send(Send(c, a), b) == Chat(c.log + [Message(User, a), Message(User, b)], c.pending + [a, b])
  {
    SendTrimmed(c, a);
    SendTrimmed(Send(c, a), b);
    assert c.log + [Message(User, a)] + [Message(User, b)] == c.log + [Message(User, a), Message(User, b)];
    assert c.pending + [a] + [b] == c.pending + [a, b];
  }

  /** Two timers firing with two replies queued show both replies, oldest first. */
  lemma TwoDeliveries(c: Chat, clock1: string, clock2: string)
    requires |c.pending| == 2
    ensures Deliver(c, clock1).pending != []
    ensures Deliver(Deliver(c, clock1), clock2)
            == Chat(c.log + [Message(Bot, ReplyFor(c.pending[0], clock1))]
                          + [Message(Bot, ReplyFor(c.pending[1], clock2))], [])
  {
    assert Deliver(c, clock1).pending[0] == c.pending[1];
  }

  /** Two sends before the first timer fires: both user messages are shown
      before either reply, and the replies then follow in the order of the sends. */
  lemma TwoQuickSends(c: Chat, a: string, b: string, clock1: string, clock2: string)
    requires c.pending == []
    requires a != [] && Strip(a) == a && b != [] && Strip(b) == b
    ensures Run(c, [Submit(a), Submit(b), Tick(clock1), Tick(clock2)])
            == Chat(c.log + [Message(User, a), Message(User, b),
                             Message(Bot, ReplyFor(a, clock1)), Message(Bot, ReplyFor(b, clock2))], [])
  {
    TwoSends(c, a, b);
    TwoDeliveries(Chat(c.log + [Message(User, a), Message(User, b)], [a, b]), clock1, clock2);
    AppendAfterTwo(c.log, Message(User, a), Message(User, b),
                   Message(Bot, ReplyFor(a, clock1)), Message(Bot, ReplyFor(b, clock2)));
    RunFour(c, Submit(a), Submit(b), Tick(clock1), Tick(clock2));
  }

  /** Waiting for each reply before sending again alternates user and bot messages. */
  lemma TwoPatientSends(c: Chat, a: string, b: string, clock1: string, clock2: string)
    requires c.pending == []
    requires a != [] && Strip(a) == a && b != [] && Strip(b) == b
    ensures Run(c, [Submit(a), Tick(clock1), Submit(b), Tick(clock2)])
            == Chat(c.log + [Message(User, a), Message(Bot, ReplyFor(a, clock1)),
                             Message(User, b), Message(Bot, ReplyFor(b, clock2))], [])
  {
    SendThenDeliver(c, a, clock1);
    var c2 := Chat(c.log + [Message(User, a), Message(Bot, ReplyFor(a, clock1))], []);
    SendThenDeliver(c2, b, clock2);
    AppendPairs(c.log, Message(User, a), Message(Bot, ReplyFor(a, clock1)),
                Message(User, b), Message(Bot, ReplyFor(b, clock2)));
    RunFour(c, Submit(a), Tick(clock1), Submit(b), Tick(clock2));
  }

  /** `TwoQuickSends` with the two replies named. */
  lemma QuickWith(c: Chat, a: string, b: string, clock1: string, clock2: string, ra: string, rb: string)
    requires c.pending == []
    requires a != [] && Strip(a) == a && b != [] && Strip(b) == b
    requires ReplyFor(a, clock1) == ra && ReplyFor(b, clock2) == rb
    ensures Run(c, [Submit(a), Submit(b), Tick(clock1), Tick(clock2)])
            == Chat(c.log + [Message(User, a), Message(User, b), Message(Bot, ra), Message(Bot, rb)], [])
  {
    TwoQuickSends(c, a, b, clock1, clock2);
  }

  /** `TwoPatientSends` with the two replies named. */
  lemma PatientWith(c: Chat, a: string, b: string, clock1: string, clock2: string, ra: string, rb: string)
    requires c.pending == []
    requires a != [] && Strip(a) == a && b != [] && Strip(b) == b
    requires ReplyFor(a, clock1) == ra && ReplyFor(b, clock2) == rb
    ensures Run(c, [Submit(a), Tick(clock1), Submit(b), Tick(clock2)])
            == Chat(c.log + [Message(User, a), Message(Bot, ra), Message(User, b), Message(Bot, rb)], [])
  {
    TwoPatientSends(c, a, b, clock1, clock2);
  }

  /** "bye" is sent as typed and answered with the farewell. */
  lemma ByeReady(a: string, clock: string)
    requires a == "bye"
    ensures a != [] && Strip(a) == a && ReplyFor(a, clock) == Farewell
  {
    StripUnpadded(a);
    ExampleBye(a, clock);
  }

  /** "hi" is sent as typed and answered with the greeting. */
  lemma HiReady(b: string, clock: string)
    requires b == "hi"
    ensures b != [] && Strip(b) == b && ReplyFor(b, clock) == Greeting
  {
    StripUnpadded(b);
    PhraseInNormal(b, "hi", 0);
    HiAnywhereGreets(b, clock);
  }

  /** "bye" then "hi" sent quickly: both questions, then both answers. */
  lemma QuickByeHi(c: Chat, a: string, b: string, clock1: string, clock2: string)
    requires c.pending == [] && a == "bye" && b == "hi"
    ensures Run(c, [Submit(a), Submit(b), Tick(clock1), Tick(clock2)])
            == Chat(c.log + [Message(User, a), Message(User, b),
                             Message(Bot, Farewell), Message(Bot, Greeting)], [])
  {
    ByeReady(a, clock1);
    HiReady(b, clock2);
    QuickWith(c, a, b, clock1, clock2, Farewell, Greeting);
  }

  /** "bye" then "hi", each after the previous reply: strict alternation. */
  lemma PatientByeHi(c: Chat, a: string, b: string, clock1: string, clock2: string)
    requires c.pending == [] && a == "bye" && b == "hi"
    ensures Run(c, [Submit(a), Tick(clock1), Submit(b), Tick(clock2)])
            == Chat(c.log + [Message(User, a), Message(Bot, Farewell),
                             Message(User, b), Message(Bot, Greeting)], [])
  {
    ByeReady(a, clock1);
    HiReady(b, clock2);
    PatientWith(c, a, b, clock1, clock2, Farewell, Greeting);
  }

  /** A blank submission shows nothing and schedules nothing, and a tick
      with no reply pending changes nothing either. */
  lemma BlankSubmitIgnored(raw: string, clock: string)
    requires raw == " \t\n"
    ensures Run(Init(), [Submit(raw), Tick(clock)]) == Init()
  {
    assert AllSpace(raw);
    assert Run(Init(), [Submit(raw), Tick(clock)]) == Run(Init(), [Tick(clock)]);
  }

  lemma RunFour(c: Chat, e1: Event, e2: Event, e3: Event, e4: Event)
    ensures Run(c, [e1, e2, e3, e4]) == Step(Step(Step(Step(c, e1), e2), e3), e4)
  {
    var c1 := Step(c, e1);
    var c2 := Step(c1, e2);
    var c3 := Step(c2, e3);
    RunFirst(c, [e1, e2, e3, e4]);
    RunFirst(c1, [e2, e3, e4]);
    RunFirst(c2, [e3, e4]);
    RunFirst(c3, [e4]);
  }

  lemma RunFirst(c: Chat, events: seq<Event>)
    requires events != []
    ensures Run(c, events) == Run(Step(c, events[0]), events[1..])
  {
  }
}
