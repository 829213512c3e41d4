/** The chatbot's intent matcher: an ordered table of (trigger phrases,
    response) rules, scanned first to last against the normalised user text,
    with a fixed fallback reply when no rule fires. */
module Intents {
  import opened Text
  import opened Seqs

  /** A rule's response: a fixed string, or the time-of-day reply that is
      computed when the rule fires. */
  datatype Response = Static(text: string) | Computed

  datatype Rule = Rule(phrases: seq<string>, response: Response)

  datatype Option<T> = None | Some(value: T)

  /** The text the computed response puts in front of the formatted clock reading. */
  const TimePrefix: string := "It’s "

  /** A rule fires when any of its phrases occurs in the normalised text. */
  predicate Matches(rule: Rule, t: string) {
    exists k :: k in rule.phrases && Contains(t, k)
  }

  /** The index of the first rule that fires on `t`, if any. */
  function FirstMatch(rules: seq<Rule>, t: string): (r: Option<nat>)
    ensures r.Some? ==> r.value < |rules| && Matches(rules[r.value], t)
    ensures r.Some? ==> forall j :: 0 <= j < r.value ==> !Matches(rules[j], t)
    ensures r.None? <==> forall j :: 0 <= j < |rules| ==> !Matches(rules[j], t)
    decreases |rules|
  {
    if rules == [] then None
    else if Matches(rules[0], t) then Some(0)
    else
      match FirstMatch(rules[1..], t)
      case None => None
      case Some(i) => Some(i + 1)
  }

  /** Resolving a response; `clock` stands for the formatted current time. */
  function Resolve(response: Response, clock: string): string {
    match response
    case Static(s) => s
    case Computed => TimePrefix + clock
  }

  /** `_reply_for` over an arbitrary rule table: the first firing rule's
      response, else the fallback. */
  function Reply(rules: seq<Rule>, fallback: string, userText: string, clock: string): string {
    match FirstMatch(rules, Normalize(userText))
    case None => fallback
    case Some(i) => Resolve(rules[i].response, clock)
  }

  /** The reply is always one of the table's static responses, the time reply, or the fallback. */
  lemma ReplyRange(rules: seq<Rule>, fallback: string, userText: string, clock: string)
    ensures var r := Reply(rules, fallback, userText, clock);
            || r == fallback
            || r == TimePrefix + clock
            || exists i :: 0 <= i < |rules| && rules[i].response == Static(r)
  {
  }

  /** A rule that fires after no earlier rule did is the first match. */
  lemma FirstMatchAt(rules: seq<Rule>, t: string, i: nat)
    requires i < |rules| && Matches(rules[i], t)
    requires forall j :: 0 <= j < i ==> !Matches(rules[j], t)
    ensures FirstMatch(rules, t) == Some(i)
  {
    var m := FirstMatch(rules, t);
    assert m.Some?;
    assert !(m.value < i) && !(m.value > i);
  }

  /** The rule whose phrase occurs first in the table order decides the reply. */
  lemma FirstMatchWins(rules: seq<Rule>, fallback: string, userText: string, clock: string, i: nat)
    requires i < |rules| && Matches(rules[i], Normalize(userText))
    requires forall j :: 0 <= j < i ==> !Matches(rules[j], Normalize(userText))
    ensures Reply(rules, fallback, userText, clock) == Resolve(rules[i].response, clock)
  {
    FirstMatchAt(rules, Normalize(userText), i);
  }

  /** When no rule fires the reply is the fallback. */
  lemma NoMatchFallback(rules: seq<Rule>, fallback: string, userText: string, clock: string)
    requires forall j :: 0 <= j < |rules| ==> !Matches(rules[j], Normalize(userText))
    ensures Reply(rules, fallback, userText, clock) == fallback
  {
  }

  /** Python's `any(k in t for k in keys)`, stopping at the first hit. */
  method AnyPhrase(keys: seq<string>, t: string) returns (hit: bool)
    ensures hit <==> exists k :: k in keys && Contains(t, k)
  {
    hit := false;
    var n := 0;
    while n < |keys| && !hit
      invariant 0 <= n <= |keys|
      invariant hit <==> exists m :: 0 <= m < n && Contains(t, keys[m])
    {
      hit := Contains(t, keys[n]);
      n := n + 1;
    }
  }

  /** The scan of `_reply_for`'s loop: the index of the first rule whose
      phrases hit the normalised text. */
  method FirstHit(rules: seq<Rule>, t: string) returns (m: Option<nat>)
    ensures m == FirstMatch(rules, t)
  {
    for i := 0 to |rules|
      invariant forall j :: 0 <= j < i ==> !Matches(rules[j], t)
    {
      var hit := AnyPhrase(rules[i].phrases, t);
      assert hit <==> Matches(rules[i], t);
      if hit {
        FirstMatchAt(rules, t, i);
        return Some(i);
      }
    }
    m := None;
  }

  /** `_reply_for` written as the source writes it: a loop over the rules
      that returns the response of the first rule whose phrases hit. */
  method MatchReply(rules: seq<Rule>, fallback: string, userText: string, clock: string) returns (r: string)
    ensures r == Reply(rules, fallback, userText, clock)
  {
    var m := FirstHit(rules, Normalize(userText));
    match m
    case None => r := fallback;
    case Some(i) => r := Resolve(rules[i].response, clock);
  }

  /** A reply `reply` is one the matcher can give to `userText` at some time:
      decided without knowing the clock. */
  predicate IsReplyTo(rules: seq<Rule>, fallback: string, userText: string, reply: string) {
    match FirstMatch(rules, Normalize(userText))
    case None => reply == fallback
    case Some(i) =>
      match rules[i].response
      case Static(s) => reply == s
      case Computed => TimePrefix <= reply
  }

  lemma ReplyIsReplyTo(rules: seq<Rule>, fallback: string, userText: string, clock: string)
    ensures IsReplyTo(rules, fallback, userText, Reply(rules, fallback, userText, clock))
  {
  }

  /** `IsReplyTo` holds exactly of the replies the matcher gives at some clock reading. */
  lemma IsReplyToIffSomeClock(rules: seq<Rule>, fallback: string, userText: string, reply: string)
    ensures IsReplyTo(rules, fallback, userText, reply) <==> exists clock :: Reply(rules, fallback, userText, clock) == reply
  {
    if IsReplyTo(rules, fallback, userText, reply) {
      ClockOfReply(rules, fallback, userText, reply);
    }
    forall clock | Reply(rules, fallback, userText, clock) == reply
      ensures IsReplyTo(rules, fallback, userText, reply)
    {
      ReplyIsReplyTo(rules, fallback, userText, clock);
    }
  }

  /** The clock reading a time reply was formatted from. */
  function ClockOf(reply: string): string {
    if TimePrefix <= reply then reply[|TimePrefix|..] else ""
  }

  /** A reply the relation accepts is produced at the clock reading it shows. */
  lemma ClockOfReply(rules: seq<Rule>, fallback: string, userText: string, reply: string)
    requires IsReplyTo(rules, fallback, userText, reply)
    ensures Reply(rules, fallback, userText, ClockOf(reply)) == reply
  {
    if TimePrefix <= reply {
      PrefixSplit(TimePrefix, reply);
    }
  }

  // ---------------------------------------------------------------------
  // The chatbot's own table

  const Greeting: string := "Hello! How can I help you today?"
  const Doing: string := "I’m doing great! What can I do for you?"
  const WhoAmI: string := "I’m a Tkinter chatbot with a sleek dark UI."
  const Farewell: string := "See you later!"
  const DefaultReply: string := "Hmm, I didn’t quite catch that. Try rephrasing?"

  const Table: seq<Rule> := [
    Rule(["hello", "hi", "hey"], Static(Greeting)),
    Rule(["how are", "how’s it going"], Static(Doing)),
    Rule(["your name", "who are you"], Static(WhoAmI)),
    Rule(["time", "date"], Computed),
    Rule(["bye", "goodbye", "exit"], Static(Farewell))
  ]

  /** The chatbot's `_reply_for`. */
  function ReplyFor(userText: string, clock: string): string {
    Reply(Table, DefaultReply, userText, clock)
  }

  /** The chatbot's reply is one of its four static responses, the fallback,
      or the time reply. */
  lemma ReplyForRange(userText: string, clock: string)
    ensures var r := ReplyFor(userText, clock);
            r == Greeting || r == Doing || r == WhoAmI || r == Farewell || r == DefaultReply
            || r == TimePrefix + clock
  {
    var m := FirstMatch(Table, Normalize(userText));
    if m.Some? {
      TableResponse(m.value, clock);
    }
  }

  /** What each rule of the table answers. */
  lemma TableResponse(i: nat, clock: string)
    requires i < |Table|
    ensures var r := Resolve(Table[i].response, clock);
            r == Greeting || r == Doing || r == WhoAmI || r == Farewell || r == TimePrefix + clock
  {
  }

  /** The fallback is shown exactly when no rule of the table fires. */
  lemma DefaultIffNoMatch(userText: string, clock: string)
    ensures ReplyFor(userText, clock) == DefaultReply
            <==> forall j :: 0 <= j < |Table| ==> !Matches(Table[j], Normalize(userText))
  {
    var m := FirstMatch(Table, Normalize(userText));
    if m.Some? {
      ResponsesDifferFromFallback(m.value, clock);
    }
  }

  /** No rule of the table answers with the fallback text. */
  lemma ResponsesDifferFromFallback(i: nat, clock: string)
    requires i < |Table|
    ensures Resolve(Table[i].response, clock) != DefaultReply
  {
    if i == 3 {
      if DefaultReply == TimePrefix + clock {
        assert DefaultReply[0] == (TimePrefix + clock)[0];
        FallbackStartsWithH();
      }
    } else {
      assert |Resolve(Table[i].response, clock)| != |DefaultReply|;
    }
  }

  lemma FallbackStartsWithH()
    ensures DefaultReply[0] == 'H'
  {
    var a, b := "Hmm, I didn’t quite catch", " that. Try rephrasing?";
    assert DefaultReply == a + b;
    assert (a + b)[0] == a[0];
  }

  /** Matching is by substring: any text whose normal form contains "hi"
      (such as "this") is greeted. */
  lemma HiAnywhereGreets(userText: string, clock: string)
    requires IsSubstring("hi", Normalize(userText))
    ensures ReplyFor(userText, clock) == Greeting
  {
    ContainsIsSubstring(Normalize(userText), "hi");
    assert Matches(Table[0], Normalize(userText)) by {
      assert "hi" in Table[0].phrases;
    }
    FirstMatchWins(Table, DefaultReply, userText, clock, 0);
  }

  /** A rule whose every phrase holds a character the text lacks does not fire. */
  lemma RuleMissesWithout(rule: Rule, t: string, c: char)
    requires c !in t
    requires forall k :: k in rule.phrases ==> c in k
    ensures !Matches(rule, t)
  {
    forall k | k in rule.phrases
      ensures !Contains(t, k)
    {
      AbsentChar(k, t, c);
    }
  }

  /** The reply to a text, read off its normal form `n` and the first rule firing on it. */
  lemma ReplyByNormalForm(userText: string, n: string, clock: string, i: nat)
    requires Normalize(userText) == n
    requires i < |Table| && Matches(Table[i], n)
    requires forall j :: 0 <= j < i ==> !Matches(Table[j], n)
    ensures ReplyFor(userText, clock) == Resolve(Table[i].response, clock)
  {
    FirstMatchWins(Table, DefaultReply, userText, clock, i);
  }

  /** Any greeting phrase anywhere in the normalised text yields the greeting. */
  lemma GreetingPhraseGreets(userText: string, clock: string, k: string)
    requires k in Table[0].phrases && IsSubstring(k, Normalize(userText))
    ensures ReplyFor(userText, clock) == Greeting
  {
    ContainsIsSubstring(Normalize(userText), k);
    assert Matches(Table[0], Normalize(userText));
    FirstMatchWins(Table, DefaultReply, userText, clock, 0);
  }

  /** The reply depends on the user text only through its normal form. */
  lemma SameNormalSameReply(a: string, b: string, clock: string)
    requires Normalize(a) == Normalize(b)
    ensures ReplyFor(a, clock) == ReplyFor(b, clock)
  {
  }

  /** Trimming the text before matching, as the send step does, never changes the reply. */
  lemma ReplyForTrimmed(s: string, clock: string)
    ensures ReplyFor(Strip(s), clock) == ReplyFor(s, clock)
  {
    NormalizeTrimmed(s);
    SameNormalSameReply(Strip(s), s, clock);
  }

  /** Letter case and surrounding white space never change the reply. */
  lemma ReplyIgnoresCaseAndPadding(a: string, b: string, w1: string, w2: string, clock: string)
    requires SameUpToCase(a, b) && AllSpace(w1) && AllSpace(w2)
    ensures ReplyFor(w1 + a + w2, clock) == ReplyFor(b, clock)
  {
    NormalizePadding(w1, a, w2);
    NormalizeIgnoresCase(a, b);
  }
}
