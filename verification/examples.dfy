/** The chatbot's table on concrete inputs. Each example first settles the
    text's normal form from its characters, then reads the reply off the table.
    The text is a parameter pinned by `requires s == "…"` rather than a literal
    written into the `ensures`: the solver then meets the literal only in the
    small lemmas about characters, not next to the unfolding of `ReplyFor`,
    which keeps each proof cheap. */
module Examples {
  import opened Text
  import opened Intents

  /** "this" contains "hi", so it is greeted. */
  lemma ExampleThis(s: string, clock: string)
    requires s == "this"
    ensures ReplyFor(s, clock) == Greeting
  {
    PhraseInNormal(s, "hi", 1);
    HiAnywhereGreets(s, clock);
  }

  /** The greeting rule comes before the time rule. */
  lemma ExampleGreetingBeforeTime(s: string, clock: string)
    requires s == "hi, what time is it"
    ensures ReplyFor(s, clock) == Greeting
  {
    PhraseInNormal(s, "hi", 0);
    HiAnywhereGreets(s, clock);
  }

  lemma ExampleHello(s: string, clock: string)
    requires s == "hello there"
    ensures ReplyFor(s, clock) == Greeting
  {
    PhraseInNormal(s, "hello", 0);
    GreetingPhraseGreets(s, clock, "hello");
  }

  /** Upper-case input is answered as its lower-case form. */
  lemma ExampleShouting(s: string, clock: string)
    requires s == "HELLO"
    ensures ReplyFor(s, clock) == Greeting
  {
    ShoutingFacts(s);
    GreetingPhraseGreets(s, clock, "hello");
  }

  lemma ShoutingFacts(s: string)
    requires s == "HELLO"
    ensures IsSubstring("hello", Normalize(s))
  {
    var n := "hello";
    OccursAtChars("hello", n, 0);
    assert Lower(s) == n;
    StripUnpadded(n);
  }

  lemma ExampleUnrecognised(s: string, clock: string)
    requires s == "asdkfj"
    ensures ReplyFor(s, clock) == DefaultReply
  {
    UnrecognisedFacts(s);
    NoRuleFires(Normalize(s));
    NoMatchFallback(Table, DefaultReply, s, clock);
  }

  lemma UnrecognisedFacts(s: string)
    requires s == "asdkfj"
    ensures 'h' !in Normalize(s) && 'o' !in Normalize(s) && 't' !in Normalize(s) && 'e' !in Normalize(s)
  {
    assert 'h' !in s && 'o' !in s && 't' !in s && 'e' !in s;
    AlreadyNormal(s);
  }

  /** No rule fires on a text lacking 'h', 'o', 't' and 'e': every phrase holds one of them. */
  lemma NoRuleFires(n: string)
    requires 'h' !in n && 'o' !in n && 't' !in n && 'e' !in n
    ensures forall j :: 0 <= j < |Table| ==> !Matches(Table[j], n)
  {
    RuleMissesWithout(Table[0], n, 'h');
    RuleMissesWithout(Table[1], n, 'h');
    RuleMissesWithout(Table[2], n, 'o');
    RuleMissesWithout(Table[3], n, 't');
    RuleMissesWithout(Table[4], n, 'e');
  }

  /** A time request is answered with the clock reading of the moment. */
  lemma ExampleTime(s: string, clock: string)
    requires s == "TIME please"
    ensures ReplyFor(s, clock) == TimePrefix + clock
  {
    TimeFacts(s);
    TimeRuleFires(Normalize(s));
    ReplyByNormalForm(s, Normalize(s), clock, 3);
  }

  lemma TimeFacts(s: string)
    requires s == "TIME please"
    ensures OccursAt("time", Normalize(s), 0)
    ensures 'h' !in Normalize(s) && 'o' !in Normalize(s)
  {
    var n := "time please";
    OccursAtChars("time", n, 0);
    assert 'h' !in n && 'o' !in n;
    assert Lower(s) == n;
    StripUnpadded(n);
  }

  /** The time rule is the first to fire on a text holding "time" but no 'h' or 'o'. */
  lemma TimeRuleFires(n: string)
    requires OccursAt("time", n, 0) && 'h' !in n && 'o' !in n
    ensures forall j :: 0 <= j < 3 ==> !Matches(Table[j], n)
    ensures Matches(Table[3], n)
  {
    RuleMissesWithout(Table[0], n, 'h');
    RuleMissesWithout(Table[1], n, 'h');
    RuleMissesWithout(Table[2], n, 'o');
    ContainsIsSubstring(n, "time");
  }

  lemma ExampleBye(s: string, clock: string)
    requires s == "bye"
    ensures ReplyFor(s, clock) == Farewell
  {
    ByeFacts(s);
    ByeRuleFires(Normalize(s));
    ReplyByNormalForm(s, Normalize(s), clock, 4);
  }

  lemma ByeFacts(s: string)
    requires s == "bye"
    ensures OccursAt("bye", Normalize(s), 0)
    ensures 'h' !in Normalize(s) && 'o' !in Normalize(s) && 't' !in Normalize(s)
  {
    OccursAtChars("bye", s, 0);
    assert 'h' !in s && 'o' !in s && 't' !in s;
    AlreadyNormal(s);
  }

  /** The farewell rule is the first to fire on a text holding "bye" but no 'h', 'o' or 't'. */
  lemma ByeRuleFires(n: string)
    requires OccursAt("bye", n, 0) && 'h' !in n && 'o' !in n && 't' !in n
    ensures forall j :: 0 <= j < 4 ==> !Matches(Table[j], n)
    ensures Matches(Table[4], n)
  {
    RuleMissesWithout(Table[0], n, 'h');
    RuleMissesWithout(Table[1], n, 'h');
    RuleMissesWithout(Table[2], n, 'o');
    RuleMissesWithout(Table[3], n, 't');
    ContainsIsSubstring(n, "bye");
  }
}
