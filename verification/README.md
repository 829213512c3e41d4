# Offline chatbot: intent matcher and conversation controller

This project models the logic of a small offline desktop chatbot, `chatbot.py`.
The window, its widgets and its styling are not modelled. Two parts are:

- **The intent matcher.** `_reply_for` lower-cases and trims the user's text. It then
  scans an ordered table of (trigger phrases, response) rules. The first rule with a
  phrase occurring as a substring of the text decides the reply. One rule's response
  is computed: the current time. When no rule fires, the reply is a fixed fallback text.
- **The conversation controller.** The window opens with a welcome message. `on_send`
  trims the input and ignores it when it is blank. Otherwise it shows the trimmed text
  as a user message at once and schedules the bot's reply on a 120 ms timer.

Modules, one per file:

- `Text` (`text.dfy`): Python's `str.lower()`, `str.strip()` and substring test `k in t`.
  Covers their laws: strip removes exactly the surrounding white space, normalisation is
  idempotent, and case and padding do not matter.
- `Intents` (`intents.dfy`): rules, first-match selection, and the reply over any rule
  table, both as a function and as the source's loop. Also the chatbot's own table, its
  fallback, and the properties of `_reply_for` on that table.
- `Examples` (`examples.dfy`): the matcher's table on concrete inputs.
- `Conversation` (`conversation.dfy`): the message log, the queue of replies whose timer
  has not fired, the send and delivery steps, runs of events, and the invariant every
  reachable chat keeps.
- `Scenarios` (`scenarios.dfy`): the controller on concrete event sequences.
- `Seqs` (`seqs.dfy`): concatenation laws for sequences, used by the other modules' proofs.

The clock is a parameter. `clock` stands for the string that
`datetime.now().strftime('%Y-%m-%d %H:%M')` returns at the moment the reply is computed.
The time reply is `"It’s " + clock`. The reply timer is modelled as a first-in first-out
queue. A `Tick(clock)` event is the oldest pending timer firing at that clock reading.

## Model

| member | source | states |
|---|---|---|
| Text.IsSpace | chatbot.py:174 | no contract of its own: the characters Python's `str.isspace()` accepts, the set `strip()` removes; Text.Strip and Text.StripPadding state its role |
| Text.Lower | chatbot.py:174 | no contract of its own: `lower()` on ASCII letters; Text.LowerAppend, Text.LowerIsLower and Text.LowerOfLower state its behaviour |
| Text.LowerIsLower | chatbot.py:174 | the result of lower-casing holds no upper-case letter |
| Text.LowerOfLower | chatbot.py:174 | lower-casing a text with no upper-case letter returns it unchanged |
| Text.StripLeading | chatbot.py:174 | the result is the suffix of the text left after a run of white space, and does not itself start with white space |
| Text.StripTrailing | chatbot.py:174 | the result is the prefix of the text left before a run of white space, and does not itself end with white space |
| Text.Strip | chatbot.py:182 | the stripped text sits inside the input with only white space around it, neither starts nor ends with white space, and is empty exactly when the input is all white space |
| Text.StripPadding | chatbot.py:182 | white space added on either side of a text does not change what `strip()` returns |
| Text.LeadingPad | chatbot.py:182 | white space added in front does not change what stripping the front returns |
| Text.TrailingPad | chatbot.py:182 | white space added behind does not change what stripping both ends returns |
| Text.StripIdempotent | chatbot.py:182 | stripping twice is stripping once |
| Text.StripUnpadded | chatbot.py:182 | a text that neither starts nor ends with white space is returned unchanged by `strip()` |
| Text.OccursAtChars | chatbot.py:176 | a phrase whose characters match the text from some position on occurs there |
| Text.PhraseInNormal | chatbot.py:174-176 | a phrase found in a text that is already lower-case and trimmed is found in its normal form |
| Text.Contains | chatbot.py:176 | no contract of its own: the substring test `k in t`; Text.ContainsIsSubstring and Text.AbsentChar state its behaviour |
| Text.ContainsIsSubstring | chatbot.py:176 | the left-to-right substring scan answers true exactly when the phrase occurs at some position of the text |
| Text.AbsentChar | chatbot.py:176 | if a character of the phrase does not occur in the text, the substring scan answers false |
| Text.LowerAppend | chatbot.py:174 | lower-casing distributes over concatenation |
| Text.LowerSlice | chatbot.py:174 | every slice of a lower-case text is lower-case |
| Text.StripKeepsLower | chatbot.py:174 | trimming a lower-case text leaves it lower-case |
| Text.Normalize | chatbot.py:174 | no contract of its own: `user_text.lower().strip()`; Text.NormalizeIdempotent, Text.NormalizePadding, Text.NormalizeIgnoresCase and Text.AlreadyNormal state its behaviour |
| Text.NormalizeIdempotent | chatbot.py:174 | lower-casing and trimming an already normalised text changes nothing |
| Text.NormalizePadding | chatbot.py:174 | white space around the user's text does not change its normal form |
| Text.NormalizeTrimmed | chatbot.py:182-187 | the normal form of the trimmed text that `on_send` passes on equals the normal form of the raw input |
| Text.NormalizeIgnoresCase | chatbot.py:174 | two texts that differ only in letter case have the same normal form |
| Text.AlreadyNormal | chatbot.py:174 | a text with no upper-case letter and no surrounding white space is its own normal form |
| Intents.Matches | chatbot.py:176 | no contract of its own: `any(k in t for k in keys)`; Intents.AnyPhrase proves the source's short-circuiting loop agrees with it |
| Intents.Resolve | chatbot.py:177 | no contract of its own: `reply() if callable(reply) else reply`; Intents.TableResponse and Intents.ReplyRange state what it yields |
| Intents.Reply | chatbot.py:173-178 | no contract of its own: `_reply_for` over any rule table; Intents.FirstMatchWins, Intents.NoMatchFallback, Intents.ReplyRange and Intents.MatchReply state its behaviour |
| Intents.ReplyFor | chatbot.py:173-178 | no contract of its own: `_reply_for` with the chatbot's table; Intents.FirstMatchWins, Intents.NoMatchFallback, Intents.ReplyForRange and Intents.DefaultIffNoMatch state its behaviour |
| Intents.FirstMatch | chatbot.py:175-177 | the selected rule fires on the text and no earlier rule does; there is no selection exactly when no rule fires |
| Intents.ReplyRange | chatbot.py:173-178 | the reply is always the fallback, the time reply, or the static response of some rule |
| Intents.FirstMatchAt | chatbot.py:175-177 | a rule that fires, with no earlier rule firing, is the one selected |
| Intents.FirstMatchWins | chatbot.py:175-177 | the earliest rule that fires decides the reply, whatever later rules would say |
| Intents.NoMatchFallback | chatbot.py:178 | when no rule fires, the reply is the fallback |
| Intents.AnyPhrase | chatbot.py:176 | `any(k in t for k in keys)` is true exactly when some phrase occurs in the text |
| Intents.FirstHit | chatbot.py:175-177 | the loop over the rules, stopping at the first one whose phrases occur, finds the same rule as the first-match definition, or none exactly when none fires |
| Intents.MatchReply | chatbot.py:173-178 | the source's loop over the rules returns the same reply as the first-match definition |
| Intents.ReplyIsReplyTo | chatbot.py:175-178 | every reply the matcher gives is one that the clock-independent reply relation accepts |
| Intents.IsReplyToIffSomeClock | chatbot.py:96-99 | the clock-independent reply relation accepts a reply exactly when some clock reading produces it |
| Intents.ClockOfReply | chatbot.py:96 | a reply the reply relation accepts is produced by an explicit clock reading: the text after `"It’s "` for a time reply, any reading otherwise |
| Intents.ReplyForRange | chatbot.py:92-99 | the chatbot's reply is one of its four static responses, the fallback, or `"It’s "` followed by the clock reading |
| Intents.TableResponse | chatbot.py:93-97 | every rule of the chatbot's table answers with one of its four static responses or the time reply |
| Intents.DefaultIffNoMatch | chatbot.py:92-99 | the fallback is shown exactly when no rule of the table fires on the normalised text |
| Intents.ResponsesDifferFromFallback | chatbot.py:93-99 | no rule of the table answers with the fallback text |
| Intents.HiAnywhereGreets | chatbot.py:93 | any text whose normal form contains "hi", for example "this", is greeted |
| Intents.RuleMissesWithout | chatbot.py:176 | a rule whose every phrase holds a character that the text lacks does not fire |
| Intents.ReplyByNormalForm | chatbot.py:174-177 | the reply is read off the normal form and the first rule that fires on it |
| Intents.GreetingPhraseGreets | chatbot.py:93 | any greeting phrase anywhere in the normalised text yields the greeting |
| Intents.SameNormalSameReply | chatbot.py:174 | texts with the same normal form get the same reply |
| Intents.ReplyForTrimmed | chatbot.py:182-187 | replying to the trimmed text gives the same answer as replying to the raw input |
| Intents.ReplyIgnoresCaseAndPadding | chatbot.py:174 | letter case and surrounding white space never change the reply |
| Examples.ExampleThis | chatbot.py:93 | "this" is answered with the greeting |
| Examples.ExampleGreetingBeforeTime | chatbot.py:93-96 | "hi, what time is it" is answered with the greeting, because the greeting rule comes before the time rule |
| Examples.ExampleHello | chatbot.py:93 | "hello there" is answered with the greeting |
| Examples.ExampleShouting | chatbot.py:93 | "HELLO" is answered with the greeting |
| Examples.ShoutingFacts | chatbot.py:174 | the normal form of "HELLO" contains "hello" |
| Examples.ExampleUnrecognised | chatbot.py:99 | "asdkfj" is answered with the fallback |
| Examples.UnrecognisedFacts | chatbot.py:174 | none of the letters h, o, t and e occurs in the normal form of "asdkfj" |
| Examples.NoRuleFires | chatbot.py:93-97 | no rule of the table fires on a text lacking h, o, t and e: each of its phrases holds one of them |
| Examples.ExampleTime | chatbot.py:96 | "TIME please" is answered with `"It’s "` and the clock reading |
| Examples.TimeFacts | chatbot.py:174 | the normal form of "TIME please" starts with "time", and neither h nor o occurs in it |
| Examples.TimeRuleFires | chatbot.py:93-96 | a text starting with "time" and lacking h and o fires the time rule, the fourth of the table, and no earlier rule |
| Examples.ExampleBye | chatbot.py:97 | "bye" is answered with "See you later!" |
| Examples.ByeFacts | chatbot.py:174 | the normal form of "bye" starts with "bye", and none of h, o and t occurs in it |
| Examples.ByeRuleFires | chatbot.py:93-97 | a text starting with "bye" and lacking h, o and t fires the farewell rule, the fifth of the table, and no earlier rule |
| Conversation.Send | chatbot.py:180-186 | blank input leaves the chat unchanged, and only blank input does; other input appends its trimmed text to the log as a user message and to the reply queue |
| Conversation.Deliver | chatbot.py:187 | a firing timer keeps the log as a prefix and appends exactly one bot message, the reply to the oldest queued text; that text leaves the queue |
| Conversation.Init | chatbot.py:102 | no contract of its own: the opening chat, the welcome message alone with nothing pending; Conversation.InitValid and Conversation.Reachable state its role |
| Conversation.Step | chatbot.py:180-187 | no contract of its own: a submission runs `on_send`, a tick fires the oldest reply timer; Conversation.StepValid states what it keeps |
| Conversation.Run | chatbot.py:180-187 | no contract of its own: the events applied in order; Conversation.RunValid, Conversation.RunAppendOnly and Conversation.DrainInOrder state its behaviour |
| Conversation.InitValid | chatbot.py:102 | the opening chat, holding only the welcome message, satisfies the conversation invariant |
| Conversation.PairedAsk | chatbot.py:186-187 | a new question joins the end of the unanswered queue and leaves the earlier question-answer pairs as they were |
| Conversation.PairedAnswer | chatbot.py:187 | an accepted reply to the oldest unanswered question pairs with it and removes it from the queue |
| Conversation.BalancedAppend | chatbot.py:166-170 | a user message, or a bot message while some question is unanswered, never puts the answers ahead of the questions |
| Conversation.AskKeepsAnswered | chatbot.py:186-187 | a new user message keeps the earlier answers paired with their questions and becomes the newest unanswered text |
| Conversation.AnswerKeepsAnswered | chatbot.py:187 | a bot message answering the oldest unanswered text keeps answers paired with questions in order |
| Conversation.AskKeepsValid | chatbot.py:186-187 | for any rule table, a user message queued for reply keeps the conversation invariant |
| Conversation.AnswerKeepsValid | chatbot.py:187 | for any rule table, a bot message answering the oldest queued text keeps the conversation invariant |
| Conversation.SendValid | chatbot.py:180-187 | a send keeps the conversation invariant |
| Conversation.DeliverValid | chatbot.py:187 | a delivered reply keeps the conversation invariant |
| Conversation.StepValid | chatbot.py:180-187 | any single event keeps the conversation invariant |
| Conversation.RunValid | chatbot.py:180-187 | any sequence of events from a valid chat ends in a valid chat |
| Conversation.Reachable | chatbot.py:102 | every reachable chat starts with the welcome message and answers its user messages in the order they were sent, each answer never ahead of its question |
| Conversation.RunAppendOnly | chatbot.py:166-170 | the log only grows: no run removes or rewrites a message |
| Conversation.SendThenDeliver | chatbot.py:180-187 | with nothing pending, one send and its timer append the trimmed text and then the reply to the raw input |
| Conversation.DrainFirst | chatbot.py:187 | draining the queue starts with the reply to the oldest pending text, then drains the rest |
| Conversation.DrainInOrder | chatbot.py:187 | one tick per pending text empties the queue and appends every reply, in the order the texts were sent |
| Scenarios.SendTrimmed | chatbot.py:180-186 | sending an already trimmed non-blank text appends exactly that text to the log and to the queue |
| Scenarios.TwoSends | chatbot.py:180-186 | two sends of trimmed texts append both user messages and queue both texts in order |
| Scenarios.TwoDeliveries | chatbot.py:187 | with two texts pending, two ticks append their replies in queue order and empty the queue |
| Scenarios.TwoQuickSends | chatbot.py:180-187 | two sends before the first timer fires show both user messages, then both replies in send order |
| Scenarios.TwoPatientSends | chatbot.py:180-187 | waiting for each reply before sending again alternates user and bot messages |
| Scenarios.QuickWith | chatbot.py:180-187 | two quick sends whose replies are known append both user messages, then those two replies |
| Scenarios.PatientWith | chatbot.py:180-187 | two patient sends whose replies are known append user, reply, user, reply |
| Scenarios.ByeReady | chatbot.py:97 | "bye" is trimmed, non-blank and answered with "See you later!" |
| Scenarios.HiReady | chatbot.py:93 | "hi" is trimmed, non-blank and answered with the greeting |
| Scenarios.QuickByeHi | chatbot.py:93-97 | from any chat with nothing pending, "bye" and "hi" sent quickly append both user messages, "See you later!", then the greeting |
| Scenarios.PatientByeHi | chatbot.py:93-97 | from any chat with nothing pending, "bye" and "hi" sent one reply apart append "bye", "See you later!", "hi", then the greeting |
| Scenarios.BlankSubmitIgnored | chatbot.py:183-184 | a blank submission followed by a tick leaves the opening chat unchanged |

## Left out

- The Tkinter window is not modelled: layout, colours, fonts, bubbles, scrolling, hover effects and focus handling.
- The placeholder text and its focus-in/focus-out handling are not modelled. The entry is assumed to hold what the user typed.
- Enter versus Shift+Enter handling (`_send_on_enter`) is not modelled: it only decides whether `on_send` is called.
- Clearing the entry widget after a send is not modelled: it is UI state outside the chat.
- `datetime.now().strftime(...)` is replaced by the caller-supplied `clock` string: the clock is I/O.
- Text.Lower maps only ASCII `A`-`Z`. Python's full Unicode case mapping, including mappings that change a string's length, is not modelled.
- The 120 ms delay is modelled as a first-in first-out queue of pending replies. Real time is not modelled. With one fixed delay, the timers fire in the order they were scheduled.
- Messages carry only sender and text. The window shows only the sender label next to each bubble and records no timestamp.
- Conversation.Step: a `Tick` with no reply pending changes nothing. No timer exists in that case, so the event cannot arise in the program.
- Ordering of replies: each send starts its own 120 ms timer, so a second send before the first timer fires shows both user messages before both replies (Scenarios.QuickByeHi). Replies alternate with user messages only when each reply is shown before the next send (Scenarios.PatientByeHi).
