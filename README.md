# Chat widget model

The model covers the logic of `ProfessionalChatbotWidget`, a floating chat
panel written as a React component. It has two parts:

- **The reply rule** (module `Reply`). The assistant is simulated. Its reply
  to a user message is chosen by a case-insensitive substring test with a
  fixed precedence:
  - "aide" or "support" gives the support-ticket text;
  - otherwise "prix" or "tarif" gives the pricing-page text;
  - otherwise an acknowledgement quotes the message between double quotes.
- **The widget state machine** (module `Widget`). The class `ChatWidget`
  has the component's state as fields: `isOpen`, the append-only
  `messages`, the draft `input` and `isTyping`. Its methods are the event
  handlers for open, close, typing and submit, plus `ReplyElapsed`, which
  is the 1500 ms timer firing. The timer is made explicit by a `pending`
  field. It holds the trimmed text captured at submit, which is the text
  the timer's closure would reply to.

Module `Text` models the three string operations the component uses:
- `toLowerCase` as an ASCII `Lower`;
- `includes` as `Contains`;
- `trim` as `Trim`. Its whitespace set is the ECMAScript one, written out:
  TAB, LF, VT, FF, CR, SPACE, NBSP, U+1680, U+2000–U+200A, U+2028, U+2029,
  U+202F, U+205F, U+3000 and U+FEFF.

Time is an input. `now` stands for `Date.now()`:
- the user message gets id `now`;
- the bot message gets id `now + 1`, where `now` is the time the timer fires.

A chat bubble is the datatype `Widget.Message`, with the id, text, sender and timestamp fields of the `Message` record (SecureHer/src/Message.tsx:6-11).

`stamp` stands for the formatted time of day that the component stores in
`timestamp`.

The class invariant `Valid()` (the predicate `Widget.Consistent`) says:
- the list starts with the welcome message (id 1, sender bot);
- after that, user posts and bot answers alternate;
- every user post is trimmed and non-empty;
- every bot answer is `ReplyFor` of the post just before it;
- the typing flag is on exactly while a reply is pending;
- a reply is pending exactly while the last message is an unanswered post;
- the pending text is that post.

About ids: the ids increase only if the clock does. `Submit` and
`ReplyElapsed` state this as a conditional. A user message sent exactly
1 ms after a bot reply appeared gets the same id as that reply, because
the reply's id is its own time plus one. The model keeps the source's
arithmetic and does not claim the ids are unique.

The component has no cleanup path for the reply timer, so the model has no
teardown operation.

## Model

| member | source | states |
|---|---|---|
| `Text.Lower` | SecureHer/src/Message.tsx:39-41 | `toLowerCase` on the message, lowering ASCII letters; its properties are in `Text.LowerAt`, `Text.LowerEqualIff` and `Text.LowerIdempotent` |
| `Text.LowerAt` | SecureHer/src/Message.tsx:39-41 | lower-casing keeps the length and lowers every character in place (ASCII letters only) |
| `Text.LowerEqualIff` | SecureHer/src/Message.tsx:39-41 | two strings lower to the same string exactly when they differ only in letter case |
| `Text.LowerIdempotent` | SecureHer/src/Message.tsx:39-41 | lowering twice is lowering once |
| `Text.Contains` | SecureHer/src/Message.tsx:39-41 | `includes`: some position of the text starts an occurrence of the pattern; the empty pattern occurs everywhere |
| `Text.Trim` | SecureHer/src/Message.tsx:60 | `trim()`: drops leading and trailing whitespace; `Text.TrimSpec` and `Text.TrimIsSlice` pin it down |
| `Text.TrimSpec` | SecureHer/src/Message.tsx:60 | the trimmed text is empty exactly when the draft is all whitespace; a non-empty result starts and ends with a non-whitespace character |
| `Text.TrimIsSlice` | SecureHer/src/Message.tsx:60 | the trimmed text is a contiguous slice of the draft, with only whitespace before and after it |
| `Text.TrimIdempotent` | SecureHer/src/Message.tsx:60 | trimming already trimmed text changes nothing |
| `Reply.ReplyFor` | SecureHer/src/Message.tsx:37-43 | the first matching keyword rule wins, otherwise the acknowledgement; its properties are in the `Reply.*ReplyIff` lemmas, `Reply.RepliesDistinct` and `Reply.CaseInsensitive` |
| `Reply.FallbackRecovers` | SecureHer/src/Message.tsx:37 | the user's text is recovered exactly from between the quotes of the acknowledgement, so different messages never get the same acknowledgement |
| `Reply.RepliesDistinct` | SecureHer/src/Message.tsx:37-42 | the support text, the pricing text and every acknowledgement are pairwise different, so the reply tells which rule fired |
| `Reply.SupportReplyIff` | SecureHer/src/Message.tsx:39-40 | the reply is the support text if and only if the lowered message contains "aide" or "support" |
| `Reply.PricingReplyIff` | SecureHer/src/Message.tsx:39-42 | the reply is the pricing text if and only if the lowered message contains "prix" or "tarif" and neither "aide" nor "support" |
| `Reply.FallbackReplyIff` | SecureHer/src/Message.tsx:37-43 | the reply is the acknowledgement if and only if none of the four keywords occurs; in that case the reply contains the quoted message |
| `Reply.CaseInsensitive` | SecureHer/src/Message.tsx:39-42 | messages that differ only in letter case meet the same rules, and a keyword rule gives both the same reply |
| `Reply.NoSupportWithout` | SecureHer/src/Message.tsx:39-40 | a message that lacks, in both letter cases, some letter of "aide" and some letter of "support" never meets the support rule |
| `Reply.NoKeywordWithoutASP` | SecureHer/src/Message.tsx:39-42 | a message without the letters a, s and p, in either case, meets neither keyword rule |
| `Reply.PricingInfix` | SecureHer/src/Message.tsx:39-42 | a message with a middle piece that lowers to "prix", lacking some letter of "aide" and some letter of "support" in both cases, gets the pricing text |
| `Reply.SupportExample` | SecureHer/src/Message.tsx:39-40 | "I need support with aide" gets the support text |
| `Reply.PricingExample` | SecureHer/src/Message.tsx:41-42 | "what is the prix?" gets the pricing text |
| `Reply.UpperCasePricingExample` | SecureHer/src/Message.tsx:41-42 | "Quel est le PRIX ?" gets the pricing text, in spite of the upper case |
| `Reply.FallbackExample` | SecureHer/src/Message.tsx:37 | "hello there" gets the acknowledgement, which contains "\"hello there\"" |
| `Widget.SendDisabled` | SecureHer/src/Message.tsx:148 | the send button is disabled exactly when the draft is all whitespace or a reply is pending; this is the guard of line 61 |
| `Widget.LastSpeaker` | SecureHer/src/Message.tsx:124-132 | in every reachable state, the last bubble is the user's exactly when the typing indicator shows |
| `Widget.PostKeepsConsistent` | SecureHer/src/Message.tsx:60-72 | posting the trimmed draft from an idle state keeps the conversation invariant, now typing and pending on that post |
| `Widget.AnswerKeepsConsistent` | SecureHer/src/Message.tsx:36-53 | appending `ReplyFor` of the pending post keeps the conversation invariant, now idle |
| `Widget.AppendKeepsIdsAscending` | SecureHer/src/Message.tsx:45-46 | appending a message whose id exceeds the last id keeps the ids strictly ascending |
| `Widget.ChatWidget.constructor` | SecureHer/src/Message.tsx:18-28 | the initial state: closed, not typing, an empty draft, nothing pending, and only the bot's welcome message with id 1 |
| `Widget.ChatWidget.Open` | SecureHer/src/Message.tsx:161 | opening sets `isOpen` and changes nothing else, so it is idempotent |
| `Widget.ChatWidget.Close` | SecureHer/src/Message.tsx:106 | closing clears `isOpen` and changes nothing else, so it is idempotent |
| `Widget.ChatWidget.SetInput` | SecureHer/src/Message.tsx:142 | typing replaces the draft and changes nothing else |
| `Widget.ChatWidget.Submit` | SecureHer/src/Message.tsx:58-73 | when the send button would be disabled, nothing changes. Otherwise it appends one user message with id `now` and the trimmed draft, clears the draft, turns typing on and records the trimmed text as pending. Visibility is kept. |
| `Widget.ChatWidget.ReplyElapsed` | SecureHer/src/Message.tsx:33-54 | appends one bot message with id `now + 1` and text `ReplyFor(pending)` after the unchanged earlier messages. Typing goes off and nothing stays pending. The draft and visibility are kept. |
| `Widget.RoundTrip` | SecureHer/src/Message.tsx:58-73 | for any non-blank draft: a submit, an ignored second submit, closing, the timer and reopening leave exactly the welcome, the trimmed post and its reply |

## Left out

- The markup of lines 90-168 is left out: CSS classes, icons, the "Tape..." / "En ligne" label and the layout of the typing-indicator row. The event handlers inside it (lines 106, 142, 161), the send-button condition (line 148) and when the indicator shows (lines 124-132) are modelled.
- `scrollToBottom`, the two `useEffect` hooks (lines 76-88) and `e.preventDefault()` in the submit handler (line 59) are left out. They are DOM side effects, and the second hook is empty.
- `formatTime` and `toLocaleTimeString('fr-FR', …)` (lines 13-15) are left out because they are locale library calls. Timestamps are an opaque `stamp` parameter.
- `Date.now()` and `setTimeout` are left out. The clock is the `now` parameter. The callback firing is the `ReplyElapsed` call. The 1500 ms delay itself is not modelled.
- Widget.ChatWidget.ReplyElapsed: requires a pending reply. The callback exists only after an accepted submit, and the guard allows at most one at a time.
- Unmount and timer cancellation are left out. The component has no cleanup path, and unmounting is a React lifecycle event.
- React's batched and functional state updates are left out. Each event runs to completion and sees the state the previous event left.
- Widget.ChatWidget.SetInput: the model accepts edits while a reply is pending. The component disables the field then (line 144), but that is a browser behaviour, not a guard in the code.
- Text.Lower: only ASCII letters are lowered, not the full Unicode `toLowerCase`. The reply choice should not change, but this is argued, not proved. The only non-ASCII characters whose lower case contains an ASCII letter are U+0130 and U+212A. U+0130 lowers to "i" followed by U+0307, and in every keyword an "i" is followed by a letter. U+212A lowers to "k", which no keyword has.
- Strings are sequences of Unicode scalar values, not UTF-16 code units. This changes nothing here: the keywords are ASCII and all whitespace characters are in the Basic Multilingual Plane.
