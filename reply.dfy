/** The canned reply rule of the simulated assistant: a case-insensitive
    keyword test with fixed precedence, falling back to an acknowledgement
    that quotes the user's message. */
module Reply {
  import opened Text

  // The replies are written in two pieces each so that the verifier can
  // read their first characters (it does not unfold long literals).
  // For the same reason the worked examples at the end of this module lean
  // on small helper lemmas about their literals (SupportFound, PrixLowers,
  // QuestionLetters, UpperQuestionLetters); these have no source counterpart.
  const SupportReply: string :=
    "Notre équipe de support " + "est disponible 24/7. Voulez-vous que je crée un ticket pour vous ?"
  const PricingReply: string :=
    "Veuillez consulter notre " + "page de tarification pour les détails. Elle est accessible via le menu principal."
  const FallbackOpen: string := "J'ai analysé votre requête sur "
  const FallbackClose: string := ". Nous sommes en train de générer une réponse détaillée."

  /** The user's text between double quotes. */
  function Quoted(userMessage: string): (q: string) {
    "\"" + userMessage + "\""
  }

  /** The generic acknowledgement, quoting the user's text verbatim. */
  function Fallback(userMessage: string): (r: string) {
    FallbackOpen + Quoted(userMessage) + FallbackClose
  }

  /** The text between the quotes of an acknowledgement. */
  function QuotedPart(r: string): (m: string)
    requires |r| >= |FallbackOpen| + 2 + |FallbackClose|
  {
    r[|FallbackOpen| + 1 .. |r| - |FallbackClose| - 1]
  }

  /** The user's text is recovered exactly from its acknowledgement, so
      different messages are never acknowledged alike. */
  lemma FallbackRecovers(m: string, m': string)
    ensures QuotedPart(Fallback(m)) == m
    ensures Fallback(m) == Fallback(m') ==> m == m'
  {
    var r := Fallback(m);
    assert r[|FallbackOpen| + 1 .. |r| - |FallbackClose| - 1] == Quoted(m)[1..|m| + 1];
    var r' := Fallback(m');
    assert r'[|FallbackOpen| + 1 .. |r'| - |FallbackClose| - 1] == Quoted(m')[1..|m'| + 1];
  }

  /** The first rule: the lowered message mentions "aide" or "support". */
  predicate AsksForSupport(userMessage: string) {
    Contains(Lower(userMessage), "aide") || Contains(Lower(userMessage), "support")
  }

  /** The second rule: the lowered message mentions "prix" or "tarif". */
  predicate AsksForPricing(userMessage: string) {
    Contains(Lower(userMessage), "prix") || Contains(Lower(userMessage), "tarif")
  }

  /** The reply text the bot posts for `userMessage`; first matching rule wins. */
  function ReplyFor(userMessage: string): (r: string) {
    if AsksForSupport(userMessage) then SupportReply
    else if AsksForPricing(userMessage) then PricingReply
    else Fallback(userMessage)
  }

  /** The three reply texts never coincide, whatever the user wrote. */
  lemma RepliesDistinct(userMessage: string)
    ensures SupportReply != PricingReply
    ensures Fallback(userMessage) != SupportReply
    ensures Fallback(userMessage) != PricingReply
  {
    assert SupportReply[0] == 'N' && PricingReply[0] == 'V';
    assert Fallback(userMessage)[0] == FallbackOpen[0] == 'J';
  }

  /** The support reply is given exactly when a support keyword occurs. */
  lemma SupportReplyIff(userMessage: string)
    ensures ReplyFor(userMessage) == SupportReply <==> AsksForSupport(userMessage)
  {
    RepliesDistinct(userMessage);
  }

  /** The pricing reply is given exactly when a pricing keyword occurs and
      no support keyword does: support takes precedence. */
  lemma PricingReplyIff(userMessage: string)
    ensures ReplyFor(userMessage) == PricingReply <==>
            !AsksForSupport(userMessage) && AsksForPricing(userMessage)
  {
    RepliesDistinct(userMessage);
  }

  /** With none of the four keywords the reply is the acknowledgement, which
      quotes the message verbatim; and only then. */
  lemma FallbackReplyIff(userMessage: string)
    ensures ReplyFor(userMessage) == Fallback(userMessage) <==>
            !AsksForSupport(userMessage) && !AsksForPricing(userMessage)
    ensures !AsksForSupport(userMessage) && !AsksForPricing(userMessage) ==>
            Contains(ReplyFor(userMessage), Quoted(userMessage))
  {
    RepliesDistinct(userMessage);
    ContainsInfix(FallbackOpen, Quoted(userMessage), FallbackClose);
  }

  /** Two messages that differ only in letter case meet the same rule, and
      a keyword rule gives them the very same reply. */
  lemma CaseInsensitive(a: string, b: string)
    requires SameUpToCase(a, b)
    ensures AsksForSupport(a) == AsksForSupport(b)
    ensures AsksForPricing(a) == AsksForPricing(b)
    ensures AsksForSupport(a) || AsksForPricing(a) ==> ReplyFor(a) == ReplyFor(b)
  {
    LowerEqualIff(a, b);
  }

  /** A message that lacks, in both cases, a letter `c` of "aide" and a
      letter `d` of "support" cannot ask for support. */
  lemma NoSupportWithout(s: string, c: char, d: char)
    requires 'a' <= c <= 'z' && c in "aide" && 'a' <= d <= 'z' && d in "support"
    requires c !in s && (c as int - 32) as char !in s
    requires d !in s && (d as int - 32) as char !in s
    ensures !AsksForSupport(s)
  {
    LowerLacksKeyword(s, "aide", c);
    LowerLacksKeyword(s, "support", d);
  }

  /** Without the letters a, s and p, in either case, none of the four
      keywords can occur. */
  lemma NoKeywordWithoutASP(s: string)
    requires 'a' !in s && 'A' !in s && 's' !in s && 'S' !in s && 'p' !in s && 'P' !in s
    ensures !AsksForSupport(s) && !AsksForPricing(s)
  {
    LowerLacksKeyword(s, "aide", 'a');
    LowerLacksKeyword(s, "support", 's');
    LowerLacksKeyword(s, "prix", 'p');
    LowerLacksKeyword(s, "tarif", 'a');
  }

  /** A message that contains a support keyword among other words. */
  lemma SupportExample(s: string)
    requires s == "I need support with aide"
    ensures ReplyFor(s) == SupportReply
  {
    SupportFound(s);
    SupportReplyIff(s);
  }

  lemma SupportFound(s: string)
    requires s == "I need support with aide"
    ensures AsksForSupport(s)
  {
    assert s == "I need " + "support" + " with aide";
    LowerKeepsInfix("I need ", "support", " with aide");
    assert Lower("support") == "support";
  }

  /** A message `s == a + p + b` whose middle lowers to "prix", and which
      lacks a letter of "aide" and a letter of "support", gets the pricing text. */
  lemma PricingInfix(s: string, a: string, p: string, b: string, c: char, d: char)
    requires s == a + p + b && Lower(p) == "prix"
    requires 'a' <= c <= 'z' && c in "aide" && 'a' <= d <= 'z' && d in "support"
    requires c !in s && (c as int - 32) as char !in s
    requires d !in s && (d as int - 32) as char !in s
    ensures ReplyFor(s) == PricingReply
  {
    LowerKeepsInfix(a, p, b);
    NoSupportWithout(s, c, d);
    PricingReplyIff(s);
  }

  /** The keyword "prix", in either case, lowers to "prix". */
  lemma PrixLowers(p: string)
    requires p == "prix" || p == "PRIX"
    ensures Lower(p) == "prix"
  {
    if p == "prix" {
      assert Lower("prix") == "prix";
    } else {
      assert Lower("PRIX") == "prix";
    }
  }

  /** A question naming the price gets the pricing page. */
  lemma PricingExample(s: string)
    requires s == "what is the prix?"
    ensures ReplyFor(s) == PricingReply
  {
    QuestionLetters(s);
    PrixLowers("prix");
    PricingInfix(s, "what is the ", "prix", "?", 'd', 'o');
  }

  /** How "what is the prix?" splits around its keyword, and two letters it lacks. */
  lemma QuestionLetters(s: string)
    requires s == "what is the prix?"
    ensures s == "what is the " + "prix" + "?"
    ensures 'd' !in s && 'D' !in s && 'o' !in s && 'O' !in s
  {
  }

  /** Matching ignores case: "PRIX" meets the pricing rule. */
  lemma UpperCasePricingExample(s: string)
    requires s == "Quel est le PRIX ?"
    ensures ReplyFor(s) == PricingReply
  {
    UpperQuestionLetters(s);
    PrixLowers("PRIX");
    PricingInfix(s, "Quel est le ", "PRIX", " ?", 'a', 'o');
  }

  /** How "Quel est le PRIX ?" splits around its keyword, and two letters it lacks. */
  lemma UpperQuestionLetters(s: string)
    requires s == "Quel est le PRIX ?"
    ensures s == "Quel est le " + "PRIX" + " ?"
    ensures 'a' !in s && 'A' !in s && 'o' !in s && 'O' !in s
  {
  }

  /** A message with no keyword is acknowledged and quoted. */
  lemma FallbackExample(s: string)
    requires s == "hello there"
    ensures ReplyFor(s) == Fallback(s) && Contains(ReplyFor(s), Quoted(s))
  {
    assert 'a' !in s && 'A' !in s && 's' !in s && 'S' !in s && 'p' !in s && 'P' !in s;
    NoKeywordWithoutASP(s);
    FallbackReplyIff(s);
  }
}
