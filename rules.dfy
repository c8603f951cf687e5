/** The canned-response rules of the request handler: an ordered chain of
    exact-phrase and keyword tests over the normalised prompt, the first that
    holds choosing a fixed reply. */
module Rules {
  import opened Wrappers
  import opened Text

  const NameQuestion: string := "what's your name"
  const MakerQuestion: string := "who made you"
  const JokeRequest: string := "tell me a joke"
  const FactRequest: string := "give me a fun fact"

  const NameReply: string := "My name is Savbot."
  const MakerReply: string := "I was made by Savitha .F and Gemini."
  // The four replies below end in an emoji, spelled here with the characters
  // the source file holds for it.
  const JokeReply: string :=
    "Why don't scientists trust atoms? Because they make up everything! \U{F0}\U{178}\U{2DC}\U{201A}"
  const FactReply: string :=
    "Did you know that a group of owls is called a parliament? \U{F0}\U{178}\U{A6}\U{2030}"
  const PositiveReply: string :=
    "That's wonderful to hear! I'm glad you're feeling good! \U{F0}\U{178}\U{2DC}\U{160}"
  const NegativeReply: string :=
    "I'm sorry to hear that. Is there anything I can do to help cheer you up? \U{F0}\U{178}\U{AB}\U{201A}"

  /** The if/elif chain of the handler as written, applied to the lowercased,
      stripped prompt; None means that no rule matched and the upstream is asked. */
  function MatchRule(prompt: string): (r: Option<string>)
    ensures r.Some? ==>
      r.value in {NameReply, MakerReply, JokeReply, FactReply, PositiveReply, NegativeReply}
    ensures prompt == "" ==> r.None?
  {
    if prompt == NameQuestion then Some(NameReply)
    else if prompt == MakerQuestion then Some(MakerReply)
    else if Contains(prompt, "joke") || prompt == JokeRequest then Some(JokeReply)
    else if Contains(prompt, "fun fact") || prompt == FactRequest then Some(FactReply)
    else if Contains(prompt, "happy") || Contains(prompt, "great") || Contains(prompt, "good mood") then
      Some(PositiveReply)
    else if Contains(prompt, "sad") || Contains(prompt, "down") || Contains(prompt, "bad mood") then
      Some(NegativeReply)
    else None
  }

  /** One test of a rule: the prompt equals a phrase, or mentions a keyword. */
  datatype Test = Equals(phrase: string) | Mentions(keyword: string)

  /** A rule fires when any of its tests holds. */
  datatype Rule = Rule(tests: seq<Test>, reply: string)

  function Holds(t: Test, prompt: string): bool {
    match t
    case Equals(phrase) => prompt == phrase
    case Mentions(keyword) => Contains(prompt, keyword)
  }

  function AnyHolds(tests: seq<Test>, prompt: string): bool {
    tests != [] && (Holds(tests[0], prompt) || AnyHolds(tests[1..], prompt))
  }

  function Fires(rule: Rule, prompt: string): bool {
    AnyHolds(rule.tests, prompt)
  }

  /** The same rules as an ordered table, highest priority first. */
  const NameRule := Rule([Equals(NameQuestion)], NameReply)
  const MakerRule := Rule([Equals(MakerQuestion)], MakerReply)
  const JokeRule := Rule([Mentions("joke"), Equals(JokeRequest)], JokeReply)
  const FactRule := Rule([Mentions("fun fact"), Equals(FactRequest)], FactReply)
  const PositiveRule := Rule([Mentions("happy"), Mentions("great"), Mentions("good mood")], PositiveReply)
  const NegativeRule := Rule([Mentions("sad"), Mentions("down"), Mentions("bad mood")], NegativeReply)
  const RuleTable: seq<Rule> := [NameRule, MakerRule, JokeRule, FactRule, PositiveRule, NegativeRule]

  /** Evaluation of a rule table: the reply of the first rule that fires. */
  function FirstMatch(rules: seq<Rule>, prompt: string): Option<string> {
    if rules == [] then None
    else if Fires(rules[0], prompt) then Some(rules[0].reply)
    else FirstMatch(rules[1..], prompt)
  }

  /** First match wins: a rule that fires, with no rule before it firing,
      supplies the reply. */
  lemma {:induction false} FirstMatchPicksFirstFiring(rules: seq<Rule>, prompt: string, i: nat)
    requires i < |rules| && Fires(rules[i], prompt)
    requires forall j :: 0 <= j < i ==> !Fires(rules[j], prompt)
    ensures FirstMatch(rules, prompt) == Some(rules[i].reply)
  {
    if i > 0 {
      assert !Fires(rules[0], prompt);
      assert forall j :: 0 <= j < i - 1 ==> rules[1..][j] == rules[j + 1];
      FirstMatchPicksFirstFiring(rules[1..], prompt, i - 1);
    }
  }

  /** A table yields no reply exactly when none of its rules fires. */
  lemma {:induction false} FirstMatchNoneIffNoneFires(rules: seq<Rule>, prompt: string)
    ensures FirstMatch(rules, prompt) == None <==> forall i :: 0 <= i < |rules| ==> !Fires(rules[i], prompt)
  {
    if rules != [] {
      FirstMatchNoneIffNoneFires(rules[1..], prompt);
      assert forall i :: 1 <= i < |rules| ==> rules[i] == rules[1..][i - 1];
    }
  }

  /** A reply from the table is the reply of a rule that fires. */
  lemma {:induction false} FirstMatchFromFiringRule(rules: seq<Rule>, prompt: string) returns (i: nat)
    requires FirstMatch(rules, prompt).Some?
    ensures i < |rules| && Fires(rules[i], prompt)
    ensures forall j :: 0 <= j < i ==> !Fires(rules[j], prompt)
    ensures FirstMatch(rules, prompt) == Some(rules[i].reply)
  {
    if Fires(rules[0], prompt) {
      i := 0;
    } else {
      var k := FirstMatchFromFiringRule(rules[1..], prompt);
      i := k + 1;
      assert forall j :: 1 <= j < i ==> rules[j] == rules[1..][j - 1];
    }
  }

  lemma AnyHoldsOne(a: Test, prompt: string)
    ensures AnyHolds([a], prompt) == Holds(a, prompt)
  {
    assert [a][1..] == [];
  }

  lemma AnyHoldsTwo(a: Test, b: Test, prompt: string)
    ensures AnyHolds([a, b], prompt) == (Holds(a, prompt) || Holds(b, prompt))
  {
    assert [a, b][1..] == [b];
    AnyHoldsOne(b, prompt);
  }

  lemma AnyHoldsThree(a: Test, b: Test, c: Test, prompt: string)
    ensures AnyHolds([a, b, c], prompt) == (Holds(a, prompt) || Holds(b, prompt) || Holds(c, prompt))
  {
    assert [a, b, c][1..] == [b, c];
    AnyHoldsTwo(b, c, prompt);
  }

  /** The chain as written and the ordered table agree on every prompt. */
  lemma MatchRuleIsRuleTable(prompt: string)
    ensures MatchRule(prompt) == FirstMatch(RuleTable, prompt)
  {
    AnyHoldsOne(Equals(NameQuestion), prompt);
    AnyHoldsOne(Equals(MakerQuestion), prompt);
    AnyHoldsTwo(Mentions("joke"), Equals(JokeRequest), prompt);
    AnyHoldsTwo(Mentions("fun fact"), Equals(FactRequest), prompt);
    AnyHoldsThree(Mentions("happy"), Mentions("great"), Mentions("good mood"), prompt);
    AnyHoldsThree(Mentions("sad"), Mentions("down"), Mentions("bad mood"), prompt);
    var t5 := [NegativeRule];
    var t4 := [PositiveRule] + t5;
    var t3 := [FactRule] + t4;
    var t2 := [JokeRule] + t3;
    var t1 := [MakerRule] + t2;
    assert RuleTable == [NameRule] + t1;
    FirstMatchStep(NegativeRule, [], prompt);
    assert t5 == [NegativeRule] + [];
    FirstMatchStep(PositiveRule, t5, prompt);
    FirstMatchStep(FactRule, t4, prompt);
    FirstMatchStep(JokeRule, t3, prompt);
    FirstMatchStep(MakerRule, t2, prompt);
    FirstMatchStep(NameRule, t1, prompt);
  }

  lemma FirstMatchStep(r: Rule, rest: seq<Rule>, prompt: string)
    ensures FirstMatch([r] + rest, prompt) == if Fires(r, prompt) then Some(r.reply) else FirstMatch(rest, prompt)
  {
    assert ([r] + rest)[1..] == rest;
  }

  /** The `== "tell me a joke"` and `== "give me a fun fact"` alternatives never
      decide anything: each phrase already contains its keyword. */
  lemma ExactRequestsSubsumed(prompt: string)
    ensures (Contains(prompt, "joke") || prompt == JokeRequest) == Contains(prompt, "joke")
    ensures (Contains(prompt, "fun fact") || prompt == FactRequest) == Contains(prompt, "fun fact")
  {
    assert JokeRequest == "tell me a " + "joke" + "";
    ContainsInfix("tell me a ", "joke", "");
    assert FactRequest == "give me a " + "fun fact" + "";
    ContainsInfix("give me a ", "fun fact", "");
  }

  /** A prompt mentioning "joke" gets the joke, whatever mood words it has. */
  lemma JokeOutranksMood(prompt: string)
    requires Contains(prompt, "joke")
    ensures MatchRule(prompt) == Some(JokeReply)
  {
    var i := ContainsHasChar(prompt, "joke", 0);
    NotExactQuestion(prompt, i);
  }

  /** A positive word beats a negative one: without "joke" or "fun fact", a
      prompt with a positive word gets the positive reply. */
  lemma PositiveOutranksNegative(prompt: string)
    requires Contains(prompt, "happy") || Contains(prompt, "great") || Contains(prompt, "good mood")
    requires !Contains(prompt, "joke") && !Contains(prompt, "fun fact")
    ensures MatchRule(prompt) == Some(PositiveReply)
  {
    var i := PositiveWordChar(prompt);
    NotExactQuestion(prompt, i);
    ExactRequestsSubsumed(prompt);
  }

  lemma PositiveWordChar(prompt: string) returns (i: nat)
    requires Contains(prompt, "happy") || Contains(prompt, "great") || Contains(prompt, "good mood")
    ensures i < |prompt| && (prompt[i] == 'p' || prompt[i] == 'g')
  {
    if Contains(prompt, "happy") {
      i := ContainsHasChar(prompt, "happy", 2);
    } else if Contains(prompt, "great") {
      i := ContainsHasChar(prompt, "great", 0);
    } else {
      i := ContainsHasChar(prompt, "good mood", 0);
    }
  }

  /** The exact questions hold no 'j' (of "joke"), 'p' (of "happy") or 'g' (of
      "great" and "good mood"), so a prompt with one of those is neither. */
  lemma NotExactQuestion(prompt: string, i: nat)
    requires i < |prompt| && (prompt[i] == 'j' || prompt[i] == 'p' || prompt[i] == 'g')
    ensures prompt != NameQuestion && prompt != MakerQuestion
  {
    assert forall k :: 0 <= k < |NameQuestion| ==> NameQuestion[k] !in {'j', 'p', 'g'};
    assert forall k :: 0 <= k < |MakerQuestion| ==> MakerQuestion[k] !in {'j', 'p', 'g'};
  }

  /** First match wins for the handler's chain: the first rule of the table
      that fires decides the reply. */
  lemma MatchRulePicksFirstFiring(prompt: string, i: nat)
    requires i < |RuleTable| && Fires(RuleTable[i], prompt)
    requires forall j :: 0 <= j < i ==> !Fires(RuleTable[j], prompt)
    ensures MatchRule(prompt) == Some(RuleTable[i].reply)
  {
    MatchRuleIsRuleTable(prompt);
    FirstMatchPicksFirstFiring(RuleTable, prompt, i);
  }

  /** Conversely, every canned reply is that of the first rule that fires. */
  lemma MatchRuleFromFirstFiring(prompt: string) returns (i: nat)
    requires MatchRule(prompt).Some?
    ensures i < |RuleTable| && Fires(RuleTable[i], prompt)
    ensures forall j :: 0 <= j < i ==> !Fires(RuleTable[j], prompt)
    ensures MatchRule(prompt) == Some(RuleTable[i].reply)
  {
    MatchRuleIsRuleTable(prompt);
    i := FirstMatchFromFiringRule(RuleTable, prompt);
  }

  /** The upstream is consulted exactly when no rule of the table fires. */
  lemma FallthroughIffNoRuleFires(prompt: string)
    ensures MatchRule(prompt) == None <==> forall i :: 0 <= i < |RuleTable| ==> !Fires(RuleTable[i], prompt)
  {
    MatchRuleIsRuleTable(prompt);
    FirstMatchNoneIffNoneFires(RuleTable, prompt);
  }
}
