/**
 * The tutor's conversation logic: a three-state dialogue (greeting, asking
 * for the user's name, practice conversation), the choice of the next
 * practice question with a change of topic once a topic is used up, the
 * rule-based name guess used when entity extraction finds no person, and
 * resetting the conversation. Entity extraction, grammar correction and the
 * explanation of edits are outside calls whose results are parameters here;
 * `random.choice` is a nondeterministic choice.
 */
module Jaide {
  import opened Wrappers
  import opened PyStrings

  datatype ConversationState = InitialGreeting | WaitingForName | Conversing

  /** `self.practice_topics`: ten topics of five practice questions each. */
  const PracticeTopics: map<string, seq<string>> := map[
    "daily_routines" := [
      "What time do you usually wake up in the morning?",
      "Can you describe your morning routine?",
      "What's your favorite meal of the day?",
      "How do you usually spend your evenings?",
      "What do you like to do on weekends?"
    ],
    "hobbies" := [
      "What are your favorite hobbies?",
      "How often do you practice your hobbies?",
      "When did you start getting interested in your hobby?",
      "Would you like to try any new hobbies?",
      "Can you describe what you enjoy most about your favorite activity?"
    ],
    "travel" := [
      "What's your favorite place you've visited?",
      "Where would you like to travel next?",
      "Do you prefer mountains, beaches, or cities when traveling?",
      "What's the most interesting food you've tried while traveling?",
      "How do you prepare for a trip?"
    ],
    "food" := [
      "What's your favorite cuisine?",
      "Do you enjoy cooking at home?",
      "What dish are you best at preparing?",
      "Have you tried any new foods recently?",
      "What foods did you dislike as a child but enjoy now?"
    ],
    "learning_english" := [
      "Why are you learning English?",
      "What's the most difficult part of English pronunciation for you?",
      "How long have you been studying English?",
      "What methods do you use to practice your English?",
      "What English sounds are most challenging for you?"
    ],
    "school_or_work" := [
      "What do you do for work or school?",
      "What\U{2019}s your favorite subject or part of your job?",
      "What does a typical day at school or work look like?",
      "Do you prefer working in a team or alone?",
      "Have you ever had a really interesting project?"
    ],
    "technology" := [
      "How often do you use your phone or computer?",
      "What apps or websites do you use every day?",
      "Do you prefer texting or calling people?",
      "What\U{2019}s your opinion on social media?",
      "Is there a new technology you\U{2019}re excited about?"
    ],
    "weather" := [
      "What\U{2019}s the weather like today?",
      "Do you prefer hot or cold weather?",
      "What do you like to do on rainy days?",
      "Has it ever snowed where you live?",
      "How does the weather affect your mood?"
    ],
    "movies_and_tv" := [
      "What\U{2019}s your favorite movie or TV show?",
      "Who is your favorite actor or actress?",
      "Do you prefer comedies, dramas, or action films?",
      "Have you watched anything good recently?",
      "Do you like watching shows in English or your native language?"
    ],
    "music" := [
      "What kind of music do you like?",
      "Who is your favorite singer or band?",
      "Do you play any musical instruments?",
      "When do you usually listen to music?",
      "Have you ever been to a concert?"
    ]
  ]

  /** `self.response_templates`: comments on a recognised entity, for five of the topics. */
  const ResponseTemplates: map<string, seq<string>> := map[
    "travel" := [
      "{}? That sounds like a fascinating destination!",
      "I've heard good things about {}.",
      "{} must have been an amazing place to visit!",
      "Visiting {} sounds like an adventure!"
    ],
    "food" := [
      "{}? Yummy! That\U{2019}s a delicious choice.",
      "Mmm, I love {} too!",
      "{} is such a tasty dish. Great pick!",
      "Oh, {}? That sounds mouthwatering!"
    ],
    "hobbies" := [
      "{} sounds like a really fun hobby.",
      "Nice! {} can be so rewarding.",
      "I\U{2019}ve always wanted to try {}!",
      "You must enjoy {} a lot!"
    ],
    "music" := [
      "{}? That\U{2019}s a great artist!",
      "I enjoy listening to {} too!",
      "{} has such a unique sound.",
      "Listening to {} can really lift your mood!"
    ],
    "movies_and_tv" := [
      "{} is a classic!",
      "I\U{2019}ve seen {} too, it\U{2019}s really good!",
      "Many people love {}.",
      "Oh, {}? Great choice!"
    ]
  ]

  /** `self.positive_feedback`: the comments used when no entity is recognised. */
  const PositiveFeedback: seq<string> := [
    "That's great!",
    "Interesting!",
    "Thanks for sharing.",
    "I like how you explained that.",
    "You're doing well with your English!"
  ]

  /** `self.topic_transition_templates`: how a change of topic is announced. */
  const TopicTransitionTemplates: seq<string> := [
    "Now let's talk a bit about {}.",
    "Next up: {}!",
    "Let's move on to {}.",
    "How about we shift to {} for a moment?",
    "Time to dive into {}.",
    "Let\U{2019}s chat about {} now."
  ]

  /** `self.topic_entity_labels`: the entity labels worth a comment, per topic. */
  const TopicEntityLabels: map<string, set<string>> := map[
    "travel" := {"GPE", "LOC", "FAC", "ORG"},
    "hobbies" := {"PRODUCT", "ORG", "EVENT", "WORK_OF_ART"},
    "food" := {"PRODUCT", "ORG", "NORP"},
    "music" := {"PERSON", "ORG", "WORK_OF_ART", "EVENT"},
    "movies_and_tv" := {"WORK_OF_ART", "PERSON", "ORG", "EVENT"}
  ]

  /** The first reply of a conversation. */
  const GreetingText: string :=
    "Hi there! I'm here to help you learn English. You can either type or speak your responses.\n        If you'd like pronunciation help, just type 'Help me pronounce [word]'.\n        For example, you can say 'Help me pronounce apple'.\n        What's your name?"

  /** The name used when the name rules find none. */
  const DefaultName: string := "Friend"

  /** Every topic offers five questions. */
  lemma PracticeTopicsShape(topic: string)
    requires topic in PracticeTopics
    ensures |PracticeTopics[topic]| == 5
  {
  }

  // ---------------------------------------------------------------------------
  // Text helpers
  // ---------------------------------------------------------------------------

  /** `s.replace('_', ' ')`, as topic names are shown to the user. */
  function Spaced(s: string): (r: string)
    ensures |r| == |s|
    ensures forall i :: 0 <= i < |r| ==> r[i] != '_' && (s[i] != '_' ==> r[i] == s[i])
    ensures forall i :: 0 <= i < |s| && s[i] == '_' ==> r[i] == ' '
  {
    seq(|s|, i requires 0 <= i < |s| => if s[i] == '_' then ' ' else s[i])
  }

  /** `template.format(arg)` for the templates here, which hold a single `{}`. */
  function Format(template: string, arg: string): (r: string)
    ensures Find(template, "{}").None? ==> r == template
    ensures Find(template, "{}").Some? ==> |r| == |template| - 2 + |arg|
    ensures Find(template, "{}").Some? ==>
      var i := Find(template, "{}").value;
      && r[..i] == template[..i]
      && r[i..i + |arg|] == arg
      && r[i + |arg|..] == template[i + 2..]
  {
    match Find(template, "{}")
    case None => template
    case Some(i) => template[..i] + arg + template[i + 2..]
  }

  // ---------------------------------------------------------------------------
  // Name fallback
  // ---------------------------------------------------------------------------

  /** The `IndexError` of `split()[0]` when only whitespace follows the phrase. */
  datatype NameError = NoWordAfterPhrase

  /** `lower_input.split(phrase, 1)[1].strip().split()[0].capitalize()`. */
  function NameAfter(lowerInput: string, phrase: string): (r: Result<string, NameError>)
    requires Contains(lowerInput, phrase)
    ensures r.Success? ==> r.value != [] && NoSpace(r.value) && !IsLower(r.value[0])
    ensures r.Success? ==> forall i :: 0 < i < |r.value| ==> !IsUpper(r.value[i])
  {
    var words := SplitWhitespace(Strip(AfterFirst(lowerInput, phrase)));
    if words == [] then Failure(NoWordAfterPhrase)
    else CapitalizeNoSpace(words[0]); Success(Capitalize(words[0]))
  }

  /**
   * `r` is the name taken after `phrase`: the first word that follows the
   * phrase's first occurrence, capitalized, or a failure exactly when only
   * whitespace follows it.
   */
  ghost predicate NamedAfter(lowerInput: string, phrase: string, r: Result<string, NameError>)
  {
    && Contains(lowerInput, phrase)
    && var rest := lowerInput[Find(lowerInput, phrase).value + |phrase|..];
       && (r.Failure? <==> AllSpace(rest))
       && (r.Success? ==> exists w, k :: w != [] && NoSpace(w) && WordAt(rest, w, k) && r.value == Capitalize(w))
  }

  /** `NameAfter` takes the first word after the phrase's first occurrence. */
  lemma NameAfterMeaning(lowerInput: string, phrase: string)
    requires Contains(lowerInput, phrase)
    ensures NamedAfter(lowerInput, phrase, NameAfter(lowerInput, phrase))
  {
    var rest := AfterFirst(lowerInput, phrase);
    SplitStrip(rest);
    SplitAllSpace(rest);
    if SplitWhitespace(rest) != [] {
      var k := SplitFirstWord(rest);
    }
  }

  /**
   * `detect_name_fallback`: a one-word input is the name; otherwise, while no
   * name is known, the word after "my name is", "i am" or "i'm" (in that order of
   * preference); otherwise "Friend".
   */
  function DetectNameFallback(userInput: string, userName: Option<string>): (r: Result<string, NameError>)
    ensures r.Success? ==> r.value != [] && !IsLower(r.value[0])
    ensures r.Success? ==> forall i :: 0 < i < |r.value| ==> !IsUpper(r.value[i])
    ensures userName.Some? && |SplitWhitespace(Lower(userInput))| != 1 ==> r == Success(DefaultName)
    ensures r.Failure? ==> userName.None?
  {
    var lowerInput := Lower(userInput);
    if |SplitWhitespace(lowerInput)| == 1 then
      assert lowerInput != [];
      Success(Capitalize(lowerInput))
    else NameFromPhrases(lowerInput, userName)
  }

  /** The `elif` branches of `detect_name_fallback` after the one-word test. */
  function NameFromPhrases(lowerInput: string, userName: Option<string>): (r: Result<string, NameError>)
    ensures r.Success? ==> r.value != [] && !IsLower(r.value[0])
    ensures r.Success? ==> forall i :: 0 < i < |r.value| ==> !IsUpper(r.value[i])
    ensures userName.Some? ==> r == Success(DefaultName)
    ensures r.Failure? ==> userName.None?
  {
    if Contains(lowerInput, "my name is") && userName.None? then
      NameAfter(lowerInput, "my name is")
    else if Contains(lowerInput, "i am ") && userName.None? then
      assert "i am " == "i am" + " ";
      ContainsPrefix(lowerInput, "i am", " ");
      NameAfter(lowerInput, "i am")
    else if Contains(lowerInput, "i'm ") && userName.None? then
      assert "i'm " == "i'm" + " ";
      ContainsPrefix(lowerInput, "i'm", " ");
      NameAfter(lowerInput, "i'm")
    else Success(DefaultName)
  }

  /**
   * While no name is known and the reply is not a single word, the name is
   * taken after "my name is" if that occurs anywhere, else after "i am" if
   * "i am " occurs, else after "i'm" if "i'm " occurs, and is "Friend" otherwise.
   */
  lemma FallbackChoice(userInput: string)
    requires |SplitWhitespace(Lower(userInput))| != 1
    ensures var lower, r := Lower(userInput), DetectNameFallback(userInput, None);
      && (Contains(lower, "my name is") ==> NamedAfter(lower, "my name is", r))
      && (!Contains(lower, "my name is") && Contains(lower, "i am ") ==> NamedAfter(lower, "i am", r))
      && (!Contains(lower, "my name is") && !Contains(lower, "i am ") && Contains(lower, "i'm ") ==>
            NamedAfter(lower, "i'm", r))
      && (!Contains(lower, "my name is") && !Contains(lower, "i am ") && !Contains(lower, "i'm ") ==>
            r == Success(DefaultName))
  {
    var lower := Lower(userInput);
    if Contains(lower, "my name is") {
      NameAfterMeaning(lower, "my name is");
    } else if Contains(lower, "i am ") {
      assert "i am " == "i am" + " ";
      ContainsPrefix(lower, "i am", " ");
      NameAfterMeaning(lower, "i am");
    } else if Contains(lower, "i'm ") {
      assert "i'm " == "i'm" + " ";
      ContainsPrefix(lower, "i'm", " ");
      NameAfterMeaning(lower, "i'm");
    }
  }

  /** A single word typed on its own is taken as the name, capitalized. */
  lemma OneWordName(userInput: string, userName: Option<string>)
    requires |SplitWhitespace(Lower(userInput))| == 1
    ensures DetectNameFallback(userInput, userName) == Success(Capitalize(userInput))
  {
    CapitalizeLower(userInput);
  }

  lemma LowerIntroduction(w: string)
    ensures Lower("my name is " + w) == "my name is " + Lower(w)
  {
    LowerConcat("my name is ", w);
    LowerOfLower("my name is ");
  }

  /** "my name is ..." is never a single word. */
  lemma IntroductionWords(rest: string)
    ensures |SplitWhitespace("my name is " + rest)| != 1
  {
    var lower := "my name is " + rest;
    var tail := lower[2..];
    assert lower == "my" + tail;
    WordEndOfWord("my", tail);
    assert SplitWhitespace(lower) == ["my"] + SplitWhitespace(tail);
    SplitAllSpace(tail);
    assert !IsSpace(tail[1]);
  }

  lemma NameAfterIntroduction(lw: string)
    requires lw != [] && NoSpace(lw)
    ensures Contains("my name is " + lw, "my name is")
    ensures NameAfter("my name is " + lw, "my name is") == Success(Capitalize(lw))
  {
    var phrase := "my name is";
    var lower := "my name is " + lw;
    assert lower[0..|phrase|] == phrase;
    assert Find(lower, phrase) == Some(0);
    var rest := AfterFirst(lower, phrase);
    assert rest == [' '] + lw;
    assert StripLeft(rest) == lw by {
      assert rest[1..] == lw;
    }
    assert Strip(rest) == lw;
    SplitOneWord(lw);
  }

  /** "my name is" followed by a word: that word is the name, capitalized. */
  lemma IntroducedName(w: string)
    requires w != [] && NoSpace(w)
    ensures DetectNameFallback("my name is " + w, None) == Success(Capitalize(w))
  {
    LowerKeepsSpaces(w);
    LowerIntroduction(w);
    IntroductionWords(Lower(w));
    NameAfterIntroduction(Lower(w));
    CapitalizeLower(w);
  }

  // ---------------------------------------------------------------------------
  // Practice questions
  // ---------------------------------------------------------------------------

  /** `[q for q in questions if q not in used]`. */
  function Unused(questions: seq<string>, used: set<string>): (r: seq<string>)
    ensures |r| <= |questions|
  {
    if questions == [] then []
    else
      var last := questions[|questions| - 1];
      Unused(questions[..|questions| - 1], used) + (if last in used then [] else [last])
  }

  /** The questions still available are exactly the unused ones. */
  lemma {:induction false} UnusedMeaning(questions: seq<string>, used: set<string>)
    ensures forall q :: q in Unused(questions, used) <==> q in questions && q !in used
  {
    if questions != [] {
      var init := questions[..|questions| - 1];
      UnusedMeaning(init, used);
      assert questions == init + [questions[|questions| - 1]];
    }
  }

  /** Using one more question never makes more questions available. */
  lemma {:induction false} UnusedMonotone(questions: seq<string>, used: set<string>, q: string)
    ensures |Unused(questions, used + {q})| <= |Unused(questions, used)|
  {
    if questions != [] {
      UnusedMonotone(questions[..|questions| - 1], used, q);
    }
  }

  /** Asking an available question leaves strictly fewer available. */
  lemma {:induction false} UnusedShrinks(questions: seq<string>, used: set<string>, q: string)
    requires q in Unused(questions, used)
    ensures |Unused(questions, used + {q})| < |Unused(questions, used)|
  {
    var init, last := questions[..|questions| - 1], questions[|questions| - 1];
    if q in Unused(init, used) {
      UnusedShrinks(init, used, q);
    } else {
      UnusedMonotone(init, used, q);
    }
  }

  /** No question of the current topic is left. */
  predicate Exhausted(topic: string, used: set<string>)
    requires topic in PracticeTopics
    ensures Exhausted(topic, used) <==> forall q :: q in PracticeTopics[topic] ==> q in used
  {
    var available := Unused(PracticeTopics[topic], used);
    UnusedMeaning(PracticeTopics[topic], used);
    assert available != [] ==> available[0] in available;
    available == []
  }

  /**
   * The possible outcomes of `get_next_practice_question` from the current topic
   * and used questions: an unused question of the same topic, or, once the topic
   * is exhausted, a question of a different topic with the used set started afresh.
   */
  ghost predicate NextQuestion(topic: string, used: set<string>, topic': string, used': set<string>, question: string)
    requires topic in PracticeTopics
    ensures NextQuestion(topic, used, topic', used', question) ==> question in used' && used' - {question} <= used
  {
    && topic' in PracticeTopics
    && question in PracticeTopics[topic']
    && (!Exhausted(topic, used) ==> topic' == topic && question in Unused(PracticeTopics[topic], used) && used' == used + {question})
    && (Exhausted(topic, used) ==> topic' != topic && used' == {question})
  }

  /** There is always a next question: every topic has questions, and there is more than one topic. */
  lemma NextQuestionPossible(topic: string, used: set<string>)
    requires topic in PracticeTopics
    ensures exists topic', used', question :: NextQuestion(topic, used, topic', used', question)
  {
    if Exhausted(topic, used) {
      var other := if topic == "travel" then "hobbies" else "travel";
      PracticeTopicsShape(other);
      var q := PracticeTopics[other][0];
      assert NextQuestion(topic, used, other, {q}, q);
    } else {
      var q := Unused(PracticeTopics[topic], used)[0];
      UnusedMeaning(PracticeTopics[topic], used);
      assert NextQuestion(topic, used, topic, used + {q}, q);
    }
  }

  /**
   * A question asked without a change of topic was not asked before, and it
   * leaves fewer questions of the topic available.
   */
  lemma NextQuestionFresh(topic: string, used: set<string>, topic': string, used': set<string>, question: string)
    requires topic in PracticeTopics
    requires NextQuestion(topic, used, topic', used', question)
    requires !Exhausted(topic, used)
    ensures question !in used && question in used'
    ensures |Unused(PracticeTopics[topic'], used')| < |Unused(PracticeTopics[topic], used)|
  {
    UnusedMeaning(PracticeTopics[topic], used);
    UnusedShrinks(PracticeTopics[topic], used, question);
  }

  /** The used questions always belong to the current topic. */
  lemma NextQuestionOnTopic(topic: string, used: set<string>, topic': string, used': set<string>, question: string)
    requires topic in PracticeTopics
    requires forall q :: q in used ==> q in PracticeTopics[topic]
    requires NextQuestion(topic, used, topic', used', question)
    ensures forall q :: q in used' ==> q in PracticeTopics[topic']
  {
  }

  // ---------------------------------------------------------------------------
  // Replies
  // ---------------------------------------------------------------------------

  /** One named entity of a spaCy document: its text and its label (`label_`). */
  datatype Entity = Entity(text: string, kind: string)

  /** The `response_data` dictionary of a practice reply; `transition` is present only on a change of topic. */
  datatype PracticeReply = PracticeReply(responseComment: string, grammar: seq<string>, question: string, transition: Option<string>)

  datatype Reply = Message(text: string) | Practice(data: PracticeReply)

  /** The pair `respond` returns: the reply and the corrected sentence, `None` outside practice. */
  datatype Response = Response(reply: Reply, editedSentence: Option<string>)

  /** The text of the first entity whose label is in `labels`, as the `for ... break` loops find it. */
  function FirstLabelled(entities: seq<Entity>, labels: set<string>): (r: Option<string>)
    ensures r.None? <==> forall i :: 0 <= i < |entities| ==> entities[i].kind !in labels
    ensures r.Some? ==> exists i :: 0 <= i < |entities| && entities[i].kind in labels && r.value == entities[i].text
                           && forall j :: 0 <= j < i ==> entities[j].kind !in labels
  {
    if entities == [] then None
    else if entities[0].kind in labels then Some(entities[0].text)
    else
      var r := FirstLabelled(entities[1..], labels);
      assert forall i :: 0 < i < |entities| ==> entities[i] == entities[1..][i - 1];
      r
  }

  method FindEntity(entities: seq<Entity>, labels: set<string>) returns (text: Option<string>)
    ensures text == FirstLabelled(entities, labels)
  {
    var i := 0;
    while i < |entities|
      invariant i <= |entities|
      invariant FirstLabelled(entities, labels) == FirstLabelled(entities[i..], labels)
    {
      if entities[i].kind in labels {
        return Some(entities[i].text);
      }
      assert entities[i..][1..] == entities[i + 1..];
      i := i + 1;
    }
    return None;
  }

  /** The user's name: a PERSON entity, stripped and title-cased, when it is not empty; else the fallback rules. */
  function NameFor(userInput: string, entities: seq<Entity>, userName: Option<string>): (r: Result<string, NameError>)
    ensures r.Success? ==> r.value != []
  {
    var name := match FirstLabelled(entities, {"PERSON"}) case Some(t) => Title(Strip(t)) case None => "";
    if name != "" then Success(name) else DetectNameFallback(userInput, userName)
  }

  /** The name lookup of `respond`: the first PERSON entity, else the fallback rules. */
  method ChooseName(userInput: string, inputEntities: seq<Entity>, userName: Option<string>)
    returns (name: Result<string, NameError>)
    ensures name == NameFor(userInput, inputEntities, userName)
  {
    var person := FindEntity(inputEntities, {"PERSON"});
    var text := match person case Some(t) => Title(Strip(t)) case None => "";
    if text != "" {
      return Success(text);
    }
    name := DetectNameFallback(userInput, userName);
  }

  /** The reply once the name is known. */
  function NameGreeting(name: string, topic: string, question: string): (r: string)
    ensures 18 + |name| + |question| <= |r|
    ensures r[..18] == "Nice to meet you, " && r[18..18 + |name|] == name
    ensures r[|r| - |question|..] == question
  {
    "Nice to meet you, " + name + "! " + " " + "Let's practice with some questions about " + Spaced(topic) + ". " + " " + question
  }

  /** The labels worth a comment under `topic` (`.get(topic, set())`). */
  function RelevantLabels(topic: string): (r: set<string>)
    ensures r != {} <==> topic in ResponseTemplates
  {
    if topic in TopicEntityLabels then TopicEntityLabels[topic] else {}
  }

  /** The comments `respond` may open a practice reply with. */
  ghost predicate CommentFor(topic: string, entity: Option<string>, comment: string)
    ensures CommentFor(topic, entity, comment) ==> comment != []
  {
    if entity.Some? && entity.value != "" && topic in ResponseTemplates && ResponseTemplates[topic] != []
    then exists t :: t in ResponseTemplates[topic] && comment == Format(t, entity.value)
    else comment in PositiveFeedback
  }

  /** The state `respond` moves to when it succeeds; only a reset returns to the greeting. */
  function Advance(state: ConversationState): (s: ConversationState)
    ensures s != InitialGreeting
    ensures state != InitialGreeting ==> s == Conversing
  {
    match state
    case InitialGreeting => WaitingForName
    case WaitingForName => Conversing
    case Conversing => Conversing
  }

  /** Whatever the start, two successful replies reach the practice conversation, which then lasts. */
  lemma AdvanceReachesConversing(state: ConversationState)
    ensures Advance(Advance(state)) == Conversing
    ensures Advance(Conversing) == Conversing
  {
  }

  // ---------------------------------------------------------------------------
  // The tutor
  // ---------------------------------------------------------------------------

  class Tutor {
    var userName: Option<string>
    var currentTopic: string
    var currentQuestion: Option<string>
    var usedQuestions: set<string>
    var conversationState: ConversationState

    /**
     * The topic is one of the practice topics, the used questions are questions
     * of that topic, and no name is known before the practice conversation.
     */
    ghost predicate Valid()
      reads this
    {
      && currentTopic in PracticeTopics
      && (forall q :: q in usedQuestions ==> q in PracticeTopics[currentTopic])
      && (conversationState != Conversing ==> userName.None?)
    }

    /** `Jaide.__init__`: a random topic, no name, nothing asked yet, at the greeting. */
    constructor ()
      ensures Valid()
      ensures userName.None? && currentQuestion.None? && usedQuestions == {}
      ensures conversationState == InitialGreeting
    {
      assert "travel" in PracticeTopics;
      var topic :| topic in PracticeTopics;
      userName := None;
      currentTopic := topic;
      currentQuestion := None;
      usedQuestions := {};
      conversationState := InitialGreeting;
    }

    /** `reset_conversation`: forget the name and the used questions, pick a topic, greet again. */
    method ResetConversation()
      modifies this
      ensures Valid()
      ensures userName.None? && usedQuestions == {} && conversationState == InitialGreeting
      ensures currentTopic in PracticeTopics && currentQuestion == old(currentQuestion)
    {
      assert "travel" in PracticeTopics;
      var topic :| topic in PracticeTopics;
      userName := None;
      currentTopic := topic;
      usedQuestions := {};
      conversationState := InitialGreeting;
    }

    /** `get_next_practice_question`. */
    method GetNextPracticeQuestion() returns (question: string, topicChanged: bool)
      requires Valid()
      modifies this
      ensures Valid()
      ensures NextQuestion(old(currentTopic), old(usedQuestions), currentTopic, usedQuestions, question)
      ensures topicChanged <==> Exhausted(old(currentTopic), old(usedQuestions))
      ensures currentQuestion == Some(question)
      ensures userName == old(userName) && conversationState == old(conversationState)
    {
      var prevTopic := currentTopic;
      var availableQuestions := Unused(PracticeTopics[currentTopic], usedQuestions);
      UnusedMeaning(PracticeTopics[currentTopic], usedQuestions);
      topicChanged := false;
      if availableQuestions == [] {
        assert "travel" in PracticeTopics && "hobbies" in PracticeTopics;
        var topic :| topic in PracticeTopics && topic != prevTopic;
        currentTopic := topic;
        usedQuestions := {};
        availableQuestions := PracticeTopics[currentTopic];
        PracticeTopicsShape(currentTopic);
        topicChanged := true;
      }
      assert availableQuestions[0] in availableQuestions;
      question :| question in availableQuestions;
      currentQuestion := Some(question);
      usedQuestions := usedQuestions + {question};
    }

    /**
     * What the `WAITING_FOR_NAME` branch of `respond` does: when no name can be
     * determined nothing changes; otherwise the name is stored, the practice
     * conversation starts and its first question is asked.
     */
    twostate predicate NameTaken(userInput: string, inputEntities: seq<Entity>, new r: Result<Response, NameError>)
      requires old(currentTopic) in PracticeTopics
      reads this
    {
      var name := NameFor(userInput, inputEntities, old(userName));
      if name.Failure? then r == Failure(name.error) && unchanged(this)
      else Greeted(name.value, r)
    }

    /** The name is stored, the practice conversation starts and its first question is asked. */
    twostate predicate Greeted(name: string, new r: Result<Response, NameError>)
      requires old(currentTopic) in PracticeTopics
      reads this
    {
      && userName == Some(name) && currentQuestion.Some? && conversationState == Conversing
      && NextQuestion(old(currentTopic), old(usedQuestions), currentTopic, usedQuestions, currentQuestion.value)
      && r == Success(Response(Message(NameGreeting(name, currentTopic, currentQuestion.value)), None))
    }

    /**
     * What the `CONVERSING` branch of `respond` does: a comment on the sentence,
     * the grammar feedback, the corrected sentence and the next question, with a
     * transition line exactly when the topic changed.
     */
    twostate predicate PracticeAnswered(grammarFeedback: seq<string>, editedSentence: string, editedEntities: seq<Entity>,
                                        new r: Result<Response, NameError>)
      requires old(currentTopic) in PracticeTopics
      reads this
    {
      && r.Success? && userName == old(userName) && currentQuestion.Some? && conversationState == Conversing
      && NextQuestion(old(currentTopic), old(usedQuestions), currentTopic, usedQuestions, currentQuestion.value)
      && r.value.editedSentence == Some(editedSentence) && r.value.reply.Practice?
      && var data := r.value.reply.data;
         && data.question == currentQuestion.value && data.grammar == grammarFeedback
         && CommentFor(old(currentTopic), FirstLabelled(editedEntities, RelevantLabels(old(currentTopic))), data.responseComment)
         && (data.transition.Some? <==> Exhausted(old(currentTopic), old(usedQuestions)))
         && (data.transition.Some? ==>
              exists t :: t in TopicTransitionTemplates && data.transition.value == Format(t, Spaced(currentTopic)))
    }

    /** `respond`, with the outside calls' results as parameters. */
    method Respond(userInput: string, inputEntities: seq<Entity>, grammarFeedback: seq<string>,
                   editedSentence: string, editedEntities: seq<Entity>) returns (r: Result<Response, NameError>)
      requires Valid()
      modifies this
      ensures Valid()
      ensures r.Success? ==> conversationState == Advance(old(conversationState))
      ensures r.Failure? ==> conversationState == old(conversationState)
      ensures old(conversationState) == InitialGreeting ==>
        && r == Success(Response(Message(GreetingText), None))
        && userName == old(userName) && currentTopic == old(currentTopic)
        && usedQuestions == old(usedQuestions) && currentQuestion == old(currentQuestion)
      ensures old(conversationState) == WaitingForName ==>
        NameTaken(userInput, inputEntities, r)
      ensures old(conversationState) == Conversing ==>
        PracticeAnswered(grammarFeedback, editedSentence, editedEntities, r)
    {
      if conversationState == InitialGreeting {
        conversationState := WaitingForName;
        r := Success(Response(Message(GreetingText), None));
      } else if conversationState == WaitingForName {
        r := AcceptName(userInput, inputEntities);
      } else {
        r := Converse(grammarFeedback, editedSentence, editedEntities);
      }
    }

    /** The `WAITING_FOR_NAME` branch of `respond`: take the name, then ask the first question. */
    method AcceptName(userInput: string, inputEntities: seq<Entity>) returns (r: Result<Response, NameError>)
      requires Valid() && conversationState == WaitingForName
      modifies this
      ensures Valid()
      ensures conversationState == if r.Success? then Conversing else WaitingForName
      ensures NameTaken(userInput, inputEntities, r)
    {
      var chosen := ChooseName(userInput, inputEntities, userName);
      if chosen.Failure? {
        return Failure(chosen.error);
      }
      r := Greet(chosen.value);
    }

    /** The rest of the `WAITING_FOR_NAME` branch: store the name, then ask the first question. */
    method Greet(name: string) returns (r: Result<Response, NameError>)
      requires Valid()
      modifies this
      ensures Valid()
      ensures Greeted(name, r)
    {
      userName := Some(name);
      conversationState := Conversing;
      var question, topicChanged := GetNextPracticeQuestion();
      return Success(Response(Message(NameGreeting(name, currentTopic, question)), None));
    }

    /** The `CONVERSING` branch of `respond`: comment on the sentence, then ask the next question. */
    method Converse(grammarFeedback: seq<string>, editedSentence: string, editedEntities: seq<Entity>)
      returns (r: Result<Response, NameError>)
      requires Valid() && conversationState == Conversing
      modifies this
      ensures Valid()
      ensures r.Success? && conversationState == Conversing
      ensures PracticeAnswered(grammarFeedback, editedSentence, editedEntities, r)
    {
      var relevantLabels := RelevantLabels(currentTopic);
      var extracted := FindEntity(editedEntities, relevantLabels);
      var responseComment: string;
      if extracted.Some? && extracted.value != "" && currentTopic in ResponseTemplates && ResponseTemplates[currentTopic] != [] {
        var templates := ResponseTemplates[currentTopic];
        assert templates[0] in templates;
        var template :| template in templates;
        responseComment := Format(template, extracted.value);
      } else {
        assert PositiveFeedback[0] in PositiveFeedback;
        var comment :| comment in PositiveFeedback;
        responseComment := comment;
      }
      var question, topicChanged := GetNextPracticeQuestion();
      var transition: Option<string> := None;
      if topicChanged {
        assert TopicTransitionTemplates[0] in TopicTransitionTemplates;
        var template :| template in TopicTransitionTemplates;
        transition := Some(Format(template, Spaced(currentTopic)));
      }
      return Success(Response(Practice(PracticeReply(responseComment, grammarFeedback, question, transition)), Some(editedSentence)));
    }
  }
}
