/** The prompt and instruction templates of
    `TwitterScraper.analyze_tweets_with_gpt`. The assistant, thread and run
    calls that send them are a remote API and are not modelled. */
module Analysis {
  import opened Text

  /** The text sent as the user message, and the run's instructions. */
  datatype Request = Request(prompt: string, instructions: string)

  /** `prompt` is bound only for the two known analysis types; for any
      other the method fails with an unbound local before the message is
      sent. */
  datatype Built = Ready(request: Request) | PromptUnbound

  /** The fixed pieces of the two templates (lines 71-80). */
  const TopicsHead := "This person, "
  const TopicsMid := ", usually tweets about the following topics:\n"
  const TopicsTail := "\n\nWhat are the main topics this person tweets about? Please respond in "
  const TopicsLead := "Analyze the topics discussed in the tweets and "
  const AggressiveHead := "Here is a list of tweets by "
  const AggressiveMid := ":\n"
  const AggressiveTail := "\n\nPlease analyze if this person tends to use aggressive or offensive language in their tweets. Respond with your analysis in "
  const AggressiveLead := "Check if the tweets contain any aggressive or offensive language and "

  /** Lines 69-80: `username` is the handle with its `@`, the tweets are
      joined with line breaks. */
  function BuildRequest(username: string, tweets: seq<string>, language: string,
                        analyzeType: string): Built
  {
    var content := Join(tweets, "\n");
    if analyzeType == "main_topics" then
      Ready(Request(TopicsHead + username + TopicsMid + content + TopicsTail + language + ".",
                    TopicsLead + "respond in " + language + "."))
    else if analyzeType == "aggressive_language" then
      Ready(Request(AggressiveHead + username + AggressiveMid + content + AggressiveTail + language + ".",
                    AggressiveLead + "respond in " + language + "."))
    else PromptUnbound
  }

  /** Exactly the two known analysis types produce a request. */
  lemma RequestOnlyForKnownTypes(username: string, tweets: seq<string>, language: string,
                                 analyzeType: string)
    ensures BuildRequest(username, tweets, language, analyzeType).Ready?
            <==> analyzeType == "main_topics" || analyzeType == "aggressive_language"
  {
  }

  /** `x` ends with `suffix`. */
  predicate EndsWith(x: string, suffix: string) {
    |suffix| <= |x| && x[|x| - |suffix|..] == suffix
  }

  /** The prompt names the handle, carries the joined tweets and hence
      every single tweet, and asks for an answer in `language`; so do the
      instructions. */
  predicate Embeds(q: Request, username: string, tweets: seq<string>, language: string) {
    && IsInfix(username, q.prompt)
    && IsInfix(Join(tweets, "\n"), q.prompt)
    && (forall k :: 0 <= k < |tweets| ==> IsInfix(tweets[k], q.prompt))
    && EndsWith(q.prompt, language + ".")
    && EndsWith(q.instructions, "respond in " + language + ".")
  }

  /** What both templates guarantee: a prompt of the shape
      `head + username + mid + tweets joined + tail + language + "."` and
      instructions `lead + "respond in " + language + "."`. */
  lemma TemplateEmbeds(head: string, username: string, mid: string, tweets: seq<string>,
                       tail: string, lead: string, language: string)
    ensures Embeds(Request(head + username + mid + Join(tweets, "\n") + tail + language + ".",
                           lead + "respond in " + language + "."), username, tweets, language)
  {
    var content := Join(tweets, "\n");
    var p1 := head + username;
    var p2 := p1 + mid;
    var p3 := p2 + content;
    var p4 := p3 + tail;
    var p5 := p4 + language;
    var p := p5 + ".";
    InfixSelf(username);
    InfixExtend(username, username, head);
    InfixExtend(username, p1, mid);
    InfixExtend(username, p2, content);
    InfixExtend(username, p3, tail);
    InfixExtend(username, p4, language);
    InfixExtend(username, p5, ".");
    InfixSelf(content);
    InfixExtend(content, content, p2);
    InfixExtend(content, p3, tail);
    InfixExtend(content, p4, language);
    InfixExtend(content, p5, ".");
    PartsInfix(tweets, p);
    EndsWithLast(p4, language);
    EndsWithLast(lead + "respond in ", language);
  }

  /** Text that contains the joined tweets contains each of them. */
  lemma PartsInfix(tweets: seq<string>, p: string)
    requires IsInfix(Join(tweets, "\n"), p)
    ensures forall k :: 0 <= k < |tweets| ==> IsInfix(tweets[k], p)
  {
    forall k | 0 <= k < |tweets| ensures IsInfix(tweets[k], p) {
      JoinContainsPart(tweets, "\n", k);
      InfixTransitive(tweets[k], Join(tweets, "\n"), p);
    }
  }

  /** `x + y + "."` ends with `y + "."`. */
  lemma EndsWithLast(x: string, y: string)
    ensures EndsWith(x + y + ".", y + ".")
  {
    var p := x + y + ".";
    assert p[|x|..] == y + ".";
  }

  /** Whenever a request is built, it embeds the handle, the tweets and
      the response language. */
  lemma RequestEmbedsInputs(username: string, tweets: seq<string>, language: string,
                            analyzeType: string)
    requires BuildRequest(username, tweets, language, analyzeType).Ready?
    ensures Embeds(BuildRequest(username, tweets, language, analyzeType).request, username, tweets, language)
  {
    if analyzeType == "main_topics" {
      TemplateEmbeds(TopicsHead, username, TopicsMid, tweets, TopicsTail, TopicsLead, language);
    } else {
      TemplateEmbeds(AggressiveHead, username, AggressiveMid, tweets, AggressiveTail, AggressiveLead, language);
    }
  }

  /** The two analysis types ask different questions. */
  lemma TypesGiveDifferentRequests(username: string, tweets: seq<string>, language: string)
    ensures BuildRequest(username, tweets, language, "main_topics")
            != BuildRequest(username, tweets, language, "aggressive_language")
  {
    var a := BuildRequest(username, tweets, language, "main_topics").request;
    var b := BuildRequest(username, tweets, language, "aggressive_language").request;
    assert TopicsHead[0] == 'T' && AggressiveHead[0] == 'H';
    assert a.prompt[0] == TopicsHead[0];
    assert b.prompt[0] == AggressiveHead[0];
  }
}
