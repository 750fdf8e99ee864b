/** The decisions `get_bot_response` takes before it calls the chat model:
    whether the prompt is an email request, which language to answer in, and
    the message list sent to the model. The language detector, the
    environment and the mail service are outside the model; their results
    are parameters. */
module Assistant {
  import opened Wrappers
  import opened Text
  import opened Patterns
  import opened Scan
  import opened EmailIntent

  /** The phrases whose presence in the lower-cased prompt selects the email path. */
  const EmailKeywords: seq<string> := ["send email", "send an email", "send a mail", "send mail"]

  /** `needle` occurs in `hay` at position i. */
  predicate OccursAt(needle: string, hay: string, i: nat) {
    i + |needle| <= |hay| && hay[i..i + |needle|] == needle
  }

  /** `needle` occurs at some position of `hay`. */
  ghost predicate OccursIn(needle: string, hay: string) {
    exists i: nat :: OccursAt(needle, hay, i)
  }

  /** `needle in hay`, found by the same leftmost literal scan as `str.replace`. */
  function Contains(hay: string, needle: string): (b: bool)
    requires |needle| > 0
    ensures b <==> OccursIn(needle, hay)
  {
    ScanFindsOccurrence(hay, needle);
    FindAll(Literal(needle), hay) != []
  }

  /** The literal scan finds a match exactly when the needle occurs. */
  lemma ScanFindsOccurrence(hay: string, needle: string)
    requires |needle| > 0
    ensures FindAll(Literal(needle), hay) != [] <==> OccursIn(needle, hay)
  {
    FindAllFirst(Literal(needle), hay);
    if FindAll(Literal(needle), hay) != [] {
      var a: nat, e: nat :| LeftmostLongest(Literal(needle), hay, 0, a, e);
      assert OccursAt(needle, hay, a);
    }
    if OccursIn(needle, hay) {
      var i: nat :| OccursAt(needle, hay, i);
      assert Span(Literal(needle), hay, i, i + |needle|);
    }
  }

  /** The routing test of `get_bot_response`: the email path is taken exactly
      when one of the four keywords occurs in the lower-cased prompt. */
  function IsEmailRequest(prompt: string): (b: bool)
    ensures b <==> exists k :: 0 <= k < |EmailKeywords| && OccursIn(EmailKeywords[k], Lower(prompt))
  {
    var low := Lower(prompt);
    KeywordOccurs(low);
    Contains(low, "send email") || Contains(low, "send an email")
    || Contains(low, "send a mail") || Contains(low, "send mail")
  }

  lemma KeywordOccurs(low: string)
    ensures (Contains(low, "send email") || Contains(low, "send an email")
             || Contains(low, "send a mail") || Contains(low, "send mail"))
            <==> exists k :: 0 <= k < |EmailKeywords| && OccursIn(EmailKeywords[k], low)
  {
    if Contains(low, "send email") {
      assert EmailKeywords[0] == "send email";
    } else if Contains(low, "send an email") {
      assert EmailKeywords[1] == "send an email";
    } else if Contains(low, "send a mail") {
      assert EmailKeywords[2] == "send a mail";
    } else if Contains(low, "send mail") {
      assert EmailKeywords[3] == "send mail";
    }
  }

  // ---------------------------------------------------------------------
  // Language

  /** What the language detector reports: a language code, or an exception. */
  datatype Detection = Detected(code: string) | DetectionFailed

  /** `detect_language`: Bengali when the detector says so, English otherwise. */
  function DetectLanguage(d: Detection): (lang: string)
    ensures lang == "bn" || lang == "en"
    ensures lang == "bn" <==> d == Detected("bn")
  {
    match d
    case Detected(code) => if code == "bn" then "bn" else "en"
    case DetectionFailed => "en"
  }

  /** The sidebar's mapping from the selected option to the stored setting. */
  function LanguageSetting(option: string): (setting: string)
    ensures setting in {"auto", "en", "bn"}
    ensures setting == "bn" <==> option == "Bengali"
    ensures setting == "en" <==> option == "English"
  {
    if option == "Bengali" then "bn"
    else if option == "English" then "en"
    else "auto"
  }

  /** The language used to answer and to speak: the detector's verdict when
      the setting is "auto", the setting itself otherwise. */
  function EffectiveLanguage(setting: string, d: Detection): (lang: string)
    ensures setting == "auto" ==> lang == DetectLanguage(d)
    ensures setting != "auto" ==> lang == setting
  {
    if setting == "auto" then DetectLanguage(d) else setting
  }

  /** Every setting the sidebar can store yields English or Bengali. */
  lemma EffectiveLanguageSupported(option: string, d: Detection)
    ensures EffectiveLanguage(LanguageSetting(option), d) in {"en", "bn"}
  {
  }

  // ---------------------------------------------------------------------
  // The route

  const BengaliInstruction: string := "Please respond in Bengali (Bangla) language."

  datatype ChatMessage = ChatMessage(role: string, content: string)

  /** Where a prompt goes: the email handler (with its reply), the reply that
      the OpenRouter key is missing, or the chat model with the given messages. */
  datatype Route =
    | Email(handled: Handled)
    | MissingKey
    | Chat(messages: seq<ChatMessage>)

  /** `get_bot_response(prompt)` up to the model call. */
  function BotRoute(prompt: string, setting: string, d: Detection, hasKey: bool, outcome: SendOutcome): (r: Route)
    ensures r.Email? <==> IsEmailRequest(prompt)
    ensures r.Email? ==> r.handled == HandleEmailRequest(prompt, outcome)
    ensures r.MissingKey? <==> !IsEmailRequest(prompt) && !hasKey
    ensures r.Chat? ==> |r.messages| > 0 && r.messages[|r.messages| - 1] == ChatMessage("user", prompt)
    ensures r.Chat? ==> (|r.messages| == 2 <==> EffectiveLanguage(setting, d) == "bn")
    ensures r.Chat? && |r.messages| == 2 ==> r.messages[0] == ChatMessage("system", BengaliInstruction)
    ensures r.Chat? && EffectiveLanguage(setting, d) != "bn" ==> r.messages == [ChatMessage("user", prompt)]
  {
    if IsEmailRequest(prompt) then Email(HandleEmailRequest(prompt, outcome))
    else
      var lang := EffectiveLanguage(setting, d);
      if !hasKey then MissingKey
      else if lang == "bn" then
        Chat([ChatMessage("system", BengaliInstruction), ChatMessage("user", prompt)])
      else
        Chat([ChatMessage("user", prompt)])
  }
}
