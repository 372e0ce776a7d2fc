/**
 * The per-browser-session state of `main` and the transitions one script
 * run applies to it: first-run initialisation, choosing a quick example,
 * using up the pending example, "Clear Chat", "Save Chat" and recording one
 * user/assistant exchange per submission.
 */
module Session {
  import opened Wrappers
  import opened PyStr
  import opened Chat
  import opened Prompt
  import opened Reply

  /** Python truthiness of the pending example: present and non-empty. */
  predicate Pending(example: Option<string>) {
    example.Some? && example.value != ""
  }

  /** The turns come in user/assistant pairs, in that order. */
  predicate Paired(conversation: seq<Turn>) {
    |conversation| % 2 == 0
    && forall k :: 0 <= k < |conversation| ==> conversation[k].role == if k % 2 == 0 then UserRole else AssistantRole
  }

  /** Appending a user turn and then an assistant turn keeps the turns paired. */
  lemma PairedAppend(conversation: seq<Turn>, message: string, reply: string)
    requires Paired(conversation)
    ensures Paired(conversation + [Turn(UserRole, message), Turn(AssistantRole, reply)])
  {
    var after := conversation + [Turn(UserRole, message), Turn(AssistantRole, reply)];
    forall k | 0 <= k < |after|
      ensures after[k].role == if k % 2 == 0 then UserRole else AssistantRole
    {
      if k >= |conversation| {
        assert k == |conversation| || k == |conversation| + 1;
      }
    }
  }

  /** What the sidebar holds: the language and level menu entries and the Display Options. */
  datatype Settings = Settings(language: string, level: string, flags: Flags)

  /** The widget interaction that started a script run. */
  datatype Event = Idle | Typed(text: string) | ExampleClicked(phrase: string) | ClearClicked

  /** What one submission did: the messages sent, the reply text, the lines shown and the speech requested. */
  datatype Exchange = Exchange(messages: seq<Turn>, reply: string, shown: seq<string>, speech: seq<Speech>)

  /** What `st.chat_input` returns in a run: the text typed, or nothing. */
  function TypedText(event: Event): string
  {
    if event.Typed? then event.text else ""
  }

  /** The pending example is used up in a run exactly when nothing was typed. */
  predicate UsesExample(event: Event, example: Option<string>) {
    TypedText(event) == "" && Pending(example)
  }

  /** The text a run submits: what was typed, or else the pending example. */
  function Submitted(event: Event, example: Option<string>): (message: string)
    ensures TypedText(event) != "" ==> message == TypedText(event)
    ensures TypedText(event) == "" ==> message == if Pending(example) then example.value else ""
    ensures message == "" <==> TypedText(event) == "" && !Pending(example)
  {
    if UsesExample(event, example) then example.value else TypedText(event)
  }

  /** The exchange a submission produces from the session's turns before it. */
  function ExchangeFor(history: seq<Turn>, message: string, settings: Settings, remote: seq<Turn> -> Completion): Exchange
    requires FirstWord(settings.language).Some? && FirstWord(settings.level).Some?
  {
    var messages := [Turn(SystemRole, SystemPrompt(FirstWord(settings.language).value, FirstWord(settings.level).value,
                                                   Directives(settings.flags)))]
                    + history + [Turn(UserRole, message)];
    var reply := ReplyText(remote(messages));
    Exchange(messages, reply, Components(reply), [Speech(message, DefaultLocale)] + Spoken(Components(reply), settings.language))
  }

  /**
   * The request of a submission: the system prompt built from the first
   * words of the labels, then the earlier turns unchanged, then the message.
   */
  lemma ExchangeRequest(history: seq<Turn>, message: string, settings: Settings, remote: seq<Turn> -> Completion)
    requires FirstWord(settings.language).Some? && FirstWord(settings.level).Some?
    ensures var e := ExchangeFor(history, message, settings, remote);
      |e.messages| == |history| + 2
      && e.messages[0] == Turn(SystemRole, SystemPrompt(FirstWord(settings.language).value, FirstWord(settings.level).value,
                                                        Directives(settings.flags)))
      && e.messages[1..|history| + 1] == history
      && e.messages[|history| + 1] == Turn(UserRole, message)
  {
    var e := ExchangeFor(history, message, settings, remote);
    assert e.messages[1..|history| + 1] == history;
  }

  /**
   * The completion's answer, with its line breaks written as `\n` tokens,
   * becomes the reply `Response: Hola` / `Translation: Hello`, which shows
   * those two lines and speaks `Hola` once, in `es`.
   */
  lemma SpanishAnswer()
    ensures ReplyText(Answer("Response: Hola\\nTranslation: Hello\\n")) == "Response: Hola\nTranslation: Hello\n"
    ensures Components(ReplyText(Answer("Response: Hola\\nTranslation: Hello\\n"))) == ["Response: Hola", "Translation: Hello"]
    ensures Spoken(["Response: Hola", "Translation: Hello"], Languages[0]) == [Speech("Hola", "es")]
  {
    SpanishUnescape();
    SpanishReply();
  }

  /** Unescaping the example answer turns its two tokens into line breaks. */
  lemma SpanishUnescape()
    ensures Unescape("Response: Hola\\nTranslation: Hello\\n") == "Response: Hola\nTranslation: Hello\n"
  {
    SpanishLinesPlain();
    SpanishAnswerLines();
    SpanishReplyLines();
    UnescapeTwoLines("Response: Hola", "Translation: Hello");
  }

  /** The example's two lines hold no backslash. */
  lemma SpanishLinesPlain()
    ensures '\\' !in "Response: Hola" && '\\' !in "Translation: Hello"
  {
    PlainText("Response: ", "Hola");
    PlainText("Translation: ", "Hello");
  }

  /** The example answer is its two lines, each ended by a token. */
  lemma SpanishAnswerLines()
    ensures "Response: Hola" + EscapedNewline + "Translation: Hello" + EscapedNewline
      == "Response: Hola\\nTranslation: Hello\\n"
  {
  }

  /** The example reply is its two lines, each ended by a line break. */
  lemma SpanishReplyLines()
    ensures "Response: Hola" + "\n" + "Translation: Hello" + "\n" == "Response: Hola\nTranslation: Hello\n"
  {
  }

  /** One chat bubble of the history: its role, the lines it shows and the speech it requests. */
  datatype Bubble = Bubble(role: string, lines: seq<string>, speech: seq<Speech>)

  /**
   * How the history loop draws one turn: an assistant turn as its reply
   * components with their spoken lines, in the locale of the language
   * selected now; any other turn as its text, spoken in English.
   */
  function BubbleFor(turn: Turn, language: string): Bubble
  {
    if turn.role == AssistantRole then
      Bubble(turn.role, Components(turn.content), Spoken(Components(turn.content), language))
    else
      Bubble(turn.role, [turn.content], [Speech(turn.content, DefaultLocale)])
  }

  /** The history as drawn at the end of a run, one bubble per turn. */
  function History(conversation: seq<Turn>, language: string): seq<Bubble>
  {
    seq(|conversation|, k requires 0 <= k < |conversation| => BubbleFor(conversation[k], language))
  }

  /** The history of two stretches of turns is the history of each, one after the other. */
  lemma HistoryConcat(a: seq<Turn>, b: seq<Turn>, language: string)
    ensures History(a + b, language) == History(a, language) + History(b, language)
  {
    assert forall k :: 0 <= k < |a| + |b| ==>
      History(a + b, language)[k] == (History(a, language) + History(b, language))[k];
  }

  /**
   * After a submission the history gains exactly two bubbles: the user's
   * message spoken in English, and the reply drawn as the live reply was,
   * shown lines and spoken lines alike.
   */
  lemma HistoryAfterSubmission(history: seq<Turn>, message: string, settings: Settings, remote: seq<Turn> -> Completion)
    requires FirstWord(settings.language).Some? && FirstWord(settings.level).Some?
    ensures var e := ExchangeFor(history, message, settings, remote);
      History(history + [Turn(UserRole, message), Turn(AssistantRole, e.reply)], settings.language)
      == History(history, settings.language)
         + [Bubble(UserRole, [message], e.speech[..1]), Bubble(AssistantRole, e.shown, e.speech[1..])]
  {
    var e := ExchangeFor(history, message, settings, remote);
    var language := settings.language;
    HistoryAppend(history, Turn(UserRole, message), Turn(AssistantRole, e.reply), language);
    assert e.speech[..1] == [Speech(message, DefaultLocale)];
    assert e.speech[1..] == Spoken(e.shown, language);
    assert BubbleFor(Turn(UserRole, message), language) == Bubble(UserRole, [message], e.speech[..1]) by {
      assert UserRole != AssistantRole;
    }
  }

  /** Two more turns draw two more bubbles at the end of the history. */
  lemma HistoryAppend(history: seq<Turn>, first: Turn, second: Turn, language: string)
    ensures History(history + [first, second], language)
      == History(history, language) + [BubbleFor(first, language), BubbleFor(second, language)]
  {
    var after := History(history + [first, second], language);
    assert after[|history|] == BubbleFor(first, language);
    assert after[|history| + 1] == BubbleFor(second, language);
  }

  /**
   * The history speaks every reply in the locale of the language selected
   * now, whatever language was selected when the reply came.
   */
  lemma HistoryLocale(conversation: seq<Turn>, language: string)
    ensures forall b, sp :: b in History(conversation, language) && b.role == AssistantRole && sp in b.speech ==>
      sp.locale == LocaleFor(language)
  {
    forall b, sp | b in History(conversation, language) && b.role == AssistantRole && sp in b.speech
      ensures sp.locale == LocaleFor(language)
    {
      var k :| 0 <= k < |conversation| && History(conversation, language)[k] == b;
      SpokenExact(Components(conversation[k].content), language);
    }
  }

  class TutorSession {
    /** `st.session_state.conversation`. */
    var conversation: seq<Turn>
    /** `st.session_state.selected_example`. */
    var selectedExample: Option<string>

    ghost predicate Valid()
      reads this
    {
      Paired(conversation)
    }

    /** The first run of a session: no turns and no pending example. */
    constructor ()
      ensures Valid()
      ensures conversation == [] && selectedExample == None
    {
      conversation := [];
      selectedExample := None;
    }

    /** A quick-example button: the phrase becomes the pending example. */
    method ChooseExample(phrase: string)
      modifies this
      ensures selectedExample == Some(phrase)
      ensures conversation == old(conversation)
    {
      selectedExample := Some(phrase);
    }

    /**
     * The pending example is used only when nothing was typed, and is then
     * cleared; typed text always wins and leaves the pending example in place.
     */
    method TakePending(typed: string) returns (message: string)
      modifies this
      ensures conversation == old(conversation)
      ensures typed == "" && Pending(old(selectedExample)) ==>
        message == old(selectedExample).value && selectedExample == None
      ensures !(typed == "" && Pending(old(selectedExample))) ==>
        message == typed && selectedExample == old(selectedExample)
    {
      message := typed;
      if Pending(selectedExample) && typed == "" {
        message := selectedExample.value;
        selectedExample := None;
      }
    }

    /** "Clear Chat": no turns, whatever there were; the pending example is left alone. */
    method ClearChat()
      requires Valid()
      modifies this
      ensures Valid()
      ensures conversation == []
      ensures selectedExample == old(selectedExample)
    {
      conversation := [];
    }

    /** "Save Chat" is offered only with at least one turn, and offers the transcript. */
    method SaveChat() returns (download: Option<string>)
      ensures download.Some? <==> conversation != []
      ensures download.Some? ==> download.value == Transcript(conversation) && download.value != ""
    {
      if conversation != [] {
        TranscriptEmptyIff(conversation);
        download := Some(Transcript(conversation));
      } else {
        download := None;
      }
    }

    /**
     * One submission: the prompt gets the first word of the language and
     * level entries, the request carries the turns as they were before, the
     * reply is shown and its `Response:` line spoken, and then exactly one
     * user turn and one assistant turn holding the reply text verbatim
     * (an `Error: ...` text included) are appended.
     */
    method Submit(message: string, settings: Settings, remote: seq<Turn> -> Completion) returns (exchange: Exchange)
      requires Valid()
      requires FirstWord(settings.language).Some? && FirstWord(settings.level).Some?
      modifies this
      ensures Valid()
      ensures exchange == ExchangeFor(old(conversation), message, settings, remote)
      ensures conversation == old(conversation) + [Turn(UserRole, message), Turn(AssistantRole, exchange.reply)]
      ensures selectedExample == old(selectedExample)
    {
      var userSpeech := Speech(message, DefaultLocale);
      var language := FirstWord(settings.language).value;
      var level := FirstWord(settings.level).value;
      var reply, messages := GetAiResponse(language, level, message, conversation, settings.flags, remote);
      var shown, spoken := RenderReply(reply, settings.language);
      exchange := Exchange(messages, reply, shown, [userSpeech] + spoken);
      PairedAppend(conversation, message, reply);
      conversation := conversation + [Turn(UserRole, message), Turn(AssistantRole, reply)];
    }

    /**
     * One script run of `main`. A quick-example button sets the pending
     * example and reruns at once. Otherwise the pending example is taken if
     * nothing was typed; "Clear Chat" then empties the turns and reruns, so
     * an example taken in that run is dropped; otherwise "Save Chat" is
     * offered for the turns so far, a non-empty message is submitted, and
     * the history is drawn. A rerun stops the run at once: nothing is
     * offered and nothing is drawn.
     */
    method Run(event: Event, settings: Settings, remote: seq<Turn> -> Completion)
      returns (rerun: bool, download: Option<string>, exchange: Option<Exchange>, view: seq<Bubble>)
      requires Valid()
      requires !IsBlank(settings.language) && !IsBlank(settings.level)
      modifies this
      ensures Valid()
      ensures rerun <==> event.ExampleClicked? || event.ClearClicked?
      ensures rerun ==> download == None && view == []
      ensures event.ExampleClicked? ==>
        selectedExample == Some(event.phrase) && conversation == old(conversation) && exchange == None
      ensures event.ClearClicked? ==>
        conversation == [] && exchange == None
        && selectedExample == (if Pending(old(selectedExample)) then None else old(selectedExample))
      ensures !rerun ==>
        var message := Submitted(event, old(selectedExample));
        && download == (if old(conversation) == [] then None else Some(Transcript(old(conversation))))
        && selectedExample == (if UsesExample(event, old(selectedExample)) then None else old(selectedExample))
        && (message == "" ==> exchange == None && conversation == old(conversation))
        && (message != "" ==>
              exchange == Some(ExchangeFor(old(conversation), message, settings, remote))
              && conversation == old(conversation) + [Turn(UserRole, message), Turn(AssistantRole, exchange.value.reply)])
        && view == History(conversation, settings.language)
    {
      rerun, download, exchange, view := false, None, None, [];
      if event.ExampleClicked? {
        ChooseExample(event.phrase);
        rerun := true;
        return;
      }
      var message := TakePending(TypedText(event));
      if event.ClearClicked? {
        ClearChat();
        rerun := true;
        return;
      }
      download := SaveChat();
      if message != "" {
        assert FirstWord(settings.language).Some? && FirstWord(settings.level).Some?;
        var e := Submit(message, settings, remote);
        exchange := Some(e);
      }
      view := History(conversation, settings.language);
    }
  }

  /**
   * A quick example is sent exactly once: clicking it reruns without sending
   * anything, the next run sends the phrase as the user's message, and the
   * run after that sends nothing and leaves the two new turns in place.
   */
  method ExampleSentOnce(phrase: string, settings: Settings, remote: seq<Turn> -> Completion)
    returns (clicked: Option<Exchange>, sent: Option<Exchange>, after: Option<Exchange>, turns: seq<Turn>)
    requires phrase != ""
    requires !IsBlank(settings.language) && !IsBlank(settings.level)
    ensures clicked == None && after == None
    ensures sent.Some? && |sent.value.messages| == 2
    ensures sent.value.messages[0].role == SystemRole && sent.value.messages[1] == Turn(UserRole, phrase)
    ensures turns == [Turn(UserRole, phrase), Turn(AssistantRole, sent.value.reply)]
  {
    var session := new TutorSession();
    var rerun, download, view;
    rerun, download, clicked, view := session.Run(ExampleClicked(phrase), settings, remote);
    assert session.conversation == [] && session.selectedExample == Some(phrase);
    rerun, download, sent, view := session.Run(Idle, settings, remote);
    assert sent == Some(ExchangeFor([], phrase, settings, remote));
    assert session.selectedExample == None;
    ghost var middle := session.conversation;
    rerun, download, after, view := session.Run(Idle, settings, remote);
    assert session.conversation == middle;
    turns := session.conversation;
    ExchangeRequest([], phrase, settings, remote);
  }
}
