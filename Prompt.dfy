/**
 * `get_ai_response`: the system prompt built from the language, the level and
 * the three Display Options, the request sent to the chat-completion service,
 * and the reply text made from its outcome.
 */
module Prompt {
  import opened PyStr
  import opened Chat

  /** The literal two-character token `\n` (a backslash, then `n`) the prompt asks the model to use as line break. */
  const EscapedNewline: string := "\\n"

  /** The Display Options toggles. */
  datatype Flags = Flags(pronunciation: bool, translation: bool, corrections: bool)

  /** How many of the toggles are on. */
  function Enabled(f: Flags): nat
  {
    (if f.pronunciation then 1 else 0) + (if f.translation then 1 else 0) + (if f.corrections then 1 else 0)
  }

  /** The three optional directives, in the one order the prompt may list them. */
  datatype Directive = Pronunciation | Translation | Corrections

  /** A directive's position in that order. */
  function Rank(d: Directive): nat
  {
    match d
    case Pronunciation => 0
    case Translation => 1
    case Corrections => 2
  }

  /**
   * What a directive asks the model to write on its line. Long literals are
   * written in pieces of a few dozen characters so that facts about their
   * characters stay cheap to check.
   */
  function Body(d: Directive): string
  {
    match d
    case Pronunciation => "(Pronunciation: " + "[Simple phonetic pronunciation guide])"
    case Translation => "Translation: " + "[English translation]"
    case Corrections => "Corrections: " + "[Any corrections or suggestions]"
  }

  /** A directive's entry in the prompt: its text, then the escaped newline token. */
  function Text(d: Directive): string
  {
    Body(d) + EscapedNewline
  }

  /** The directives the toggles ask for. */
  function Kinds(f: Flags): seq<Directive>
  {
    (if f.pronunciation then [Pronunciation] else [])
    + (if f.translation then [Translation] else [])
    + (if f.corrections then [Corrections] else [])
  }

  /** The entries of a list of directives. */
  function Texts(ds: seq<Directive>): seq<string>
  {
    seq(|ds|, k requires 0 <= k < |ds| => Text(ds[k]))
  }

  /** The entries of two lists of directives are the entries of each, one after the other. */
  lemma TextsConcat(a: seq<Directive>, b: seq<Directive>)
    ensures Texts(a + b) == Texts(a) + Texts(b)
  {
    var whole, parts := Texts(a + b), Texts(a) + Texts(b);
    forall k | 0 <= k < |a| + |b| ensures whole[k] == parts[k] {
      if k < |a| {
        assert (a + b)[k] == a[k];
      } else {
        assert (a + b)[k] == b[k - |a|];
      }
    }
  }

  /** The optional entries of the prompt, as `get_ai_response` lists them. */
  function Directives(f: Flags): seq<string>
  {
    Texts(Kinds(f))
  }

  /**
   * One entry per enabled toggle and none for a disabled one, in the fixed
   * order pronunciation, translation, corrections, each entry ending with
   * the escaped newline token.
   */
  lemma DirectivesFollowFlags(f: Flags)
    ensures |Directives(f)| == |Kinds(f)| == Enabled(f)
    ensures Pronunciation in Kinds(f) <==> f.pronunciation
    ensures Translation in Kinds(f) <==> f.translation
    ensures Corrections in Kinds(f) <==> f.corrections
    ensures forall i, j :: 0 <= i < j < |Kinds(f)| ==> Rank(Kinds(f)[i]) < Rank(Kinds(f)[j])
    ensures forall k :: 0 <= k < |Directives(f)| ==> Directives(f)[k] == Body(Kinds(f)[k]) + EscapedNewline
  {
  }

  /**
   * Builds the list of optional directives by appending one entry per enabled
   * toggle, in the order pronunciation, translation, corrections.
   */
  method BuildComponents(f: Flags) returns (components: seq<string>)
    ensures components == Directives(f)
  {
    components := [];
    if f.pronunciation {
      components := components + [Text(Pronunciation)];
    }
    if f.translation {
      components := components + [Text(Translation)];
    }
    if f.corrections {
      components := components + [Text(Corrections)];
    }
  }

  // The fixed text around the interpolated values of the prompt.
  const Opening: string := "You are a helpful " + "language learning partner for "
  const AfterLanguage: string := ". \n" + "    Adjust to "
  const FormatRequest: string := " level. Keep responses " + "natural and simple. \n"
    + "    Format your response with " + "exactly these line breaks using '"
  const AfterFormatRequest: string := "':\n" + "    \n" + "    "
  const BeforeComponents: string := "\n    "
  const Closing: string := "\n    "

  /** The mandatory directive: the phrase in the target language, on a line that starts with `Response:`. */
  function ResponseDirective(language: string): string
  {
    "Response: [Phrase in " + language + "]" + EscapedNewline
  }

  /** The prompt's lines before the `Response:` directive: the persona, the level and the format request. */
  function Preamble(language: string, level: string): string
  {
    (Opening + language + AfterLanguage) + (level + FormatInstruction)
  }

  /** The rest of the level line and the line asking for the escaped newline token as line break. */
  const FormatInstruction: string := FormatRequest + EscapedNewline + AfterFormatRequest

  /** The system prompt, with `components` joined without separator after the `Response:` directive. */
  function SystemPrompt(language: string, level: string, components: seq<string>): string
  {
    Preamble(language, level) + ResponseDirective(language) + ComponentLines(components)
  }

  /** The optional entries, joined without separator, on the line after the `Response:` directive. */
  function ComponentLines(components: seq<string>): string
  {
    BeforeComponents + Join("", components) + Closing
  }

  // ---------------------------------------------------------------------
  // Counting and removing the escaped newline token

  /** Occurrences of the two-character token `\n` in `s`, overlapping or not. */
  function Escapes(s: string): nat
    decreases |s|
  {
    if |s| < 2 then 0
    else (if s[0] == '\\' && s[1] == 'n' then 1 else 0) + Escapes(s[1..])
  }

  /** Without a backslash there is no token. */
  lemma {:induction false} EscapesNoBackslash(s: string)
    requires '\\' !in s
    ensures Escapes(s) == 0
    decreases |s|
  {
    if |s| >= 2 { EscapesNoBackslash(s[1..]); }
  }

  /** Tokens of a concatenation, when no token straddles the seam. */
  lemma {:induction false} EscapesConcat(a: string, b: string)
    requires a == [] || b == [] || a[|a| - 1] != '\\' || b[0] != 'n'
    ensures Escapes(a + b) == Escapes(a) + Escapes(b)
    decreases |a|
  {
    if a == [] {
      assert a + b == b;
    } else if b == [] {
      assert a + b == a;
    } else {
      var c := a + b;
      EscapesConcat(a[1..], b);
      assert c[1..] == a[1..] + b;
      var head := if c[0] == '\\' && c[1] == 'n' then 1 else 0;
      assert Escapes(c) == head + Escapes(a[1..] + b);
      if |a| == 1 {
        assert c[1] == b[0];
        assert head == 0;
        assert a[1..] == [];
      } else {
        assert c[1] == a[1];
      }
    }
  }

  /** A backslash-free text followed by the token holds exactly that one token. */
  lemma TerminatedEscapes(body: string)
    requires '\\' !in body
    ensures Escapes(body + EscapedNewline) == 1
  {
    EscapesNoBackslash(body);
    EscapesConcat(body, EscapedNewline);
  }

  /** Each directive's entry carries exactly one token, at its end. */
  lemma TextEscapes(d: Directive)
    ensures Escapes(Text(d)) == 1
    ensures |Text(d)| >= 2 && Text(d)[|Text(d)| - 1] != '\\'
  {
    BodyHasNoBackslash(d);
    TerminatedEscapes(Body(d));
    assert Text(d)[|Text(d)| - 1] == EscapedNewline[1];
  }

  /** No directive's text holds a backslash of its own. */
  lemma BodyHasNoBackslash(d: Directive)
    ensures '\\' !in Body(d)
  {
    match d
    case Pronunciation => PlainText("(Pronunciation: ", "[Simple phonetic pronunciation guide])");
    case Translation => PlainText("Translation: ", "[English translation]");
    case Corrections => PlainText("Corrections: ", "[Any corrections or suggestions]");
  }

  /** Two backslash-free pieces make a backslash-free text. */
  lemma PlainText(a: string, b: string)
    requires forall i :: 0 <= i < |a| ==> a[i] != '\\'
    requires forall i :: 0 <= i < |b| ==> b[i] != '\\'
    ensures '\\' !in a + b
  {
  }

  /** The tokens of the joined entries: one per directive. */
  lemma JoinedDirectiveEscapes(ds: seq<Directive>)
    ensures Escapes(Join("", Texts(ds))) == |ds|
  {
    var ts := Texts(ds);
    forall k | 0 <= k < |ts|
      ensures Escapes(ts[k]) == 1 && ts[k] != [] && ts[k][|ts[k]| - 1] != '\\'
    {
      TextEscapes(ds[k]);
    }
    JoinedEscapes(ts);
  }

  /** Texts holding one token each and not ending in a backslash, joined back to back, hold one token each. */
  lemma {:induction false} JoinedEscapes(ts: seq<string>)
    requires forall k :: 0 <= k < |ts| ==> Escapes(ts[k]) == 1 && ts[k] != [] && ts[k][|ts[k]| - 1] != '\\'
    ensures Escapes(Join("", ts)) == |ts|
    decreases |ts|
  {
    if |ts| > 1 {
      JoinedEscapes(ts[1..]);
      var rest := Join("", ts[1..]);
      assert Join("", ts) == ts[0] + rest;
      EscapesConcat(ts[0], rest);
    }
  }

  /** A token-free text on each side, the right one not starting with `n`, adds no token. */
  lemma EscapesBetween(a: string, m: string, b: string)
    requires '\\' !in a && '\\' !in b
    requires b != [] && b[0] != 'n'
    ensures Escapes(a + m + b) == Escapes(m)
    ensures (a + m + b)[|a + m + b| - 1] == b[|b| - 1]
  {
    EscapesNoBackslash(a);
    EscapesNoBackslash(b);
    EscapesConcat(a, m);
    EscapesConcat(a + m, b);
  }

  /** The format instruction quotes the token once. */
  lemma FormatInstructionEscapes()
    ensures Escapes(FormatInstruction) == 1
    ensures FormatInstruction[0] == ' ' && FormatInstruction[|FormatInstruction| - 1] == ' '
  {
    EscapesBetween(FormatRequest, EscapedNewline, AfterFormatRequest);
  }

  /** The opening lines up to the `Response:` directive: the quoted token plus those of the language and level. */
  lemma PreambleEscapes(language: string, level: string)
    ensures Escapes(Preamble(language, level)) == 1 + Escapes(language) + Escapes(level)
    ensures Preamble(language, level)[|Preamble(language, level)| - 1] == ' '
  {
    FormatInstructionEscapes();
    EscapesBetween(Opening, language, AfterLanguage);
    EscapesConcat(level, FormatInstruction);
    EscapesConcat(Opening + language + AfterLanguage, level + FormatInstruction);
  }

  /** The `Response:` directive: its own token plus those of the language. */
  lemma ResponseDirectiveEscapes(language: string)
    ensures Escapes(ResponseDirective(language)) == 1 + Escapes(language)
    ensures ResponseDirective(language)[0] == 'R'
  {
    var labelled := "Response: [Phrase in " + language + "]";
    EscapesBetween("Response: [Phrase in ", language, "]");
    EscapesConcat(labelled, EscapedNewline);
  }

  /**
   * The escaped newline tokens of the system prompt: the one quoted in the
   * format request, the one ending the `Response:` directive and one per
   * enabled toggle, besides any inside the interpolated language and level.
   */
  lemma PromptEscapes(language: string, level: string, f: Flags)
    ensures Escapes(SystemPrompt(language, level, Directives(f)))
      == 2 + Enabled(f) + 2 * Escapes(language) + Escapes(level)
  {
    assert |Kinds(f)| == Enabled(f);
    JoinedDirectiveEscapes(Kinds(f));
    EscapesBetween(BeforeComponents, Join("", Directives(f)), Closing);
    var head := Preamble(language, level);
    PreambleEscapes(language, level);
    var rd := ResponseDirective(language);
    ResponseDirectiveEscapes(language);
    EscapesConcat(head, rd);
    EscapesConcat(head + rd, ComponentLines(Directives(f)));
  }

  // ---------------------------------------------------------------------
  // The completion call and the reply text

  /** `content.replace("\\n", "\n")`: each escaped newline token becomes a real line break. */
  function Unescape(s: string): string
  {
    Replace(s, EscapedNewline, "\n")
  }

  /** `s` starts with the token exactly when its first two characters are a backslash and `n`. */
  lemma StartsWithToken(s: string)
    ensures EscapedNewline <= s <==> |s| >= 2 && s[0] == '\\' && s[1] == 'n'
  {
    if |s| >= 2 && s[0] == '\\' && s[1] == 'n' {
      assert s[..2] == EscapedNewline;
    }
  }

  /** `count` of the token finds every occurrence: two tokens never overlap. */
  lemma {:induction false} CountIsEscapes(s: string)
    ensures Count(s, EscapedNewline) == Escapes(s)
    decreases |s|
  {
    StartsWithToken(s);
    if |s| >= 2 {
      if EscapedNewline <= s {
        CountIsEscapes(s[2..]);
        assert s[1..][1..] == s[2..];
        assert s[1..][0] != '\\';
        assert Escapes(s[1..]) == Escapes(s[2..]);
      } else {
        CountIsEscapes(s[1..]);
      }
    }
  }

  /** The result is shorter than the input by one character per replaced token. */
  lemma UnescapeLength(s: string)
    ensures |Unescape(s)| == |s| - Escapes(s)
  {
    ReplaceLength(s, EscapedNewline, "\n");
    CountIsEscapes(s);
  }

  /** Unescaping keeps the string empty or not, and an `n` in front or not. */
  lemma {:induction false} UnescapeFront(s: string)
    ensures Unescape(s) == [] <==> s == []
    ensures s != [] ==> (Unescape(s)[0] == 'n' <==> s[0] == 'n')
    decreases |s|
  {
    StartsWithToken(s);
  }

  /** No escaped newline token is left after unescaping, not even one formed across a replacement. */
  lemma {:induction false} UnescapeClears(s: string)
    ensures Escapes(Unescape(s)) == 0
    decreases |s|
  {
    StartsWithToken(s);
    if |s| >= 2 {
      var u := Unescape(s);
      if EscapedNewline <= s {
        UnescapeClears(s[2..]);
        assert u == "\n" + Unescape(s[2..]);
        EscapesConcat("\n", Unescape(s[2..]));
      } else {
        UnescapeClears(s[1..]);
        UnescapeFront(s[1..]);
        assert u == [s[0]] + Unescape(s[1..]);
        EscapesConcat([s[0]], Unescape(s[1..]));
      }
    }
  }

  /** A string without the token is left as it is. */
  lemma UnescapeFixed(s: string)
    requires Escapes(s) == 0
    ensures Unescape(s) == s
  {
    CountIsEscapes(s);
    CountPositiveIffOccurs(s, EscapedNewline);
    ReplaceAbsent(s, EscapedNewline, "\n");
  }

  /** Unescaping twice gives what unescaping once gives. */
  lemma UnescapeIdempotent(s: string)
    ensures Unescape(Unescape(s)) == Unescape(s)
  {
    UnescapeClears(s);
    UnescapeFixed(Unescape(s));
  }

  /** A backslash-free text in front is kept as it is. */
  lemma {:induction false} UnescapePlain(s: string, rest: string)
    requires '\\' !in s
    ensures Unescape(s + rest) == s + Unescape(rest)
    decreases |s|
  {
    if s == [] {
      assert s + rest == rest;
    } else {
      var t := s + rest;
      assert t[1..] == s[1..] + rest;
      UnescapePlain(s[1..], rest);
      StartsWithToken(t);
      if |t| < 2 {
        assert s == t && rest == [];
      } else {
        assert Unescape(t) == [s[0]] + Unescape(t[1..]);
      }
    }
  }

  /** A token in front becomes a line break, and unescaping carries on after it. */
  lemma UnescapeToken(rest: string)
    ensures Unescape(EscapedNewline + rest) == "\n" + Unescape(rest)
  {
    var t := EscapedNewline + rest;
    assert t[|EscapedNewline|..] == rest;
    ReplaceFront(t, EscapedNewline, "\n");
  }

  /** Two backslash-free lines, each ended by a token, unescape to the lines each ended by a line break. */
  lemma UnescapeTwoLines(first: string, second: string)
    requires '\\' !in first && '\\' !in second
    ensures Unescape(first + EscapedNewline + second + EscapedNewline) == first + "\n" + second + "\n"
  {
    var tail := second + EscapedNewline;
    assert first + EscapedNewline + second + EscapedNewline == first + (EscapedNewline + tail);
    UnescapePlain(first, EscapedNewline + tail);
    UnescapeToken(tail);
    UnescapePlain(second, EscapedNewline);
    assert EscapedNewline + [] == EscapedNewline;
    UnescapeToken([]);
  }

  /** What the chat-completion service gives back: the message text, or the error it raised. */
  datatype Completion = Answer(content: string) | Failure(message: string)

  /**
   * The text `get_ai_response` returns: the unescaped message, or the error
   * rendered as text. Either way a string, never an exception.
   */
  function ReplyText(c: Completion): (r: string)
    ensures c.Failure? ==> StartsWith(r, "Error: ") && r[|"Error: "|..] == c.message
    ensures c.Answer? ==> Escapes(r) == 0 && |r| == |c.content| - Escapes(c.content)
  {
    match c
    case Answer(text) =>
      UnescapeClears(text);
      UnescapeLength(text);
      Unescape(text)
    case Failure(message) => "Error: " + message
  }

  /**
   * `get_ai_response`: builds the directive list and the system prompt, sends
   * the system prompt, the history as given and the new user message to the
   * completion service, and turns the outcome into reply text.
   */
  method GetAiResponse(language: string, level: string, userMessage: string, history: seq<Turn>, f: Flags,
                       remote: seq<Turn> -> Completion)
    returns (reply: string, messages: seq<Turn>)
    ensures messages == [Turn(SystemRole, SystemPrompt(language, level, Directives(f)))] + history + [Turn(UserRole, userMessage)]
    ensures reply == ReplyText(remote(messages))
  {
    var components := BuildComponents(f);
    var systemPrompt := SystemPrompt(language, level, components);
    messages := [Turn(SystemRole, systemPrompt)] + history + [Turn(UserRole, userMessage)];
    reply := ReplyText(remote(messages));
  }
}
