/**
 * What `main` does with a reply: split it on line breaks, show every
 * non-blank line as it is, and speak the text of each line that starts with
 * `Response:` in the locale of the selected language.
 */
module Reply {
  import opened Wrappers
  import opened PyStr

  const ResponseLabel: string := "Response:"

  // ---------------------------------------------------------------------
  // The language menu and the locale lookup

  /** The language menu, in its order. */
  const Languages: seq<string> := [
    "Spanish \U{1F1EA}\U{1F1F8}", "French \U{1F1EB}\U{1F1F7}", "German \U{1F1E9}\U{1F1EA}",
    "Italian \U{1F1EE}\U{1F1F9}", "Japanese \U{1F1EF}\U{1F1F5}", "Korean \U{1F1F0}\U{1F1F7}",
    "Chinese \U{1F1E8}\U{1F1F3}"]

  /** The speech locale of each menu language, in the menu's order. */
  const Codes: seq<string> := ["es", "fr", "de", "it", "ja", "ko", "zh-CN"]

  /** The level menu, in its order. */
  const Levels: seq<string> := ["Beginner \U{1F331}", "Intermediate \U{1F33F}", "Advanced \U{1F333}"]

  /** The first token of each menu entry, which is all the prompt receives of it. */
  const LanguageNames: seq<string> := ["Spanish", "French", "German", "Italian", "Japanese", "Korean", "Chinese"]
  const LevelNames: seq<string> := ["Beginner", "Intermediate", "Advanced"]

  /** The prompt names a menu language or level by its first word only, leaving out the emoji. */
  lemma MenuFirstWords()
    ensures forall k :: 0 <= k < |Languages| ==> FirstWord(Languages[k]) == Some(LanguageNames[k])
    ensures forall k :: 0 <= k < |Levels| ==> FirstWord(Levels[k]) == Some(LevelNames[k])
  {
    forall k | 0 <= k < |Languages| ensures FirstWord(Languages[k]) == Some(LanguageNames[k]) {
      EntryFirstWord(Languages[k], LanguageNames[k]);
    }
    forall k | 0 <= k < |Levels| ensures FirstWord(Levels[k]) == Some(LevelNames[k]) {
      EntryFirstWord(Levels[k], LevelNames[k]);
    }
  }

  /** A menu entry that is a name, a space and an emoji has that name as its first word. */
  lemma EntryFirstWord(entry: string, name: string)
    requires name != [] && forall k :: 0 <= k < |name| ==> !IsSpace(name[k])
    requires |name| < |entry| && entry[..|name|] == name && entry[|name|] == ' '
    ensures FirstWord(entry) == Some(name)
  {
    var rest := entry[|name|..];
    assert entry == name + rest;
    FirstWordOfLabel(name, rest);
  }

  /** The `lang_codes` dictionary. */
  const LangCodes: map<string, string> := map[
    Languages[0] := Codes[0], Languages[1] := Codes[1], Languages[2] := Codes[2],
    Languages[3] := Codes[3], Languages[4] := Codes[4], Languages[5] := Codes[5],
    Languages[6] := Codes[6]]

  const DefaultLocale: string := "en"

  /** `lang_codes.get(language, "en")`. */
  function LocaleFor(language: string): string
  {
    if language in LangCodes then LangCodes[language] else DefaultLocale
  }

  /**
   * Each menu language has its own fixed code, and every other key gets
   * `en`; no menu language is spoken as `en`.
   */
  lemma LocaleTable(language: string)
    ensures forall k :: 0 <= k < |Languages| ==> LocaleFor(Languages[k]) == Codes[k]
    ensures language !in Languages ==> LocaleFor(language) == DefaultLocale
    ensures LocaleFor(language) == DefaultLocale <==> language !in Languages
  {
  }

  // ---------------------------------------------------------------------
  // The reply components

  /** A line with a non-whitespace character: the only kind that is shown. */
  predicate Shown(line: string) {
    !IsBlank(line)
  }

  /** `component.strip()` is non-empty exactly for the shown lines. */
  lemma ShownIffStripNonEmpty(line: string)
    ensures Shown(line) <==> Strip(line) != ""
  {
    StripSpec(line);
  }

  /** The shown lines of `pieces`, in order and unstripped. */
  function Displayed(pieces: seq<string>): seq<string>
    decreases |pieces|
  {
    if pieces == [] then []
    else
      var last := pieces[|pieces| - 1];
      Displayed(pieces[..|pieces| - 1]) + (if Shown(last) then [last] else [])
  }

  /** The components of a reply: the shown lines of its `split('\n')`. */
  function Components(reply: string): seq<string>
  {
    Displayed(Split(reply, '\n'))
  }

  /** `a` is `b` with some elements left out and the rest kept in order. */
  predicate Subsequence(a: seq<string>, b: seq<string>)
    decreases |b|
  {
    if a == [] then true
    else if b == [] then false
    else (a[|a| - 1] == b[|b| - 1] && Subsequence(a[..|a| - 1], b[..|b| - 1])) || Subsequence(a, b[..|b| - 1])
  }

  /** Adding the same element at the end of both lists, or at the end of the longer one only, keeps the relation. */
  lemma SubsequenceSnoc(a: seq<string>, b: seq<string>, x: string)
    requires Subsequence(a, b)
    ensures Subsequence(a + [x], b + [x])
    ensures Subsequence(a, b + [x])
  {
    assert (a + [x])[..|a|] == a;
    assert (b + [x])[..|b|] == b;
  }

  /** The displayed components keep the order of the pieces. */
  lemma {:induction false} DisplayedInOrder(pieces: seq<string>)
    ensures Subsequence(Displayed(pieces), pieces)
    decreases |pieces|
  {
    if pieces != [] {
      var init := pieces[..|pieces| - 1];
      var last := pieces[|pieces| - 1];
      DisplayedInOrder(init);
      var d := Displayed(init);
      SubsequenceSnoc(d, init, last);
      assert init + [last] == pieces;
      if Shown(last) {
        assert Displayed(pieces) == d + [last];
      } else {
        assert Displayed(pieces) == d;
      }
    }
  }

  /**
   * The displayed components are exactly the shown lines: each shown line as
   * often as the pieces hold it, and no line that is not shown.
   */
  lemma {:induction false} DisplayedCounts(pieces: seq<string>)
    ensures forall x :: multiset(Displayed(pieces))[x] == if Shown(x) then multiset(pieces)[x] else 0
    decreases |pieces|
  {
    if pieces != [] {
      var init := pieces[..|pieces| - 1];
      var last := pieces[|pieces| - 1];
      DisplayedCounts(init);
      assert pieces == init + [last];
      assert multiset(pieces) == multiset(init) + multiset{last};
    }
  }

  // ---------------------------------------------------------------------
  // The spoken line

  /** `component.startswith("Response:")`: checked on the raw line, so leading whitespace rules it out. */
  predicate IsSpoken(component: string) {
    StartsWith(component, ResponseLabel)
  }

  /** `component.replace("Response:", "").strip()`. */
  function SpokenText(component: string): string
  {
    Strip(Replace(component, ResponseLabel, ""))
  }

  /** A line indented by whitespace is never spoken, whether or not it is shown. */
  lemma IndentedNotSpoken(component: string)
    requires component != [] && IsSpace(component[0])
    ensures !IsSpoken(component)
  {
    assert ResponseLabel[0] == 'R';
  }

  /**
   * The spoken text drops every occurrence of the label, not only the one in
   * front, then trims whitespace: it is shorter than the line by at least the
   * label's length per occurrence.
   */
  lemma SpokenTextSpec(component: string)
    requires IsSpoken(component)
    ensures Count(component, ResponseLabel) >= 1
    ensures |SpokenText(component)| <= |component| - |ResponseLabel| * Count(component, ResponseLabel)
  {
    RemovedLabels(component);
  }

  /** Removing the label from a spoken line removes at least the one in front. */
  lemma RemovedLabels(component: string)
    requires IsSpoken(component)
    ensures Count(component, ResponseLabel) >= 1
    ensures |Replace(component, ResponseLabel, "")| == |component| - |ResponseLabel| * Count(component, ResponseLabel)
  {
    ReplaceFront(component, ResponseLabel, "");
    ReplaceLength(component, ResponseLabel, "");
  }

  /** For a line holding the label once, in front, the spoken text is the rest of the line, trimmed. */
  lemma SpokenTextOfLabelled(rest: string)
    requires !Occurs(rest, ResponseLabel)
    ensures IsSpoken(ResponseLabel + rest)
    ensures SpokenText(ResponseLabel + rest) == Strip(rest)
  {
    RemoveFrontLabel(rest);
  }

  /** Removing the label from a line that holds it once, in front, leaves the rest of the line. */
  lemma RemoveFrontLabel(rest: string)
    requires !Occurs(rest, ResponseLabel)
    ensures ResponseLabel <= ResponseLabel + rest
    ensures Replace(ResponseLabel + rest, ResponseLabel, "") == rest
  {
    var line := ResponseLabel + rest;
    assert line[|ResponseLabel|..] == rest;
    ReplaceFront(line, ResponseLabel, "");
    ReplaceAbsent(rest, ResponseLabel, "");
  }

  // ---------------------------------------------------------------------
  // Rendering one reply

  /** A request to the speech service: the text and its locale. */
  datatype Speech = Speech(text: string, locale: string)

  /** The speech requests for the shown components, one per spoken line, in order. */
  function Spoken(shown: seq<string>, language: string): seq<Speech>
    decreases |shown|
  {
    if shown == [] then []
    else
      var last := shown[|shown| - 1];
      Spoken(shown[..|shown| - 1], language)
      + (if IsSpoken(last) then [Speech(SpokenText(last), LocaleFor(language))] else [])
  }

  /**
   * Every speech request comes from a spoken line, in the language's locale,
   * and every spoken line yields one.
   */
  lemma {:induction false} SpokenExact(shown: seq<string>, language: string)
    ensures forall s :: s in Spoken(shown, language) ==>
      s.locale == LocaleFor(language) && exists c :: c in shown && IsSpoken(c) && s.text == SpokenText(c)
    ensures forall c :: c in shown && IsSpoken(c) ==> Speech(SpokenText(c), LocaleFor(language)) in Spoken(shown, language)
    decreases |shown|
  {
    if shown != [] {
      var init := shown[..|shown| - 1];
      SpokenExact(init, language);
      assert shown == init + [shown[|shown| - 1]];
    }
  }

  /** The positions of the spoken lines among the shown ones. */
  function SpokenPositions(shown: seq<string>): set<int>
  {
    set k | 0 <= k < |shown| && IsSpoken(shown[k])
  }

  /** There is one speech request per spoken line, duplicates included. */
  lemma {:induction false} SpokenCount(shown: seq<string>, language: string)
    ensures |Spoken(shown, language)| == |SpokenPositions(shown)|
    decreases |shown|
  {
    if shown == [] {
      assert SpokenPositions(shown) == {};
    } else {
      var n := |shown| - 1;
      var init := shown[..n];
      SpokenCount(init, language);
      assert n !in SpokenPositions(init);
      if IsSpoken(shown[n]) {
        assert SpokenPositions(shown) == SpokenPositions(init) + {n};
      } else {
        assert SpokenPositions(shown) == SpokenPositions(init);
      }
    }
  }

  /**
   * A reply of a `Response:` line and a `Translation:` line, each ended by a
   * line break, shows those two lines and speaks the phrase in Spanish.
   */
  lemma SpanishReply()
    ensures Components("Response: Hola\nTranslation: Hello\n") == ["Response: Hola", "Translation: Hello"]
    ensures Spoken(["Response: Hola", "Translation: Hello"], Languages[0]) == [Speech("Hola", "es")]
  {
    SpanishPieces();
    SpanishShown();
    SpanishSpoken();
  }

  /** The example reply splits into its two lines and the empty piece after the last break. */
  lemma SpanishPieces()
    ensures Split("Response: Hola\nTranslation: Hello\n", '\n') == ["Response: Hola", "Translation: Hello", ""]
  {
    var pieces := ["Response: Hola", "Translation: Hello", ""];
    assert "Response: Hola\nTranslation: Hello\n" == Join("\n", pieces);
    assert forall k :: 0 <= k < |pieces| ==> '\n' !in pieces[k];
    SplitJoin(pieces, '\n');
  }

  /** Of the example's pieces the two lines are shown and the empty piece is not. */
  lemma SpanishShown()
    ensures Displayed(["Response: Hola", "Translation: Hello", ""]) == ["Response: Hola", "Translation: Hello"]
  {
    var first, second := "Response: Hola", "Translation: Hello";
    var pieces := [first, second, ""];
    assert Shown(first) by { assert !IsSpace(first[0]); }
    assert Shown(second) by { assert !IsSpace(second[0]); }
    assert !Shown("");
    assert pieces[..2] == [first, second];
    assert [first, second][..1] == [first];
    assert [first][..0] == [];
    assert Displayed([first]) == [first];
    assert Displayed([first, second]) == [first, second];
  }

  /** Of the example's two lines only the first is spoken, as `Hola` in the Spanish locale. */
  lemma SpanishSpoken()
    ensures Spoken(["Response: Hola", "Translation: Hello"], Languages[0]) == [Speech("Hola", "es")]
  {
    var first, second := "Response: Hola", "Translation: Hello";
    assert first == ResponseLabel + " Hola";
    HolaText();
    assert !IsSpoken(second) by { assert second[0] != ResponseLabel[0]; }
    SpokenFirstOfTwo(first, second, Languages[0]);
    SpanishLocale();
  }

  /** Two shown lines of which only the first is spoken yield one request, for the first. */
  lemma SpokenFirstOfTwo(first: string, second: string, language: string)
    requires IsSpoken(first) && !IsSpoken(second)
    ensures Spoken([first, second], language) == [Speech(SpokenText(first), LocaleFor(language))]
  {
    var two := [first, second];
    assert two[..1] == [first] && two[1] == second;
    assert Spoken(two, language) == Spoken([first], language);
    assert [first][..0] == [];
  }

  /** The first menu language is spoken in `es`. */
  lemma SpanishLocale()
    ensures LocaleFor(Languages[0]) == "es"
  {
    assert Languages[0] in LangCodes && LangCodes[Languages[0]] == Codes[0];
    assert Codes[0] == "es";
  }

  /** The spoken text of the example's `Response:` line. */
  lemma HolaText()
    ensures IsSpoken(ResponseLabel + " Hola") && SpokenText(ResponseLabel + " Hola") == "Hola"
  {
    HolaHasNoLabel();
    SpokenTextOfLabelled(" Hola");
    HolaStrip();
  }

  /** The rest of the example's line is too short to hold the label. */
  lemma HolaHasNoLabel()
    ensures !Occurs(" Hola", ResponseLabel)
  {
    var rest := " Hola";
    forall i | 0 <= i <= |rest| ensures !(ResponseLabel <= rest[i..]) {
      assert |rest[i..]| < |ResponseLabel|;
    }
  }

  /** Trimming the rest of the example's line leaves the phrase. */
  lemma HolaStrip()
    ensures Strip(" Hola") == "Hola"
  {
    var phrase := "Hola";
    assert !IsSpace(phrase[0]) && !IsSpace(phrase[|phrase| - 1]);
    StripSpaceWord(phrase);
    assert " " + phrase == " Hola";
  }

  /**
   * The loop over the reply's lines: each non-blank line is shown as it is,
   * and each shown line starting with `Response:` is spoken.
   */
  method RenderReply(reply: string, language: string) returns (shown: seq<string>, speech: seq<Speech>)
    ensures shown == Components(reply)
    ensures speech == Spoken(shown, language)
  {
    var pieces := Split(reply, '\n');
    shown, speech := [], [];
    for i := 0 to |pieces|
      invariant shown == Displayed(pieces[..i])
      invariant speech == Spoken(shown, language)
    {
      var component := pieces[i];
      ghost var seen := pieces[..i + 1];
      assert seen[..i] == pieces[..i] && seen[i] == component;
      assert Displayed(seen) == shown + (if Shown(component) then [component] else []);
      ShownIffStripNonEmpty(component);
      if Strip(component) != "" {
        ghost var before := shown;
        shown := shown + [component];
        assert shown[..|shown| - 1] == before;
        if StartsWith(component, ResponseLabel) {
          speech := speech + [Speech(SpokenText(component), LocaleFor(language))];
        }
      }
    }
    assert pieces[..|pieces|] == pieces;
  }
}
