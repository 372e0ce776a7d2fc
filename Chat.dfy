/**
 * Conversation turns and the plain-text transcript offered by "Save Chat".
 */
module Chat {
  import opened PyStr

  /** One message of the conversation: its role and its text, as sent to the completion service. */
  datatype Turn = Turn(role: string, content: string)

  const SystemRole: string := "system"
  const UserRole: string := "user"
  const AssistantRole: string := "assistant"

  /**
   * The transcript line for one turn: `User: ` for the user role, `Assistant: `
   * for any other role. The role can be read back from the line's start, and
   * the content from its end.
   */
  function Entry(t: Turn): (e: string)
    ensures StartsWith(e, "User: ") <==> t.role == UserRole
    ensures StartsWith(e, "Assistant: ") <==> t.role != UserRole
    ensures |e| > |t.content| && e[|e| - |t.content|..] == t.content
  {
    var head := (if t.role == UserRole then "User" else "Assistant") + ": ";
    var e := head + t.content;
    assert e[..|head|] == head && e[|head|..] == t.content;
    assert e[0] == head[0];
    e
  }

  /** The entries of a conversation, one per turn, in order. */
  function Entries(conversation: seq<Turn>): seq<string>
  {
    seq(|conversation|, k requires 0 <= k < |conversation| => Entry(conversation[k]))
  }

  /** The entries of two stretches of turns are the entries of each, one after the other. */
  lemma EntriesConcat(a: seq<Turn>, b: seq<Turn>)
    ensures Entries(a + b) == Entries(a) + Entries(b)
  {
    assert forall k :: 0 <= k < |a| + |b| ==> Entries(a + b)[k] == (Entries(a) + Entries(b))[k];
  }

  /** The "Save Chat" file body: the entries joined with newlines. */
  function Transcript(conversation: seq<Turn>): string
  {
    Join("\n", Entries(conversation))
  }

  /** The transcript is empty exactly when the conversation is. */
  lemma TranscriptEmptyIff(conversation: seq<Turn>)
    ensures Transcript(conversation) == "" <==> conversation == []
  {
    var es := Entries(conversation);
    if |es| == 1 {
      assert |Entry(conversation[0])| > 0;
    } else if |es| > 1 {
      assert |Transcript(conversation)| >= |es[0]| > 0;
    }
  }

  /** Appending a turn appends a newline and that turn's entry to the transcript. */
  lemma TranscriptAppend(conversation: seq<Turn>, t: Turn)
    requires conversation != []
    ensures Transcript(conversation + [t]) == Transcript(conversation) + "\n" + Entry(t)
  {
    JoinSnoc("\n", Entries(conversation), Entry(t));
    assert Entries(conversation + [t]) == Entries(conversation) + [Entry(t)];
  }

  /** Joining a list with one more element at the end. */
  lemma {:induction false} JoinSnoc(sep: string, parts: seq<string>, x: string)
    requires parts != []
    ensures Join(sep, parts + [x]) == Join(sep, parts) + sep + x
    decreases |parts|
  {
    if |parts| == 1 {
      assert (parts + [x])[1..] == [x];
    } else {
      JoinSnoc(sep, parts[1..], x);
      assert (parts + [x])[1..] == parts[1..] + [x];
    }
  }

  /**
   * When no turn's content holds a newline, the transcript splits back into
   * exactly one line per turn, each the turn's entry.
   */
  lemma TranscriptLines(conversation: seq<Turn>)
    requires conversation != []
    requires forall k :: 0 <= k < |conversation| ==> '\n' !in conversation[k].content
    ensures Split(Transcript(conversation), '\n') == Entries(conversation)
    ensures |Split(Transcript(conversation), '\n')| == |conversation|
  {
    var es := Entries(conversation);
    forall k | 0 <= k < |es| ensures '\n' !in es[k] { }
    SplitJoin(es, '\n');
  }

  /** How many newline characters the turns' contents hold in all. */
  function ContentNewlines(conversation: seq<Turn>): nat
  {
    if conversation == [] then 0
    else multiset(conversation[0].content)['\n'] + ContentNewlines(conversation[1..])
  }

  /** An entry's label holds no newline. */
  lemma EntryNewlines(t: Turn)
    ensures multiset(Entry(t))['\n'] == multiset(t.content)['\n']
  {
    var head := if t.role == UserRole then "User: " else "Assistant: ";
    assert Entry(t) == head + t.content;
    CharCountAfterFreePrefix(head, t.content, '\n');
  }

  /** The transcript of two or more turns: the first entry, a newline, the rest. */
  lemma TranscriptCons(conversation: seq<Turn>)
    requires |conversation| > 1
    ensures Transcript(conversation) == Entry(conversation[0]) + "\n" + Transcript(conversation[1..])
  {
    assert Entries(conversation)[1..] == Entries(conversation[1..]);
  }

  /** The newlines of a transcript: one between each two entries, plus those inside the contents. */
  lemma {:induction false} TranscriptNewlines(conversation: seq<Turn>)
    requires conversation != []
    ensures multiset(Transcript(conversation))['\n'] == |conversation| - 1 + ContentNewlines(conversation)
    decreases |conversation|
  {
    if |conversation| == 1 {
      TranscriptNewlinesOne(conversation);
    } else {
      TranscriptNewlines(conversation[1..]);
      TranscriptNewlinesStep(conversation);
    }
  }

  /** The newlines of a single turn's transcript are those of its content. */
  lemma TranscriptNewlinesOne(conversation: seq<Turn>)
    requires |conversation| == 1
    ensures multiset(Transcript(conversation))['\n'] == ContentNewlines(conversation)
  {
    var t := conversation[0];
    ContentNewlinesSingle(conversation);
    TranscriptSingle(conversation);
    EntryNewlines(t);
  }

  /** The newlines of a single turn's contents. */
  lemma ContentNewlinesSingle(conversation: seq<Turn>)
    requires |conversation| == 1
    ensures ContentNewlines(conversation) == multiset(conversation[0].content)['\n']
  {
    assert conversation[1..] == [];
  }

  /** The transcript of a single turn is that turn's entry. */
  lemma TranscriptSingle(conversation: seq<Turn>)
    requires |conversation| == 1
    ensures Transcript(conversation) == Entry(conversation[0])
  {
    assert Entries(conversation) == [Entry(conversation[0])];
  }

  /** One step of the count: the first entry and the newline after it. */
  lemma TranscriptNewlinesStep(conversation: seq<Turn>)
    requires |conversation| > 1
    ensures multiset(Transcript(conversation))['\n']
      == multiset(conversation[0].content)['\n'] + 1 + multiset(Transcript(conversation[1..]))['\n']
  {
    var e := Entry(conversation[0]);
    EntryNewlines(conversation[0]);
    TranscriptCons(conversation);
    var tail := Transcript(conversation[1..]);
    assert multiset(e + "\n" + tail) == multiset(e) + multiset("\n") + multiset(tail);
  }

  /**
   * "Save Chat" writes one line per turn plus one more for every newline
   * inside a turn's content: exactly one line per turn only when no content
   * spans several lines.
   */
  lemma TranscriptLineCount(conversation: seq<Turn>)
    requires conversation != []
    ensures |Split(Transcript(conversation), '\n')| == |conversation| + ContentNewlines(conversation)
  {
    SplitLength(Transcript(conversation), '\n');
    TranscriptNewlines(conversation);
  }
}
