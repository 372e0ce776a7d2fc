/**
 * The handful of Python `str` builtins the tutor relies on, with the
 * semantics CPython gives them: `strip()`, `split(sep)`, `split()`,
 * `sep.join(parts)`, `startswith(prefix)`, `replace(old, new)` and
 * `count(sub)`. Strings are sequences of code points.
 */
module PyStr {
  import opened Wrappers

  /** `c.isspace()`: the code points `str.strip()` and `str.split()` treat as whitespace. */
  predicate IsSpace(c: char) {
    c == ' ' || ('\t' <= c <= '\r') || ('\U{1c}' <= c <= '\U{1f}')
    || c == '\U{85}' || c == '\U{a0}' || c == '\U{1680}'
    || ('\U{2000}' <= c <= '\U{200a}') || c == '\U{2028}' || c == '\U{2029}'
    || c == '\U{202f}' || c == '\U{205f}' || c == '\U{3000}'
  }

  /** Every code point of `s` is whitespace (the empty string included). */
  predicate IsBlank(s: string) {
    forall i :: 0 <= i < |s| ==> IsSpace(s[i])
  }

  /** `s.startswith(p)`. */
  predicate StartsWith(s: string, p: string) {
    |p| <= |s| && s[..|p|] == p
  }

  // ---------------------------------------------------------------------
  // strip()

  /** `s.lstrip()`: drops the leading whitespace and nothing else. */
  function LStrip(s: string): (r: string)
    ensures |r| <= |s| && r == s[|s| - |r|..]
    ensures IsBlank(s[..|s| - |r|])
    ensures r != [] ==> !IsSpace(r[0])
    decreases |s|
  {
    if s != [] && IsSpace(s[0]) then
      var r := LStrip(s[1..]);
      assert s[..|s| - |r|] == [s[0]] + s[1..][..|s| - 1 - |r|];
      r
    else s
  }

  /** `s.rstrip()`: drops the trailing whitespace and nothing else. */
  function RStrip(s: string): (r: string)
    ensures |r| <= |s| && r == s[..|r|]
    ensures IsBlank(s[|r|..])
    ensures r != [] ==> !IsSpace(r[|r| - 1])
    decreases |s|
  {
    if s != [] && IsSpace(s[|s| - 1]) then
      var r := RStrip(s[..|s| - 1]);
      assert s[|r|..] == s[..|s| - 1][|r|..] + [s[|s| - 1]];
      r
    else s
  }

  /** `s.strip()`. */
  function Strip(s: string): (r: string)
    ensures |r| <= |s|
    ensures r != [] ==> !IsSpace(r[0]) && !IsSpace(r[|r| - 1])
  {
    RStrip(LStrip(s))
  }

  /**
   * What `strip()` means: the result is a slice of `s` whose margins are all
   * whitespace and which neither starts nor ends with whitespace; it is empty
   * exactly when `s` is blank.
   */
  lemma StripSpec(s: string)
    ensures exists i, j :: 0 <= i <= j <= |s| && Strip(s) == s[i..j] && IsBlank(s[..i]) && IsBlank(s[j..])
    ensures Strip(s) != [] ==> !IsSpace(Strip(s)[0]) && !IsSpace(Strip(s)[|Strip(s)| - 1])
    ensures Strip(s) == [] <==> IsBlank(s)
  {
    var l := LStrip(s);
    var i := |s| - |l|;
    var r := RStrip(l);
    var j := i + |r|;
    assert s[i..j] == r;
    assert s[j..] == l[|r|..];
  }

  /** Stripping one leading space off a word that neither starts nor ends with whitespace. */
  lemma StripSpaceWord(w: string)
    requires w != [] && !IsSpace(w[0]) && !IsSpace(w[|w| - 1])
    ensures Strip(" " + w) == w
  {
    var s := " " + w;
    assert s[1..] == w && IsSpace(s[0]);
    assert LStrip(s) == LStrip(w) == w;
    assert RStrip(w) == w;
  }

  // ---------------------------------------------------------------------
  // split(sep) and sep.join(parts)

  /** `s.split(d)` for a one-character separator: never empty, keeps empty pieces. */
  function Split(s: string, d: char): (r: seq<string>)
    ensures |r| >= 1
    ensures forall k :: 0 <= k < |r| ==> d !in r[k]
    decreases |s|
  {
    if s == [] then [""]
    else
      var rest := Split(s[1..], d);
      if s[0] == d then [""] + rest
      else [[s[0]] + rest[0]] + rest[1..]
  }

  /** `sep.join(parts)`. */
  function Join(sep: string, parts: seq<string>): string
    decreases |parts|
  {
    if |parts| == 0 then ""
    else if |parts| == 1 then parts[0]
    else parts[0] + sep + Join(sep, parts[1..])
  }

  /** Joining a first piece in front of a joined tail. */
  lemma JoinCons(sep: string, p: string, parts: seq<string>)
    requires |parts| >= 1
    ensures Join(sep, [p] + parts) == p + sep + Join(sep, parts)
  {
    assert ([p] + parts)[1..] == parts;
  }

  /** Joining the pieces of a split with the same separator gives back the string. */
  lemma {:induction false} JoinSplit(s: string, d: char)
    ensures Join([d], Split(s, d)) == s
    decreases |s|
  {
    if s != [] {
      var rest := Split(s[1..], d);
      JoinSplit(s[1..], d);
      if s[0] == d {
        JoinCons([d], "", rest);
      } else if |rest| == 1 {
        assert Split(s, d) == [[s[0]] + rest[0]];
      } else {
        calc {
          Join([d], Split(s, d));
          { JoinCons([d], [s[0]] + rest[0], rest[1..]); }
          [s[0]] + rest[0] + [d] + Join([d], rest[1..]);
          { JoinCons([d], rest[0], rest[1..]); assert [rest[0]] + rest[1..] == rest; }
          [s[0]] + Join([d], rest);
          s;
        }
      }
    }
  }

  /** `split` gives one more piece than there are separators. */
  lemma {:induction false} SplitLength(s: string, d: char)
    ensures |Split(s, d)| == 1 + multiset(s)[d]
    decreases |s|
  {
    if s != [] {
      SplitLength(s[1..], d);
      assert s == [s[0]] + s[1..];
    }
  }

  /** A prefix without `c` adds no occurrence of `c`. */
  lemma CharCountAfterFreePrefix(head: string, s: string, c: char)
    requires c !in head
    ensures multiset(head + s)[c] == multiset(s)[c]
  {
    assert multiset(head + s) == multiset(head) + multiset(s);
  }

  /** Splitting a join of separator-free pieces gives back the pieces. */
  lemma {:induction false} SplitJoin(parts: seq<string>, d: char)
    requires |parts| >= 1
    requires forall k :: 0 <= k < |parts| ==> d !in parts[k]
    ensures Split(Join([d], parts), d) == parts
    decreases |parts|, |parts[0]|
  {
    var p := parts[0];
    if p == [] {
      if |parts| > 1 {
        SplitJoin(parts[1..], d);
        assert Join([d], parts) == [d] + Join([d], parts[1..]);
        assert Join([d], parts)[1..] == Join([d], parts[1..]);
      }
    } else {
      var shorter := [p[1..]] + parts[1..];
      assert p[1..] == shorter[0] && d !in shorter[0];
      SplitJoin(shorter, d);
      var s := Join([d], parts);
      if |parts| == 1 {
        assert s == p && s[1..] == p[1..];
      } else {
        JoinCons([d], p[1..], parts[1..]);
        assert shorter[1..] == parts[1..];
        assert s == [p[0]] + Join([d], shorter);
      }
      assert s[0] == p[0] && s[1..] == Join([d], shorter);
      assert [s[0]] + shorter[0] == p;
      assert [p] + parts[1..] == parts;
    }
  }

  // ---------------------------------------------------------------------
  // split() with no argument, first token only

  /** The run of non-whitespace code points at the start of `s`. */
  function Word(s: string): (w: string)
    ensures w <= s
    ensures forall k :: 0 <= k < |w| ==> !IsSpace(w[k])
    ensures |w| < |s| ==> IsSpace(s[|w|])
    decreases |s|
  {
    if s == [] || IsSpace(s[0]) then "" else [s[0]] + Word(s[1..])
  }

  /** The word in front of a whitespace character is read up to it. */
  lemma {:induction false} WordBeforeSpace(w: string, rest: string)
    requires forall k :: 0 <= k < |w| ==> !IsSpace(w[k])
    requires rest != [] && IsSpace(rest[0])
    ensures Word(w + rest) == w
    decreases |w|
  {
    if w == [] {
      assert w + rest == rest;
    } else {
      WordBeforeSpace(w[1..], rest);
      assert (w + rest)[1..] == w[1..] + rest;
    }
  }

  /** A label made of a word, a space and more: its first token is that word. */
  lemma FirstWordOfLabel(w: string, rest: string)
    requires w != [] && forall k :: 0 <= k < |w| ==> !IsSpace(w[k])
    requires rest != [] && IsSpace(rest[0])
    ensures FirstWord(w + rest) == Some(w)
  {
    WordBeforeSpace(w, rest);
    assert (w + rest)[0] == w[0];
  }

  /** `s.split()[0]`; `None` where Python raises IndexError (a blank `s`). */
  function FirstWord(s: string): (r: Option<string>)
    ensures r.None? <==> IsBlank(s)
    ensures r.Some? ==> r.value != [] && forall k :: 0 <= k < |r.value| ==> !IsSpace(r.value[k])
  {
    var t := LStrip(s);
    if t == [] then None else Some(Word(t))
  }

  /**
   * The first token sits after the leading whitespace and is followed by
   * whitespace or the end of the string.
   */
  lemma FirstWordSpec(s: string)
    requires FirstWord(s).Some?
    ensures var w := FirstWord(s).value;
      exists i :: 0 <= i <= |s| - |w| && IsBlank(s[..i]) && s[i..i + |w|] == w
        && (i + |w| == |s| || IsSpace(s[i + |w|]))
  {
    var t := LStrip(s);
    var i := |s| - |t|;
    var w := Word(t);
    assert s[i..] == t;
    assert s[i..i + |w|] == w;
  }

  // ---------------------------------------------------------------------
  // replace(old, new) and count(sub)

  /** `s.count(p)`: non-overlapping occurrences, scanned left to right. */
  function Count(s: string, p: string): nat
    requires p != []
    decreases |s|
  {
    if |s| < |p| then 0
    else if p <= s then 1 + Count(s[|p|..], p)
    else Count(s[1..], p)
  }

  /** `p` occurs somewhere in `s`. */
  predicate Occurs(s: string, p: string) {
    exists i :: 0 <= i <= |s| && p <= s[i..]
  }

  /** `s.replace(p, r)`: every non-overlapping occurrence, left to right, in one pass. */
  function Replace(s: string, p: string, r: string): string
    requires p != []
    decreases |s|
  {
    if |s| < |p| then s
    else if p <= s then r + Replace(s[|p|..], p, r)
    else [s[0]] + Replace(s[1..], p, r)
  }

  /** An occurrence in front is replaced and counted, and the scan resumes after it. */
  lemma ReplaceFront(s: string, p: string, r: string)
    requires p != [] && p <= s
    ensures Replace(s, p, r) == r + Replace(s[|p|..], p, r)
    ensures Count(s, p) == 1 + Count(s[|p|..], p)
  {
  }

  /** Each replaced occurrence changes the length by `|r| - |p|`. */
  lemma {:induction false} ReplaceLength(s: string, p: string, r: string)
    requires p != []
    ensures |Replace(s, p, r)| == |s| + Count(s, p) * (|r| - |p|)
    decreases |s|
  {
    if |s| >= |p| {
      var d := |r| - |p|;
      if p <= s {
        var rest := s[|p|..];
        ReplaceLength(rest, p, r);
        var c := Count(rest, p);
        assert Count(s, p) == c + 1;
        assert |Replace(s, p, r)| == |r| + |Replace(rest, p, r)|;
        MultiplyStep(c, d);
      } else {
        ReplaceLength(s[1..], p, r);
        assert Count(s, p) == Count(s[1..], p);
        assert |Replace(s, p, r)| == 1 + |Replace(s[1..], p, r)|;
      }
    }
  }

  /** One more occurrence adds one more difference in length. */
  lemma MultiplyStep(c: nat, d: int)
    ensures (c + 1) * d == c * d + d
  {
  }

  /** An occurrence in the tail is an occurrence in the string. */
  lemma OccursTail(s: string, p: string)
    requires s != []
    ensures Occurs(s, p) <==> p <= s || Occurs(s[1..], p)
  {
    if Occurs(s[1..], p) {
      var i :| 0 <= i <= |s| - 1 && p <= s[1..][i..];
      assert s[1..][i..] == s[i + 1..];
    }
    if Occurs(s, p) && !(p <= s) {
      var i :| 0 <= i <= |s| && p <= s[i..];
      assert i != 0 && s[i..] == s[1..][i - 1..];
    }
    if p <= s { assert s[0..] == s; }
  }

  /** `count` finds something exactly when the pattern occurs. */
  lemma {:induction false} CountPositiveIffOccurs(s: string, p: string)
    requires p != []
    ensures Count(s, p) > 0 <==> Occurs(s, p)
    decreases |s|
  {
    if |s| >= |p| {
      OccursTail(s, p);
      if !(p <= s) { CountPositiveIffOccurs(s[1..], p); }
    }
  }

  /** Where the pattern does not occur, `replace` returns the string unchanged. */
  lemma {:induction false} ReplaceAbsent(s: string, p: string, r: string)
    requires p != [] && !Occurs(s, p)
    ensures Replace(s, p, r) == s
    decreases |s|
  {
    if |s| >= |p| {
      OccursTail(s, p);
      ReplaceAbsent(s[1..], p, r);
    }
  }
}
