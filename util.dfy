/** The title derivation of util.go and the string helpers it is built from
    (Go's strings.Split(..)[0], strings.TrimPrefix, strings.TrimSpace),
    together with the result of an editor session. */
module Util {

  /** What the external editor session yields: the saved text, or one of
      the two ways the command handlers see it fail (the editor could not
      be run, or the temporary file could not be read back). */
  datatype EditSession = Saved(text: string) | EditorFailed | Unreadable

  /** Go's unicode.IsSpace: the Latin-1 spaces and the White_Space code
      points above Latin-1. */
  predicate IsSpace(c: char) {
    || c == ' ' || ('\t' <= c <= '\r') || c == '\U{0085}' || c == '\U{00A0}'
    || c == '\U{1680}' || ('\U{2000}' <= c <= '\U{200A}') || ('\U{2028}' <= c <= '\U{2029}')
    || c == '\U{202F}' || c == '\U{205F}' || c == '\U{3000}'
  }

  predicate AllSpace(s: string) {
    forall i | 0 <= i < |s| :: IsSpace(s[i])
  }

  /** Neither end of `s` is whitespace. */
  predicate Trimmed(s: string) {
    s == [] || (!IsSpace(s[0]) && !IsSpace(s[|s| - 1]))
  }

  /** `t` occurs in `s` starting at position `k`. */
  predicate OccursAt(t: string, s: string, k: int) {
    0 <= k <= |s| - |t| && s[k..k + |t|] == t
  }

  /** `t` occurs in `s` as a contiguous run of characters. */
  predicate IsInfix(t: string, s: string) {
    exists k | 0 <= k <= |s| :: OccursAt(t, s, k)
  }

  /** `s` is whitespace, then `r` from position `k` on, then whitespace. */
  predicate PaddedAt(s: string, k: int, r: string) {
    OccursAt(r, s, k) && AllSpace(s[..k]) && AllSpace(s[k + |r|..])
  }

  predicate HasPrefix(s: string, prefix: string) {
    |prefix| <= |s| && s[..|prefix|] == prefix
  }

  /** strings.TrimPrefix: the prefix removed once when present, the input
      unchanged otherwise. */
  function TrimPrefix(s: string, prefix: string): (r: string)
    ensures HasPrefix(s, prefix) ==> s == prefix + r
    ensures !HasPrefix(s, prefix) ==> r == s
  {
    if HasPrefix(s, prefix) then s[|prefix|..] else s
  }

  /** HasPrefix character by character: `s` starts with `prefix` exactly
      when it is at least as long and agrees with it at every position. */
  lemma HasPrefixPointwise(s: string, prefix: string)
    ensures HasPrefix(s, prefix) <==>
      |prefix| <= |s| && forall i | 0 <= i < |prefix| :: s[i] == prefix[i]
  {
    if |prefix| <= |s| && forall i | 0 <= i < |prefix| :: s[i] == prefix[i] {
      assert s[..|prefix|] == prefix;
    }
  }

  /** The two branches of unicode.IsSpace: below U+0100 the whitespace is
      exactly ASCII tab, newline, vertical tab, form feed, carriage return
      and space, plus NEL and NBSP; above it, nothing beyond U+3000 is
      whitespace. In particular the markdown marker '#' is not. */
  lemma IsSpaceCases(c: char)
    ensures c <= '\U{00FF}' ==>
      (IsSpace(c) <==> c in {' ', '\t', '\n', '\U{000B}', '\U{000C}', '\r', '\U{0085}', '\U{00A0}'})
    ensures IsSpace(c) ==> c <= '\U{3000}'
    ensures !IsSpace('#')
  {
  }

  /** strings.Split(s, "\n")[0]: the text before the first newline, or all
      of `s` when it has none. */
  function FirstLine(s: string): (line: string)
    ensures line <= s
    ensures '\n' !in line
    ensures |line| == |s| || s[|line|] == '\n'
  {
    if s == [] || s[0] == '\n' then [] else [s[0]] + FirstLine(s[1..])
  }

  /** Leading whitespace removed: what is left is a suffix of `s` that does
      not start with a space, and everything cut off is whitespace. */
  function TrimLeft(s: string): (r: string)
    ensures |r| <= |s| && r == s[|s| - |r|..]
    ensures r != [] ==> !IsSpace(r[0])
    ensures AllSpace(s[..|s| - |r|])
  {
    if s != [] && IsSpace(s[0]) then
      var r := TrimLeft(s[1..]);
      assert s[..|s| - |r|] == [s[0]] + s[1..][..|s| - 1 - |r|];
      r
    else s
  }

  /** Trailing whitespace removed: a prefix of `s` that does not end with a
      space, and everything cut off is whitespace. */
  function TrimRight(s: string): (r: string)
    ensures |r| <= |s| && r == s[..|r|]
    ensures r != [] ==> !IsSpace(r[|r| - 1])
    ensures AllSpace(s[|r|..])
  {
    if s != [] && IsSpace(s[|s| - 1]) then
      var r := TrimRight(s[..|s| - 1]);
      assert s[|r|..] == s[..|s| - 1][|r|..] + [s[|s| - 1]];
      r
    else s
  }

  /** strings.TrimSpace: `s` splits into whitespace, the result, and
      whitespace, and the result has no whitespace at either end. */
  function TrimSpace(s: string): (r: string)
    ensures Trimmed(r)
    ensures exists k :: PaddedAt(s, k, r)
  {
    var left := TrimLeft(s);
    var r := TrimRight(left);
    PaddedByTrims(s, left, r);
    r
  }

  /** Whitespace cut from the front of `s` leaving `left`, then from the
      back of `left` leaving `r`, puts `r` between two runs of whitespace. */
  lemma PaddedByTrims(s: string, left: string, r: string)
    requires |left| <= |s| && left == s[|s| - |left|..] && AllSpace(s[..|s| - |left|])
    requires |r| <= |left| && r == left[..|r|] && AllSpace(left[|r|..])
    ensures PaddedAt(s, |s| - |left|, r)
  {
    var k := |s| - |left|;
    assert s[k..k + |r|] == r;
    assert s[k + |r|..] == left[|r|..];
  }

  /** A title occurring inside a string occurs inside any string that
      contains that one. */
  lemma InfixOfSuffix(t: string, u: string, s: string)
    requires IsInfix(t, u)
    requires |u| <= |s| && u == s[|s| - |u|..]
    ensures IsInfix(t, s)
  {
    var k :| 0 <= k <= |u| && OccursAt(t, u, k);
    var d := |s| - |u|;
    assert s[d + k..d + k + |t|] == t;
    assert OccursAt(t, s, d + k);
  }

  lemma InfixHasNoNewline(t: string, s: string)
    requires IsInfix(t, s)
    requires '\n' !in s
    ensures '\n' !in t
  {
    var k :| 0 <= k <= |s| && OccursAt(t, s, k);
    forall i | 0 <= i < |t| ensures t[i] != '\n' {
      assert t[i] == s[k + i];
    }
  }

  /** The title of a note (util.go:13-18): the first line of the body with
      one leading '#' removed and then surrounding whitespace trimmed. */
  function TitleFromBody(body: string): (title: string)
    ensures '\n' !in title
    ensures Trimmed(title)
    ensures IsInfix(title, FirstLine(body))
    ensures body == [] || body[0] == '\n' ==> title == []
  {
    var line := FirstLine(body);
    var unmarked := TrimPrefix(line, "#");
    var title := TrimSpace(unmarked);
    assert IsInfix(title, unmarked) by {
      var k :| PaddedAt(unmarked, k, title);
      assert OccursAt(title, unmarked, k);
    }
    InfixOfSuffix(title, unmarked, line);
    InfixHasNoNewline(title, line);
    title
  }

  /** The first line of a body is exactly the text before its first
      newline, whatever follows. */
  lemma {:induction false} FirstLineBeforeNewline(line: string, rest: string)
    requires '\n' !in line
    ensures FirstLine(line + "\n" + rest) == line
    ensures FirstLine(line) == line
  {
    if line != [] {
      assert (line + "\n" + rest)[1..] == line[1..] + "\n" + rest;
      FirstLineBeforeNewline(line[1..], rest);
    }
  }

  /** Only the first line of a body contributes to its title: editing any
      later line never changes the title (util.go:14). */
  lemma TitleIgnoresLaterLines(line: string, rest: string)
    requires '\n' !in line
    ensures TitleFromBody(line + "\n" + rest) == TitleFromBody(line)
  {
    FirstLineBeforeNewline(line, rest);
  }

  lemma {:induction false} TrimRightKeepsNonSpaceHead(c: char, s: string)
    requires !IsSpace(c)
    ensures TrimRight([c] + s) == [c] + TrimRight(s)
  {
    var t := [c] + s;
    assert t[|t| - 1] == if s == [] then c else s[|s| - 1];
    if s != [] && IsSpace(s[|s| - 1]) {
      assert t[..|t| - 1] == [c] + s[..|s| - 1];
      TrimRightKeepsNonSpaceHead(c, s[..|s| - 1]);
    }
  }

  lemma {:induction false} TrimSpaceDropsTrailingSpace(s: string, c: char)
    requires IsSpace(c)
    ensures TrimSpace(s + [c]) == TrimSpace(s)
  {
    TrimLeftOfTrailingSpace(s, c);
    var left := TrimLeft(s);
    if left != [] {
      assert (left + [c])[..|left|] == left;
    }
  }

  lemma {:induction false} TrimLeftOfTrailingSpace(s: string, c: char)
    requires IsSpace(c)
    ensures TrimLeft(s + [c]) == if TrimLeft(s) == [] then [] else TrimLeft(s) + [c]
  {
    if s != [] {
      assert (s + [c])[1..] == s[1..] + [c];
      TrimLeftOfTrailingSpace(s[1..], c);
    } else {
      assert TrimLeft([c][1..]) == [];
    }
  }

  /** A first line ending in a carriage return (a Windows "\r\n" line
      break) gives the same title as the bare line (util.go:14-16). */
  lemma CrLfGivesSameTitle(line: string, rest: string)
    requires '\n' !in line
    ensures TitleFromBody(line + "\r\n" + rest) == TitleFromBody(line)
  {
    assert line + "\r\n" + rest == (line + "\r") + "\n" + rest;
    FirstLineBeforeNewline(line + "\r", rest);
    FirstLineBeforeNewline(line, []);
    var unmarked := TrimPrefix(line, "#");
    assert TrimPrefix(line + "\r", "#") == unmarked + "\r" by {
      if HasPrefix(line, "#") {
        assert HasPrefix(line + "\r", "#");
        assert (line + "\r")[1..] == line[1..] + "\r";
      } else {
        assert !HasPrefix(line + "\r", "#") by {
          if line == [] { assert (line + "\r")[0] == '\r'; }
          else { assert (line + "\r")[0] == line[0]; }
        }
      }
    }
    TrimSpaceDropsTrailingSpace(unmarked, '\r');
  }

  /** Only one '#' is removed: a first line "##" followed by `rest` gives a
      title that still starts with '#' (util.go:15). */
  lemma OnlyOneHashRemoved(body: string, rest: string)
    requires FirstLine(body) == "##" + rest
    ensures TitleFromBody(body) == "#" + TrimRight(rest)
  {
    var line := FirstLine(body);
    assert HasPrefix(line, "#");
    assert TrimPrefix(line, "#") == "#" + rest;
    assert TrimLeft("#" + rest) == "#" + rest;
    TrimRightKeepsNonSpaceHead('#', rest);
  }

  /** '#' is removed before whitespace is trimmed, so a '#' after leading
      whitespace is kept (util.go:15-16). */
  lemma HashAfterSpaceIsKept(body: string)
    requires FirstLine(body) != [] && IsSpace(FirstLine(body)[0])
    ensures TitleFromBody(body) == TrimSpace(FirstLine(body))
  {
  }

  /** Trimming leaves a string with no outer whitespace as it is, and
      drops any run of whitespace in front of it. */
  lemma TrimSpaceOfPaddedWord(pad: string, word: string)
    requires AllSpace(pad) && word != []
    requires !IsSpace(word[0]) && !IsSpace(word[|word| - 1])
    ensures TrimSpace(pad + word) == word
  {
    TrimLeftOfPadding(pad, word);
  }

  lemma {:induction false} TrimLeftOfPadding(pad: string, word: string)
    requires AllSpace(pad) && word != [] && !IsSpace(word[0])
    ensures TrimLeft(pad + word) == word
  {
    if pad != [] {
      assert (pad + word)[1..] == pad[1..] + word;
      TrimLeftOfPadding(pad[1..], word);
    } else {
      assert pad + word == word;
    }
  }

  /** Proof helper: TitleFromBody as its three steps, so that the lemmas
      below can reason about one step at a time. */
  lemma TitleSteps(body: string)
    ensures TitleFromBody(body) == TrimSpace(TrimPrefix(FirstLine(body), "#"))
  {
  }

  /** Proof helper: the shape of a heading line, for HeadingTitle. */
  lemma HeadingLineShape(pad: string, word: string)
    requires '\n' !in pad && '\n' !in word
    ensures '\n' !in "#" + pad + word
    ensures HasPrefix("#" + pad + word, "#") && ("#" + pad + word)[1..] == pad + word
  {
  }

  /** A markdown heading line ("#", padding, a word) gives the word as the
      title, whatever lines follow. */
  lemma HeadingTitle(pad: string, word: string, rest: string)
    requires AllSpace(pad) && '\n' !in pad && '\n' !in word && word != []
    requires !IsSpace(word[0]) && !IsSpace(word[|word| - 1])
    ensures TitleFromBody("#" + pad + word + "\n" + rest) == word
  {
    var line := "#" + pad + word;
    HeadingLineShape(pad, word);
    FirstLineBeforeNewline(line, []);
    TitleSteps(line);
    TrimSpaceOfPaddedWord(pad, word);
    TitleIgnoresLaterLines(line, rest);
  }

  /** The example of a note whose title is "Shopping List". */
  lemma ShoppingListTitle()
    ensures TitleFromBody("# Shopping List\nMilk\nEggs") == "Shopping List"
  {
    ShoppingListShape();
    HeadingTitle(" ", "Shopping List", "Milk\nEggs");
  }

  /** Proof helper: the example body split into the parts HeadingTitle
      takes, kept apart so the literal is not unfolded elsewhere. */
  lemma ShoppingListShape()
    ensures "# Shopping List\nMilk\nEggs" == "#" + " " + "Shopping List" + "\n" + "Milk\nEggs"
    ensures !IsSpace('S') && !IsSpace('t')
  {
  }

  lemma DoubleHashExample()
    ensures TitleFromBody("## A") == "# A"
  {
    DoubleHashShape();
    OnlyOneHashRemoved("## A", " A");
  }

  /** Proof helper: the first line of the "## A" example and its trimmed
      tail, for DoubleHashExample. */
  lemma DoubleHashShape()
    ensures FirstLine("## A") == "##" + " A"
    ensures "#" + TrimRight(" A") == "# A"
  {
    FirstLineBeforeNewline("## A", []);
  }

  /** A '#' line after leading whitespace keeps its '#': the whitespace is
      trimmed only after the '#' check has failed (util.go:15-16). */
  lemma HashAfterPadding(pad: string, word: string, rest: string)
    requires pad != [] && AllSpace(pad) && '\n' !in pad && '\n' !in word
    requires HasPrefix(word, "#") && !IsSpace(word[|word| - 1])
    ensures TitleFromBody(pad + word + "\n" + rest) == word
  {
    var line := pad + word;
    assert '\n' !in line by {
      forall i | 0 <= i < |line| ensures line[i] != '\n' {
        if i < |pad| { assert line[i] == pad[i]; } else { assert line[i] == word[i - |pad|]; }
      }
    }
    assert !HasPrefix(line, "#") by {
      assert line[0] == pad[0];
      assert IsSpace(pad[0]) && !IsSpace('#');
    }
    FirstLineBeforeNewline(line, rest);
    TitleSteps(line + "\n" + rest);
    assert word[0] == '#';
    TrimSpaceOfPaddedWord(pad, word);
  }
}
