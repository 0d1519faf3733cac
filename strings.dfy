/** The few string operations the text facet and the text filter rely on. */
module Strings {

  /** `String.prototype.toLowerCase` on one character, for the ASCII letters. */
  function LowerChar(c: char): char {
    if 'A' <= c <= 'Z' then (c as int + 32) as char else c
  }

  function Lower(s: string): (r: string)
    ensures |r| == |s|
    ensures forall i :: 0 <= i < |s| ==> r[i] == LowerChar(s[i])
  {
    if s == [] then [] else [LowerChar(s[0])] + Lower(s[1..])
  }

  /** `_.includes(s, sub)` on strings: `sub` occurs in `s`. */
  predicate Contains(s: string, sub: string) {
    sub <= s || (s != [] && Contains(s[1..], sub))
  }

  /** The characters the text facet removes before it splits the search text into words:
      question mark, comma, full stop, underscore, asterisk, apostrophe, backslash,
      slash and hyphen. */
  predicate Stripped(c: char) {
    c == '?' || c == ',' || c == '.' || c == '_' || c == '*' || c == '\'' || c == '\\' || c == '/' || c == '-'
  }

  /** `s.replace(/[?,._*'\\/-]/g, '')`. */
  function Strip(s: string): string {
    if s == [] then [] else (if Stripped(s[0]) then [] else [s[0]]) + Strip(s[1..])
  }

  lemma {:induction false} StripRemovesAll(s: string)
    ensures forall i :: 0 <= i < |Strip(s)| ==> !Stripped(Strip(s)[i])
  {
    if s != [] {
      StripRemovesAll(s[1..]);
    }
  }

  /** Stripping keeps every other character, in order: text without those characters is left alone. */
  lemma {:induction false} StripKeepsOthers(s: string)
    requires forall i :: 0 <= i < |s| ==> !Stripped(s[i])
    ensures Strip(s) == s
  {
    if s != [] {
      StripKeepsOthers(s[1..]);
    }
  }

  /** `s.split(sep)` with a one-character separator: every separator ends a word, so
      the result always has one more element than there are separators. */
  function Split(s: string, sep: char): (r: seq<string>)
    ensures |r| >= 1
  {
    if s == [] then [[]]
    else
      var rest := Split(s[1..], sep);
      if s[0] == sep then [[]] + rest else [[s[0]] + rest[0]] + rest[1..]
  }

  /** `words.join(sep)`. */
  function Join(words: seq<string>, sep: char): string {
    if words == [] then []
    else if |words| == 1 then words[0]
    else words[0] + [sep] + Join(words[1..], sep)
  }

  lemma {:induction false} SplitWordsHaveNoSeparator(s: string, sep: char)
    ensures forall w :: w in Split(s, sep) ==> sep !in w
  {
    if s != [] {
      SplitWordsHaveNoSeparator(s[1..], sep);
    }
  }

  /** Joining the words of a split gives back the text. */
  lemma {:induction false} JoinSplit(s: string, sep: char)
    ensures Join(Split(s, sep), sep) == s
  {
    if s != [] {
      var rest := Split(s[1..], sep);
      JoinSplit(s[1..], sep);
      if s[0] == sep {
        assert Split(s, sep) == [[]] + rest;
        assert Join([[]] + rest, sep) == [] + [sep] + Join(rest, sep);
      } else {
        assert Split(s, sep) == [[s[0]] + rest[0]] + rest[1..];
        JoinFirstWord(s[0], rest, sep);
      }
    }
  }

  /** Putting a character in front of the first word puts it in front of the join. */
  lemma JoinFirstWord(c: char, words: seq<string>, sep: char)
    requires |words| >= 1
    ensures Join([[c] + words[0]] + words[1..], sep) == [c] + Join(words, sep)
  {
    var r := [[c] + words[0]] + words[1..];
    assert r[0] == [c] + words[0] && r[1..] == words[1..];
    if |words| > 1 {
      assert Join(r, sep) == [c] + words[0] + [sep] + Join(words[1..], sep);
    }
  }

  /** Splitting a join of separator-free words gives back the words. */
  lemma {:induction false} SplitJoin(words: seq<string>, sep: char)
    requires |words| >= 1
    requires forall w :: w in words ==> sep !in w
    ensures Split(Join(words, sep), sep) == words
  {
    if |words| == 1 {
      SplitWord(words[0], [], sep);
      assert words[0] + [] == words[0];
    } else {
      var tail := Join(words[1..], sep);
      assert forall w :: w in words[1..] ==> w in words;
      SplitJoin(words[1..], sep);
      assert Join(words, sep) == words[0] + ([sep] + tail);
      SplitSeparated(tail, sep);
      SplitWord(words[0], [sep] + tail, sep);
      assert [[]] + words[1..] == [[]] + Split(tail, sep);
      assert Split(Join(words, sep), sep) == [words[0] + []] + words[1..];
      assert words[0] + [] == words[0];
      assert [words[0]] + words[1..] == words;
    }
  }

  lemma SplitSeparated(t: string, sep: char)
    ensures Split([sep] + t, sep) == [[]] + Split(t, sep)
  {
    assert ([sep] + t)[1..] == t;
  }

  /** A separator-free prefix glues onto the first word of the rest. */
  lemma {:induction false} SplitWord(w: string, t: string, sep: char)
    requires sep !in w
    ensures Split(w + t, sep) == [w + Split(t, sep)[0]] + Split(t, sep)[1..]
  {
    if w == [] {
      assert w + t == t;
      assert [] + Split(t, sep)[0] == Split(t, sep)[0];
      assert [Split(t, sep)[0]] + Split(t, sep)[1..] == Split(t, sep);
    } else {
      assert (w + t)[1..] == w[1..] + t;
      assert (w + t)[0] == w[0];
      SplitWord(w[1..], t, sep);
      assert [w[0]] + (w[1..] + Split(t, sep)[0]) == w + Split(t, sep)[0];
    }
  }

  /** A split only cuts, it never invents characters: every character of a word is in the text. */
  lemma {:induction false} SplitWordsFromText(s: string, sep: char)
    ensures forall w, c :: w in Split(s, sep) && c in w ==> c in s
  {
    if s != [] {
      SplitWordsFromText(s[1..], sep);
      var rest := Split(s[1..], sep);
      forall w, c | w in Split(s, sep) && c in w ensures c in s {
        if w in rest {
          assert c in s[1..];
        } else if s[0] != sep && w == [s[0]] + rest[0] {
          if c != s[0] {
            assert c in rest[0] && rest[0] in rest;
            assert c in s[1..];
          }
        }
      }
    }
  }
}
