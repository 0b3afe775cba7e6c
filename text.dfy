/**
 * The string operations of Python that the script relies on: `str.isspace`,
 * `str.strip`, ASCII `str.lower`, line iteration over a text file and
 * `"\n".join`.
 */
module Text {

  /** `c.isspace()` in Python: the characters `str.strip()` removes. */
  predicate IsSpace(c: char) {
    || c == ' ' || c == '\t' || c == '\n' || c == '\r' || c == '\U{000B}' || c == '\U{000C}'
    || ('\U{001C}' <= c <= '\U{001F}')
    || c == '\U{0085}' || c == '\U{00A0}' || c == '\U{1680}'
    || ('\U{2000}' <= c <= '\U{200A}')
    || c == '\U{2028}' || c == '\U{2029}' || c == '\U{202F}' || c == '\U{205F}' || c == '\U{3000}'
  }

  /** A string with no white space at either end. */
  predicate Stripped(s: string) {
    s == [] || (!IsSpace(s[0]) && !IsSpace(s[|s| - 1]))
  }

  predicate AllSpace(s: string) {
    forall i :: 0 <= i < |s| ==> IsSpace(s[i])
  }

  /** `s.lstrip()`: drops the white space that leads `s`. */
  function StripLeft(s: string): (r: string)
    ensures |r| <= |s|
    ensures r == [] || !IsSpace(r[0])
  {
    if s != [] && IsSpace(s[0]) then StripLeft(s[1..]) else s
  }

  /** What `StripLeft` drops is a prefix made only of white space. */
  lemma {:induction false} StripLeftDrops(s: string)
    ensures StripLeft(s) == s[|s| - |StripLeft(s)|..]
    ensures AllSpace(s[..|s| - |StripLeft(s)|])
    decreases |s|
  {
    if s != [] && IsSpace(s[0]) {
      StripLeftDrops(s[1..]);
    }
  }

  /** `s.rstrip()`: drops the white space that trails `s`. */
  function StripRight(s: string): (r: string)
    ensures |r| <= |s|
    ensures r == [] || !IsSpace(r[|r| - 1])
  {
    if s != [] && IsSpace(s[|s| - 1]) then StripRight(s[..|s| - 1]) else s
  }

  /** What `StripRight` drops is a suffix made only of white space. */
  lemma {:induction false} StripRightDrops(s: string)
    ensures StripRight(s) == s[..|StripRight(s)|]
    ensures AllSpace(s[|StripRight(s)|..])
    decreases |s|
  {
    if s != [] && IsSpace(s[|s| - 1]) {
      StripRightDrops(s[..|s| - 1]);
    }
  }

  /** `s.strip()`. */
  function Strip(s: string): (r: string)
    ensures Stripped(r) && |r| <= |s|
  {
    var l := StripLeft(s);
    StripRightDrops(l);
    StripRight(l)
  }

  /** A string without white space at its ends is left as it is. */
  lemma StripStripped(s: string)
    requires Stripped(s)
    ensures Strip(s) == s
  {
  }

  /** Stripping a padded word gives back the word: `Strip` removes exactly the padding. */
  lemma {:induction false} StripPadded(pre: string, w: string, post: string)
    requires AllSpace(pre) && AllSpace(post) && Stripped(w)
    ensures Strip(pre + w + post) == w
  {
    var s := pre + w + post;
    if w == [] {
      assert AllSpace(s);
      StripLeftDrops(s);
      assert |StripLeft(s)| == 0;
    } else {
      StripLeftPadded(pre, w + post);
      assert s == pre + (w + post);
      StripRightPadded(w, post);
    }
  }

  lemma {:induction false} StripLeftPadded(pre: string, rest: string)
    requires AllSpace(pre) && (rest == [] || !IsSpace(rest[0]))
    ensures StripLeft(pre + rest) == rest
    decreases |pre|
  {
    if pre != [] {
      assert (pre + rest)[1..] == pre[1..] + rest;
      StripLeftPadded(pre[1..], rest);
    } else {
      assert pre + rest == rest;
    }
  }

  lemma {:induction false} StripRightPadded(w: string, post: string)
    requires AllSpace(post) && (w == [] || !IsSpace(w[|w| - 1]))
    ensures StripRight(w + post) == w
    decreases |post|
  {
    if post != [] {
      var s := w + post;
      assert s[..|s| - 1] == w + post[..|post| - 1];
      StripRightPadded(w, post[..|post| - 1]);
    } else {
      assert w + post == w;
    }
  }

  predicate IsAsciiUpper(c: char) {
    'A' <= c <= 'Z'
  }

  /** `str.lower()` restricted to ASCII letters. */
  function AsciiLower(s: string): (r: string)
    ensures |r| == |s|
  {
    if s == [] then []
    else
      var c := if IsAsciiUpper(s[0]) then (s[0] as int + 32) as char else s[0];
      [c] + AsciiLower(s[1..])
  }

  /**
   * Lower-casing leaves no upper-case ASCII letter: each one becomes the
   * letter at the same place in the lower-case alphabet, and every other
   * character stays where it was.
   */
  lemma {:induction false} AsciiLowerChars(s: string)
    ensures forall i :: 0 <= i < |s| ==> !IsAsciiUpper(AsciiLower(s)[i])
    ensures forall i :: 0 <= i < |s| ==>
      AsciiLower(s)[i] == if IsAsciiUpper(s[i]) then (s[i] as int - 'A' as int + 'a' as int) as char else s[i]
    decreases |s|
  {
    if s != [] {
      AsciiLowerChars(s[1..]);
    }
  }

  /** Characters that end a line when a text file is read in universal-newline mode. */
  predicate IsBreak(c: char) {
    c == '\n' || c == '\r'
  }

  predicate NoBreak(s: string) {
    forall i :: 0 <= i < |s| ==> !IsBreak(s[i])
  }

  /**
   * The text between line breaks. A "\r\n" pair yields one extra empty
   * piece; every caller drops blank pieces, as iterating over a file opened
   * in universal-newline mode would never have produced them.
   */
  function Lines(s: string): (r: seq<string>)
    ensures |r| >= 1
    ensures forall i :: 0 <= i < |r| ==> NoBreak(r[i])
  {
    if s == [] then [[]]
    else if IsBreak(s[0]) then [[]] + Lines(s[1..])
    else
      var t := Lines(s[1..]);
      [[s[0]] + t[0]] + t[1..]
  }

  /** `"\n".join(ls)`. */
  function JoinLines(ls: seq<string>): (r: string)
  {
    if |ls| == 0 then []
    else if |ls| == 1 then ls[0]
    else ls[0] + "\n" + JoinLines(ls[1..])
  }

  /** One piece of text followed by a line break splits off as one line. */
  lemma {:induction false} LinesCons(w: string, brk: char, rest: string)
    requires NoBreak(w) && IsBreak(brk)
    ensures Lines(w + [brk] + rest) == [w] + Lines(rest)
    decreases |w|
  {
    var s := w + [brk] + rest;
    if w == [] {
      assert s == [brk] + rest;
      assert s[1..] == rest;
    } else {
      assert s[0] == w[0];
      assert s[1..] == w[1..] + [brk] + rest;
      LinesCons(w[1..], brk, rest);
      assert [w[0]] + w[1..] == w;
    }
  }

  /** A piece of text without breaks is one line. */
  lemma {:induction false} LinesOfLine(w: string)
    requires NoBreak(w)
    ensures Lines(w) == [w]
    decreases |w|
  {
    if w != [] {
      LinesOfLine(w[1..]);
      assert [w[0]] + w[1..] == w;
    }
  }

  /** Reading back lines joined with "\n" yields the same lines. */
  lemma {:induction false} LinesJoinLines(ls: seq<string>)
    requires |ls| >= 1
    requires forall i :: 0 <= i < |ls| ==> NoBreak(ls[i])
    ensures Lines(JoinLines(ls)) == ls
    decreases |ls|
  {
    if |ls| == 1 {
      LinesOfLine(ls[0]);
    } else {
      LinesJoinLines(ls[1..]);
      assert ls[0] + "\n" + JoinLines(ls[1..]) == ls[0] + ['\n'] + JoinLines(ls[1..]);
      LinesCons(ls[0], '\n', JoinLines(ls[1..]));
      assert [ls[0]] + ls[1..] == ls;
    }
  }
}
