/** String operations the game relies on, with the meaning Python 2 gives
    them: the whitespace set of strip() and split(), lower(), split(" ", 1),
    the substring test of `in`, os.path.basename and the decimal form used by
    "%s". */
module Text {

  /** Python 2 has two kinds of text, and strip() and split() count different
      characters as whitespace in each: byte strings (str), which world.py
      reads with open(), and unicode strings, which codecs.open(..., "utf_8")
      gives for the level files and the config file. */
  datatype TextKind = Bytes | Unicode

  /** The whitespace of str.isspace(): space and tab (9) through carriage
      return (13); unicode.isspace() adds the separators 28 to 31, NEL, the
      no-break space and the other Unicode spaces and line separators. */
  predicate IsSpace(k: TextKind, c: char) {
    c == ' ' || ('\t' <= c <= '\r') ||
    (k == Unicode &&
      (('\U{1c}' <= c <= '\U{1f}') || c == '\U{85}' || c == '\U{a0}' || c == '\U{1680}' ||
       c == '\U{180e}' || ('\U{2000}' <= c <= '\U{200a}') || c == '\U{2028}' || c == '\U{2029}' ||
       c == '\U{202f}' || c == '\U{205f}' || c == '\U{3000}'))
  }

  /** str.lstrip(): drops the leading whitespace. */
  function LStrip(k: TextKind, s: string): (r: string)
    ensures |r| <= |s|
    ensures r == [] || !IsSpace(k, r[0])
    ensures forall i :: 0 <= i < |s| - |r| ==> IsSpace(k, s[i])
  {
    if s != [] && IsSpace(k, s[0]) then LStrip(k, s[1..]) else s
  }

  /** str.rstrip(): drops the trailing whitespace. */
  function RStrip(k: TextKind, s: string): (r: string)
    ensures |r| <= |s|
    ensures r == [] || !IsSpace(k, r[|r| - 1])
    ensures forall i :: |r| <= i < |s| ==> IsSpace(k, s[i])
  {
    if s != [] && IsSpace(k, s[|s| - 1]) then RStrip(k, s[..|s| - 1]) else s
  }

  /** What str.lstrip() leaves is a suffix of the text. */
  lemma {:induction false} LStripIsSuffix(k: TextKind, s: string)
    ensures LStrip(k, s) == s[|s| - |LStrip(k, s)|..]
    decreases |s|
  {
    if s != [] && IsSpace(k, s[0]) {
      LStripIsSuffix(k, s[1..]);
    }
  }

  /** What str.rstrip() leaves is a prefix of the text. */
  lemma {:induction false} RStripIsPrefix(k: TextKind, s: string)
    ensures RStrip(k, s) == s[..|RStrip(k, s)|]
    decreases |s|
  {
    if s != [] && IsSpace(k, s[|s| - 1]) {
      RStripIsPrefix(k, s[..|s| - 1]);
    }
  }

  /** str.strip(). */
  function Strip(k: TextKind, s: string): string {
    RStrip(k, LStrip(k, s))
  }

  /** The lower case of one character, for the characters whose lower case
      is ASCII: the capitals A to Z, and U+0130 and the Kelvin sign U+212A,
      which unicode.lower() maps to i and k. Other characters are kept. */
  function LowerChar(c: char): char {
    if 'A' <= c <= 'Z' then (c as int + 32) as char
    else if c == '\U{130}' then 'i'
    else if c == '\U{212a}' then 'k'
    else c
  }

  /** unicode.lower(), on the characters whose lower case is ASCII. */
  function Lower(s: string): (r: string)
    ensures |r| == |s|
    ensures forall i :: 0 <= i < |s| ==> r[i] == LowerChar(s[i])
  {
    if s == [] then [] else [LowerChar(s[0])] + Lower(s[1..])
  }

  /** Length of the run of non-whitespace characters that starts `s`. */
  function TokenLen(k: TextKind, s: string): (n: nat)
    ensures n <= |s|
    ensures forall i :: 0 <= i < n ==> !IsSpace(k, s[i])
    ensures n == |s| || IsSpace(k, s[n])
  {
    if s == [] || IsSpace(k, s[0]) then 0 else 1 + TokenLen(k, s[1..])
  }

  /** str.split() with no argument: the maximal runs of non-whitespace, in order. */
  function Split(k: TextKind, s: string): (r: seq<string>)
    decreases |s|
  {
    var t := LStrip(k, s);
    if t == [] then [] else
      var n := TokenLen(k, t);
      [t[..n]] + Split(k, t[n..])
  }

  /** A line is blank for str.strip() exactly when str.split() finds no token in it. */
  lemma {:induction false} SplitEmptyIffBlank(k: TextKind, s: string)
    ensures Split(k, s) == [] <==> Strip(k, s) == []
  {
    var t := LStrip(k, s);
    if t != [] {
      assert !IsSpace(k, t[0]);
      assert 0 < |t|;
    }
  }

  /** The first token of str.split() is the line with its leading whitespace
      removed, cut at the first whitespace that follows. */
  lemma SplitHead(k: TextKind, s: string)
    requires Split(k, s) != []
    ensures var t := LStrip(k, s); Split(k, s)[0] == t[..TokenLen(k, t)] && Split(k, s)[0] != []
  {
  }

  /** A word: non-empty text without whitespace. */
  predicate IsWord(k: TextKind, w: string) {
    w != [] && forall i :: 0 <= i < |w| ==> !IsSpace(k, w[i])
  }

  lemma {:induction false} TokenLenOfWord(k: TextKind, w: string, rest: string)
    requires IsWord(k, w)
    requires rest == [] || IsSpace(k, rest[0])
    ensures TokenLen(k, w + rest) == |w|
    decreases |w|
  {
    assert (w + rest)[0] == w[0];
    if |w| == 1 {
      assert (w + rest)[1..] == rest;
    } else {
      assert (w + rest)[1..] == w[1..] + rest;
      TokenLenOfWord(k, w[1..], rest);
    }
  }

  /** str.split() on a word followed by whitespace and more text: the word, then the tokens of the rest. */
  lemma {:induction false} SplitWordThen(k: TextKind, w: string, rest: string)
    requires IsWord(k, w)
    requires rest == [] || IsSpace(k, rest[0])
    ensures Split(k, w + rest) == [w] + Split(k, rest)
  {
    var s := w + rest;
    assert s[0] == w[0];
    assert LStrip(k, s) == s;
    TokenLenOfWord(k, w, rest);
    assert s[..|w|] == w;
    assert s[|w|..] == rest;
  }

  /** Leading whitespace does not change str.split(). */
  lemma SplitSkipsSpace(k: TextKind, c: char, s: string)
    requires IsSpace(k, c)
    ensures Split(k, [c] + s) == Split(k, s)
  {
    assert ([c] + s)[1..] == s;
  }

  lemma SplitWordLine(k: TextKind, b: string)
    requires IsWord(k, b)
    ensures Split(k, [' '] + (b + "\n")) == [b]
  {
    var nl: string := "\n";
    SplitSkipsSpace(k, ' ', b + nl);
    SplitWordThen(k, b, nl);
    assert LStrip(k, nl) == [];
  }

  lemma SplitWordBefore(k: TextKind, a: string, b: string, tail: string)
    requires IsWord(k, a) && tail != [] && IsSpace(k, tail[0]) && Split(k, tail) == [b]
    ensures Split(k, a + tail) == [a, b]
  {
    SplitWordThen(k, a, tail);
  }

  /** str.split() of a line made of two words separated by a space and ended by a newline. */
  lemma SplitTwoWordLine(k: TextKind, a: string, b: string)
    requires IsWord(k, a) && IsWord(k, b)
    ensures Split(k, a + " " + b + "\n") == [a, b]
  {
    var tail := [' '] + (b + "\n");
    assert a + " " + b + "\n" == a + tail;
    SplitWordLine(k, b);
    SplitWordBefore(k, a, b, tail);
  }

  /** str.split(" ", 1): the text before the first space and everything after
      it, or the whole text when there is no space. */
  function SplitOnce(s: string): (r: seq<string>)
    ensures |r| == 1 || |r| == 2
    ensures |r| == 1 <==> ' ' !in s
    ensures |r| == 1 ==> r[0] == s
    ensures |r| == 2 ==> s == r[0] + [' '] + r[1] && ' ' !in r[0]
  {
    if s == [] then [s]
    else if s[0] == ' ' then ["", s[1..]]
    else
      var rest := SplitOnce(s[1..]);
      if |rest| == 1 then [s] else [[s[0]] + rest[0], rest[1]]
  }

  /** str.split(" ", 1) of a text without spaces, a space and a rest: the two parts. */
  lemma {:induction false} SplitOnceAt(a: string, b: string)
    requires ' ' !in a
    ensures SplitOnce(a + " " + b) == [a, b]
    decreases |a|
  {
    var s := a + " " + b;
    if a == [] {
      assert s[1..] == b;
    } else {
      assert s[0] == a[0];
      assert s[1..] == a[1..] + " " + b;
      assert ' ' !in a[1..] by {
        assert forall i :: 0 <= i < |a[1..]| ==> a[1..][i] == a[i + 1];
      }
      SplitOnceAt(a[1..], b);
      assert [s[0]] + a[1..] == a;
    }
  }

  /** Python's `a in b` on strings: `a` occurs in `b` as a contiguous piece
      (so the empty string is in every string). */
  predicate IsSubstring(a: string, b: string)
    decreases |b|
  {
    a <= b || (b != [] && IsSubstring(a, b[1..]))
  }

  /** `a` is in `b` exactly when `b` has a suffix that starts with `a`. */
  lemma {:induction false} IsSubstringAt(a: string, b: string)
    ensures IsSubstring(a, b) <==> exists i :: 0 <= i <= |b| && a <= b[i..]
    decreases |b|
  {
    if IsSubstring(a, b) {
      if a <= b {
        assert b[0..] == b;
      } else {
        IsSubstringAt(a, b[1..]);
        var i :| 0 <= i <= |b[1..]| && a <= b[1..][i..];
        assert b[1..][i..] == b[i + 1..];
      }
    }
    if exists i :: 0 <= i <= |b| && a <= b[i..] {
      var i :| 0 <= i <= |b| && a <= b[i..];
      if i == 0 {
        assert b[0..] == b;
      } else {
        assert b[1..][i - 1..] == b[i..];
        IsSubstringAt(a, b[1..]);
      }
    }
  }


  /** os.path.basename with '/' as the separator: what follows the last '/'. */
  function BaseName(path: string): (r: string)
    ensures '/' !in r
    ensures |r| <= |path|
    ensures |r| < |path| ==> path[|path| - |r| - 1] == '/'
  {
    if path == [] then []
    else if path[|path| - 1] == '/' then []
    else BaseName(path[..|path| - 1]) + [path[|path| - 1]]
  }

  /** The base name is the end of the path: what follows its last '/'. */
  lemma {:induction false} BaseNameIsSuffix(path: string)
    ensures BaseName(path) == path[|path| - |BaseName(path)|..]
    decreases |path|
  {
    if path != [] && path[|path| - 1] != '/' {
      var init := path[..|path| - 1];
      BaseNameIsSuffix(init);
      var b := BaseName(init);
      assert init[|init| - |b|..] + [path[|path| - 1]] == path[|path| - |b| - 1..];
    }
  }

  /** The decimal digits of a natural number, most significant first. */
  function NatToString(n: nat): (r: string)
    decreases n
    ensures r != []
    ensures forall i :: 0 <= i < |r| ==> '0' <= r[i] <= '9'
  {
    var d := ['0' + (n % 10) as char];
    if n < 10 then d else NatToString(n / 10) + d
  }

  /** str() of an int: its decimal form, with a leading '-' when negative. */
  function IntToString(n: int): string {
    if n < 0 then "-" + NatToString(-n) else NatToString(n)
  }
}
