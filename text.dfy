/** Character and string helpers with the meaning JavaScript gives them:
    `String.prototype.trim`, the case mappings that matter for the comparisons
    the quiz makes, and `replace` with a one-character pattern. */
module Text {

  /** The characters `trim` removes: ECMAScript WhiteSpace and LineTerminator. */
  predicate IsSpace(c: char) {
    c == ' ' || c == '\t' || c == '\n' || c == '\r' || c == '\U{B}' || c == '\U{C}'
    || c == '\U{A0}' || c == '\U{1680}' || ('\U{2000}' <= c <= '\U{200A}')
    || c == '\U{2028}' || c == '\U{2029}' || c == '\U{202F}' || c == '\U{205F}'
    || c == '\U{3000}' || c == '\U{FEFF}'
  }

  /** True when every character of `s` is white space (the empty string included). */
  predicate IsBlank(s: string) {
    forall i :: 0 <= i < |s| ==> IsSpace(s[i])
  }

  /** `s` without its leading white space. */
  function TrimStart(s: string): (r: string)
    ensures |r| <= |s|
  {
    if s != [] && IsSpace(s[0]) then TrimStart(s[1..]) else s
  }

  /** `s` without its trailing white space. */
  function TrimEnd(s: string): (r: string)
    ensures |r| <= |s|
  {
    if s != [] && IsSpace(s[|s| - 1]) then TrimEnd(s[..|s| - 1]) else s
  }

  /** `String.prototype.trim`. */
  function Trim(s: string): (r: string)
    ensures |r| <= |s|
  {
    TrimEnd(TrimStart(s))
  }

  /** `trimStart` removes a blank prefix and stops at a non-space character. */
  lemma {:induction false} TrimStartCuts(s: string)
    ensures var r := TrimStart(s);
      && r == s[|s| - |r|..] && IsBlank(s[..|s| - |r|]) && (r == [] || !IsSpace(r[0]))
    decreases |s|
  {
    if s != [] && IsSpace(s[0]) {
      var r := TrimStart(s[1..]);
      TrimStartCuts(s[1..]);
      assert s[1..][..|s[1..]| - |r|] == s[1..|s| - |r|];
      assert s[1..][|s[1..]| - |r|..] == s[|s| - |r|..];
    } else {
      assert s[..0] == [];
    }
  }

  /** `trimEnd` removes a blank suffix and stops at a non-space character. */
  lemma {:induction false} TrimEndCuts(s: string)
    ensures var r := TrimEnd(s);
      && r == s[..|r|] && IsBlank(s[|r|..]) && (r == [] || !IsSpace(r[|r| - 1]))
    decreases |s|
  {
    if s != [] && IsSpace(s[|s| - 1]) {
      var r := TrimEnd(s[..|s| - 1]);
      TrimEndCuts(s[..|s| - 1]);
      assert s[|r|..] == s[..|s| - 1][|r|..] + [s[|s| - 1]];
      assert s[..|s| - 1][..|r|] == s[..|r|];
    } else {
      assert s[|s|..] == [];
    }
  }

  /** What `trim` keeps is a slice of the string with only white space cut
      away on either side, and it neither starts nor ends with white space. */
  lemma TrimIsSlice(s: string)
    ensures var r := Trim(s);
      && (r == [] || (!IsSpace(r[0]) && !IsSpace(r[|r| - 1])))
      && exists i :: 0 <= i <= |s| - |r| && r == s[i..i + |r|] && IsBlank(s[..i]) && IsBlank(s[i + |r|..])
  {
    var a := TrimStart(s);
    TrimStartCuts(s);
    var r := TrimEnd(a);
    TrimEndCuts(a);
    var i := |s| - |a|;
    assert r == s[i..i + |r|] && IsBlank(s[..i]);
    assert s[i + |r|..] == a[|r|..];
    if r != [] {
      assert r[0] == a[0] by { assert a[..|r|][0] == a[0]; }
    }
  }

  /** A string that neither starts nor ends with white space trims to itself. */
  lemma TrimOfClean(s: string)
    requires s != [] && !IsSpace(s[0]) && !IsSpace(s[|s| - 1])
    ensures Trim(s) == s
  {
  }

  /** `trimStart` removes a blank string entirely. */
  lemma {:induction false} TrimStartOfBlank(s: string)
    requires IsBlank(s)
    ensures TrimStart(s) == []
    decreases |s|
  {
    if s != [] {
      TrimStartOfBlank(s[1..]);
    }
  }

  /** What `trimStart` keeps is blank only when it is empty. */
  lemma {:induction false} TrimStartBlankIsEmpty(s: string)
    requires IsBlank(TrimStart(s))
    ensures TrimStart(s) == []
    decreases |s|
  {
    if s != [] && IsSpace(s[0]) {
      TrimStartBlankIsEmpty(s[1..]);
    }
  }

  /** Trimming leaves nothing exactly when the string is blank. */
  lemma TrimEmptyIffBlank(s: string)
    ensures Trim(s) == [] <==> IsBlank(s)
  {
    var a := TrimStart(s);
    if IsBlank(s) {
      TrimStartOfBlank(s);
    }
    if Trim(s) == [] {
      TrimEndCuts(a);
      assert a[0..] == a;
      TrimStartBlankIsEmpty(s);
      TrimStartCuts(s);
      assert s[..|s|] == s;
    }
  }

  /** Trimming twice is trimming once. */
  lemma TrimIdempotent(s: string)
    ensures Trim(Trim(s)) == Trim(s)
  {
    var r := Trim(s);
    TrimIsSlice(s);
    if r != [] {
      TrimOfClean(r);
    }
  }

  /** `toUpperCase` on the characters whose upper case is a basic Latin letter
      ('a'..'z' and the dotless i); every other character is left as it is. */
  function UpperChar(c: char): char {
    if 'a' <= c <= 'z' then (c as int - 32) as char
    else if c == '\U{131}' then 'I'
    else c
  }

  function ToUpper(s: string): (r: string)
    ensures |r| == |s| && forall i :: 0 <= i < |s| ==> r[i] == UpperChar(s[i])
  {
    seq(|s|, i requires 0 <= i < |s| => UpperChar(s[i]))
  }

  /** `toLowerCase` on basic Latin capitals; every other character is left as it is. */
  function LowerChar(c: char): char {
    if 'A' <= c <= 'Z' then (c as int + 32) as char else c
  }

  function ToLower(s: string): (r: string)
    ensures |r| == |s| && forall i :: 0 <= i < |s| ==> r[i] == LowerChar(s[i])
  {
    seq(|s|, i requires 0 <= i < |s| => LowerChar(s[i]))
  }

  /** The characters whose upper case is the capital `c`: `c` itself, its
      small letter and, for `I`, the dotless i. */
  lemma UpperCharOf(x: char, c: char)
    requires 'A' <= c <= 'Z'
    ensures UpperChar(x) == c <==> x == c || x == (c as int + 32) as char || (c == 'I' && x == '\U{131}')
  {
  }

  /** The characters whose lower case is the small letter `c`: `c` and its capital. */
  lemma LowerCharOf(x: char, c: char)
    requires 'a' <= c <= 'z'
    ensures LowerChar(x) == c <==> x == c || x == (c as int - 32) as char
  {
  }

  /** Upper-casing `s` gives a word `t` of capitals exactly when `s` spells
      `t` letter by letter in either case (with `ı` for `I`). */
  lemma ToUpperMatches(s: string, t: string)
    requires forall i :: 0 <= i < |t| ==> 'A' <= t[i] <= 'Z'
    ensures ToUpper(s) == t <==> |s| == |t| && forall i :: 0 <= i < |s| ==>
      s[i] == t[i] || s[i] == (t[i] as int + 32) as char || (t[i] == 'I' && s[i] == '\U{131}')
  {
    if |s| == |t| {
      forall i | 0 <= i < |s| {
        UpperCharOf(s[i], t[i]);
      }
    }
  }

  /** Lower-casing `s` gives a word `t` of small letters exactly when `s`
      spells `t` letter by letter in either case. */
  lemma ToLowerMatches(s: string, t: string)
    requires forall i :: 0 <= i < |t| ==> 'a' <= t[i] <= 'z'
    ensures ToLower(s) == t <==> |s| == |t| && forall i :: 0 <= i < |s| ==>
      s[i] == t[i] || s[i] == (t[i] as int - 32) as char
  {
    if |s| == |t| {
      forall i | 0 <= i < |s| {
        LowerCharOf(s[i], t[i]);
      }
    }
  }

  /** The position of the first `c` in `s`, or `|s|` when there is none. */
  function IndexOf(s: string, c: char): (i: nat)
    ensures i <= |s|
    ensures i < |s| ==> s[i] == c
    ensures c !in s[..i]
  {
    if s == [] then 0
    else if s[0] == c then 0
    else
      var j := IndexOf(s[1..], c);
      assert s[..j + 1] == [s[0]] + s[1..][..j];
      j + 1
  }

  /** `s.replace(from, to)` with one-character strings: only the FIRST
      occurrence of `from` is replaced. */
  function ReplaceFirst(s: string, from: char, to: char): string {
    var i := IndexOf(s, from);
    if i == |s| then s else s[..i] + [to] + s[i + 1..]
  }
}
