/** The pieces of Go's `strings` and `unicode` packages the handlers call:
    whitespace trimming, prefix handling, splitting and joining on one
    separator, and lower-casing for the banned-word lookup. Strings are
    sequences of Unicode scalar values, so they always hold valid UTF-8. */
module Text {

  /** Go's unicode.IsSpace: the Latin-1 spaces plus the Unicode White_Space
      characters above U+00FF. */
  predicate IsSpace(c: char) {
    || c == ' ' || c == '\t' || c == '\n' || c == '\r'
    || c == '\U{000B}' || c == '\U{000C}' || c == '\U{0085}' || c == '\U{00A0}'
    || c == '\U{1680}' || ('\U{2000}' <= c <= '\U{200A}')
    || c == '\U{2028}' || c == '\U{2029}' || c == '\U{202F}' || c == '\U{205F}'
    || c == '\U{3000}'
  }

  predicate AllSpace(s: string) {
    forall i :: 0 <= i < |s| ==> IsSpace(s[i])
  }

  /** `s` with its leading white space removed. */
  function TrimLeftSpace(s: string): (r: string)
    ensures |r| <= |s| && r == s[|s| - |r|..]
    ensures AllSpace(s[..|s| - |r|])
    ensures r == [] || !IsSpace(r[0])
  {
    if |s| > 0 && IsSpace(s[0]) then
      var r := TrimLeftSpace(s[1..]);
      assert s[..|s| - |r|] == [s[0]] + s[1..][..|s[1..]| - |r|];
      r
    else s
  }

  /** `s` with its trailing white space removed. */
  function TrimRightSpace(s: string): (r: string)
    ensures |r| <= |s| && r == s[..|r|]
    ensures AllSpace(s[|r|..])
    ensures r == [] || !IsSpace(r[|r| - 1])
  {
    if |s| > 0 && IsSpace(s[|s| - 1]) then
      var r := TrimRightSpace(s[..|s| - 1]);
      assert s[|r|..] == s[..|s| - 1][|r|..] + [s[|s| - 1]];
      r
    else s
  }

  /** Go's strings.TrimSpace: white space cut from both ends. It is empty
      exactly when `s` is all white space. */
  function TrimSpace(s: string): (r: string)
    ensures r == [] <==> AllSpace(s)
    ensures r != [] ==> !IsSpace(r[0]) && !IsSpace(r[|r| - 1])
  {
    var left := TrimLeftSpace(s);
    var r := TrimRightSpace(left);
    assert r == [] ==> AllSpace(s) by {
      if r == [] {
        var k := |s| - |left|;
        assert s == s[..k] + left;
        SpaceConcat(s[..k], left);
      }
    }
    r
  }

  /** `r` sits at offset `k` of `s` with only white space around it. */
  predicate SpaceAround(s: string, r: string, k: int) {
    0 <= k <= |s| - |r| && r == s[k..k + |r|] && AllSpace(s[..k]) && AllSpace(s[k + |r|..])
  }

  /** What TrimSpace keeps is an infix of `s` with only white space
      before and after it. */
  lemma TrimSpaceInfix(s: string)
    ensures exists k :: SpaceAround(s, TrimSpace(s), k)
  {
    var left := TrimLeftSpace(s);
    var r := TrimRightSpace(left);
    assert r == TrimSpace(s);
    var k := |s| - |left|;
    assert left == s[k..];
    assert AllSpace(s[..k]);
    assert r == left[..|r|];
    assert r == s[k..k + |r|];
    assert s[k + |r|..] == left[|r|..];
    assert AllSpace(left[|r|..]);
    assert SpaceAround(s, r, k);
  }

  lemma SpaceConcat(a: string, b: string)
    requires AllSpace(a) && AllSpace(b)
    ensures AllSpace(a + b)
  {
    forall i | 0 <= i < |a + b| ensures IsSpace((a + b)[i]) {
      if i >= |a| { assert (a + b)[i] == b[i - |a|]; }
    }
  }

  /** Text that already has no white space at either end is left as it is. */
  lemma TrimSpaceOfTrimmed(s: string)
    requires s != [] && !IsSpace(s[0]) && !IsSpace(s[|s| - 1])
    ensures TrimSpace(s) == s
  {
  }

  /** Go's strings.TrimPrefix. */
  function TrimPrefix(s: string, prefix: string): (r: string)
    ensures prefix <= s ==> s == prefix + r
    ensures !(prefix <= s) ==> r == s
  {
    if prefix <= s then s[|prefix|..] else s
  }

  // ------------------------------------------------------- Split and Join

  /** Number of occurrences of `c` in `s`. */
  function Count(s: string, c: char): nat {
    if |s| == 0 then 0 else (if s[0] == c then 1 else 0) + Count(s[1..], c)
  }

  /** Go's strings.Split with a one-character separator: the maximal
      separator-free pieces between separators, empty pieces included; one
      more piece than there are separators, so never an empty list. */
  function Split(s: string, sep: char): (ws: seq<string>)
    ensures |ws| == Count(s, sep) + 1
    ensures forall i :: 0 <= i < |ws| ==> sep !in ws[i]
  {
    if |s| == 0 then [""]
    else
      var rest := Split(s[1..], sep);
      if s[0] == sep then [""] + rest
      else [[s[0]] + rest[0]] + rest[1..]
  }

  /** Go's strings.Join with a one-character separator. */
  function Join(ws: seq<string>, sep: char): (s: string)
    ensures |ws| > 0 ==> |s| >= |ws| - 1
  {
    if |ws| == 0 then ""
    else if |ws| == 1 then ws[0]
    else ws[0] + [sep] + Join(ws[1..], sep)
  }

  /** Joining the pieces of a split gives back the original text, so every
      separator, including runs of them, survives the round trip. */
  lemma {:induction false} JoinSplit(s: string, sep: char)
    ensures Join(Split(s, sep), sep) == s
  {
    if |s| > 0 {
      var rest := Split(s[1..], sep);
      JoinSplit(s[1..], sep);
      if s[0] == sep {
        assert Split(s, sep) == [""] + rest;
        assert Split(s, sep)[1..] == rest;
      } else {
        var ws := Split(s, sep);
        assert ws == [[s[0]] + rest[0]] + rest[1..];
        if |rest| == 1 {
          assert ws == [[s[0]] + rest[0]];
        } else {
          assert ws[1..] == rest[1..];
          assert Join(rest, sep) == rest[0] + [sep] + Join(rest[1..], sep);
        }
      }
    }
  }

  /** Splitting a join of separator-free pieces gives back the pieces. */
  lemma {:induction false} SplitJoin(ws: seq<string>, sep: char)
    requires |ws| > 0
    requires forall i :: 0 <= i < |ws| ==> sep !in ws[i]
    ensures Split(Join(ws, sep), sep) == ws
  {
    if |ws| == 1 {
      SplitWord(ws[0], sep);
    } else {
      SplitJoin(ws[1..], sep);
      SplitPrefixed(ws[0], Join(ws[1..], sep), sep);
    }
  }

  /** A separator-free piece splits into itself. */
  lemma {:induction false} SplitWord(w: string, sep: char)
    requires sep !in w
    ensures Split(w, sep) == [w]
  {
    if |w| > 0 {
      SplitWord(w[1..], sep);
      assert [w[0]] + w[1..] == w;
    }
  }

  /** Splitting `w + sep + t` for a separator-free `w` yields `w` followed by
      the pieces of `t`. */
  lemma {:induction false} SplitPrefixed(w: string, t: string, sep: char)
    requires sep !in w
    ensures Split(w + [sep] + t, sep) == [w] + Split(t, sep)
  {
    if |w| == 0 {
      assert w + [sep] + t == [sep] + t;
      assert ([sep] + t)[1..] == t;
    } else {
      var s := w + [sep] + t;
      assert s[1..] == w[1..] + [sep] + t;
      SplitPrefixed(w[1..], t, sep);
      assert [w[0]] + w[1..] == w;
    }
  }

  // -------------------------------------------------------- Lower-casing

  /** Go's unicode.ToLower on every character whose lower-case form is
      ASCII: the ASCII capitals, KELVIN SIGN (U+212A, to 'k') and LATIN
      CAPITAL LETTER I WITH DOT ABOVE (U+0130, to 'i'). Every other
      character is returned unchanged; Go may map it to another character,
      but never to an ASCII one, so equality with ASCII text is decided
      exactly as Go decides it. */
  function LowerRune(c: char): (r: char)
    ensures r as int < 0x80 ==> r == c || 'A' <= c <= 'Z' || c == '\U{212A}' || c == '\U{0130}'
  {
    if 'A' <= c <= 'Z' then (c as int + 32) as char
    else if c == '\U{212A}' then 'k'
    else if c == '\U{0130}' then 'i'
    else c
  }

  /** strings.ToLower, exact whenever the result is compared with ASCII text. */
  function Lower(s: string): (r: string)
    ensures |r| == |s|
    ensures forall i :: 0 <= i < |r| ==> LowerRune(r[i]) == r[i]
  {
    seq(|s|, i requires 0 <= i < |s| => LowerRune(s[i]))
  }

  /** A character folds to the lower-case ASCII character `a` when it is
      `a` itself, its ASCII capital, or a non-ASCII letter Go lowers to it. */
  predicate FoldsTo(c: char, a: char) {
    || c == a
    || ('a' <= a <= 'z' && c as int == a as int - 32)
    || (a == 'k' && c == '\U{212A}')
    || (a == 'i' && c == '\U{0130}')
  }

  /** Lower-casing lands on ASCII text without capitals exactly when every
      character folds to the corresponding one: the case-insensitive
      comparison the banned-word lookup makes. */
  lemma LowerMatches(w: string, t: string)
    requires forall i :: 0 <= i < |t| ==> t[i] as int < 0x80 && !('A' <= t[i] <= 'Z')
    ensures Lower(w) == t <==> |w| == |t| && forall i :: 0 <= i < |t| ==> FoldsTo(w[i], t[i])
  {
    if Lower(w) == t {
      forall i | 0 <= i < |t| ensures FoldsTo(w[i], t[i]) {
        assert LowerRune(w[i]) == t[i];
      }
    }
    if |w| == |t| && forall i :: 0 <= i < |t| ==> FoldsTo(w[i], t[i]) {
      forall i | 0 <= i < |t| ensures Lower(w)[i] == t[i] {
        assert FoldsTo(w[i], t[i]);
      }
    }
  }
}
