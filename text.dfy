/** The Python string operations the editor applies to dialog and entry
    text: `str.isdigit`, `str.split`, `int` and `str` on integers, and the
    delay entry's validator. Digits are the ASCII digits. */
module Text {
  import opened Model

  /** The characters `str.split()` and `str.strip()` treat as whitespace. */
  predicate IsSpace(c: char) {
    c == ' ' || '\U{9}' <= c <= '\U{D}' || '\U{1C}' <= c <= '\U{1F}' ||
    c == '\U{85}' || c == '\U{A0}' || c == '\U{1680}' || '\U{2000}' <= c <= '\U{200A}' ||
    c == '\U{2028}' || c == '\U{2029}' || c == '\U{202F}' || c == '\U{205F}' || c == '\U{3000}'
  }

  predicate IsDigit(c: char) {
    '0' <= c <= '9'
  }

  function DigitVal(c: char): (v: nat)
    requires IsDigit(c)
    ensures v < 10
  {
    (c as int) - ('0' as int)
  }

  function DigitChar(d: nat): (c: char)
    requires d < 10
    ensures IsDigit(c) && DigitVal(c) == d
  {
    (('0' as int) + d) as char
  }

  predicate AllDigits(s: string) {
    forall i :: 0 <= i < |s| ==> IsDigit(s[i])
  }

  /** `s.isdigit()`: non-empty and made of digits only. */
  predicate IsDigitString(s: string) {
    |s| > 0 && AllDigits(s)
  }

  /** The delay entry's validator: digits only, or empty while editing. */
  predicate ValidateDelay(s: string) {
    IsDigitString(s) || s == ""
  }

  // ---------------------------------------------------------------------
  // strip and split

  function StripLeft(s: string): (r: string)
    ensures |r| <= |s| && r == s[|s| - |r|..]
    ensures |r| > 0 ==> !IsSpace(r[0])
    ensures |s| > 0 && !IsSpace(s[0]) ==> r == s
  {
    if |s| > 0 && IsSpace(s[0]) then StripLeft(s[1..]) else s
  }

  function StripRight(s: string): (r: string)
    ensures |r| <= |s| && r == s[..|r|]
    ensures |r| > 0 ==> !IsSpace(r[|r| - 1])
    ensures |s| > 0 && !IsSpace(s[|s| - 1]) ==> r == s
  {
    if |s| > 0 && IsSpace(s[|s| - 1]) then StripRight(s[..|s| - 1]) else s
  }

  /** `s.strip()`. */
  function Strip(s: string): string {
    StripRight(StripLeft(s))
  }

  /** The leading run of non-space characters. */
  function Word(s: string): (w: string)
    ensures |w| <= |s| && w == s[..|w|]
    ensures forall i :: 0 <= i < |w| ==> !IsSpace(w[i])
    ensures |w| < |s| ==> IsSpace(s[|w|])
  {
    if |s| == 0 || IsSpace(s[0]) then [] else [s[0]] + Word(s[1..])
  }

  /** `s.split()`: the maximal runs of non-space characters. */
  function Tokens(s: string): (ts: seq<string>)
    decreases |s|
  {
    var t := StripLeft(s);
    if |t| == 0 then []
    else
      var w := Word(t);
      [w] + Tokens(t[|w|..])
  }

  // ---------------------------------------------------------------------
  // int() and str()

  predicate DigitsOrUnderscores(d: string) {
    forall i :: 0 <= i < |d| ==> IsDigit(d[i]) || d[i] == '_'
  }

  /** Digits with single underscores between them, as `int` accepts. */
  predicate WellGrouped(d: string) {
    |d| > 0 && DigitsOrUnderscores(d) && IsDigit(d[0]) && IsDigit(d[|d| - 1]) &&
    forall i :: 0 <= i < |d| - 1 && d[i] == '_' ==> d[i + 1] != '_'
  }

  /** The value of a digit string, underscores ignored. */
  function GroupedValue(d: string): nat
    requires DigitsOrUnderscores(d)
  {
    if |d| == 0 then 0
    else if d[|d| - 1] == '_' then GroupedValue(d[..|d| - 1])
    else 10 * GroupedValue(d[..|d| - 1]) + DigitVal(d[|d| - 1])
  }

  /** `int(s)` on a string: surrounding whitespace, an optional sign and
      underscores between digits are accepted; anything else is a ValueError. */
  function ParseInt(s: string): Option<int> {
    ParseStripped(Strip(s))
  }

  /** int() once the surrounding whitespace is gone. */
  function ParseStripped(t: string): Option<int> {
    if |t| > 0 && (t[0] == '-' || t[0] == '+') then
      var d := t[1..];
      if WellGrouped(d) then
        var v: int := GroupedValue(d);
        Some(if t[0] == '-' then -v else v)
      else None
    else if WellGrouped(t) then Some(GroupedValue(t))
    else None
  }

  function NatStr(n: nat): (s: string)
    ensures IsDigitString(s)
  {
    if n < 10 then [DigitChar(n)] else NatStr(n / 10) + [DigitChar(n % 10)]
  }

  /** `str(n)` on an integer. */
  function Str(n: int): string {
    if n < 0 then "-" + NatStr(-n) else NatStr(n)
  }

  // ---------------------------------------------------------------------
  // Properties

  lemma {:induction false} NatStrValue(n: nat)
    ensures GroupedValue(NatStr(n)) == n
  {
    if n >= 10 {
      var s := NatStr(n);
      assert s[..|s| - 1] == NatStr(n / 10);
      NatStrValue(n / 10);
    }
  }

  lemma DigitNotSpace(c: char)
    requires IsDigit(c)
    ensures !IsSpace(c)
  {
  }

  /** A digit string is its own stripped form, carries no sign and is well
      grouped. */
  lemma DigitStringParses(s: string)
    requires IsDigitString(s)
    ensures Strip(s) == s && WellGrouped(s)
    ensures ParseInt(s) == Some(GroupedValue(s))
  {
    DigitNotSpace(s[0]);
    DigitNotSpace(s[|s| - 1]);
    assert StripLeft(s) == s;
  }

  /** A minus sign before a digit string negates its value. */
  lemma NegativeParses(d: string)
    requires IsDigitString(d)
    ensures ParseInt("-" + d) == Option<int>.Some(-(GroupedValue(d) as int))
  {
    var s := "-" + d;
    ConsParts('-', d);
    SignedStrip(d);
    DigitStringParses(d);
    ParseNegative(s);
  }

  /** int() of a stripped text with a minus sign before a well-grouped digit
      string. */
  lemma ParseNegative(t: string)
    requires |t| > 0 && t[0] == '-' && WellGrouped(t[1..])
    ensures ParseStripped(t) == Some(-(GroupedValue(t[1..]) as int))
  {
  }

  lemma ConsParts(c: char, d: string)
    ensures |[c] + d| > 0 && ([c] + d)[0] == c && ([c] + d)[1..] == d
  {
  }

  /** Stripping leaves a minus sign before a digit string in place. */
  lemma SignedStrip(d: string)
    requires IsDigitString(d)
    ensures Strip("-" + d) == "-" + d
  {
    var s := "-" + d;
    DigitNotSpace(d[|d| - 1]);
    assert s[|s| - 1] == d[|d| - 1];
    assert StripLeft(s) == s;
  }

  /** Python's `int` reads back what `str` writes for any integer. */
  lemma ParseStr(n: int)
    ensures ParseInt(Str(n)) == Some(n)
  {
    var m: nat := if n < 0 then -n else n;
    NatStrValue(m);
    if n < 0 {
      NegativeParses(NatStr(m));
    } else {
      DigitStringParses(NatStr(m));
    }
  }

  /** What the validator lets into the delay entry: either the empty entry,
      which int() rejects, or a digit string, which parses to a non-negative
      delay. */
  lemma ValidatedDelayParses(s: string)
    requires ValidateDelay(s)
    ensures s == "" <==> ParseInt(s).None?
    ensures ParseInt(s).Some? ==> ParseInt(s).value >= 0
  {
    if s != "" {
      DigitStringParses(s);
    }
  }

  /** The validator accepts the printed form of exactly the non-negative delays. */
  lemma ValidateDelayStr(n: int)
    ensures ValidateDelay(Str(n)) <==> n >= 0
  {
    if n < 0 {
      assert Str(n)[0] == '-';
    }
  }

  /** The name the frame list shows for frame number n. */
  function FrameName(n: int): string {
    "Frame " + Str(n)
  }

  /** The frame number read from a "Frame N" name: the second
      whitespace-separated token converted by int(). */
  function ParseFrameName(name: string): Option<int> {
    var ts := Tokens(name);
    if |ts| < 2 then None else ParseInt(ts[1])
  }

  lemma WordOf(w: string, rest: string)
    requires |w| > 0 && forall i :: 0 <= i < |w| ==> !IsSpace(w[i])
    requires |rest| == 0 || IsSpace(rest[0])
    ensures Word(w + rest) == w
    decreases |w|
  {
    if |w| > 1 {
      assert (w + rest)[1..] == w[1..] + rest;
      WordOf(w[1..], rest);
    } else {
      assert (w + rest)[1..] == rest;
    }
  }

  /** A leading word is the first token. */
  lemma TokensWord(w: string, rest: string)
    requires |w| > 0 && forall i :: 0 <= i < |w| ==> !IsSpace(w[i])
    requires |rest| == 0 || IsSpace(rest[0])
    ensures Tokens(w + rest) == [w] + Tokens(rest)
  {
    WordOf(w, rest);
    assert StripLeft(w + rest) == w + rest;
    assert (w + rest)[|w|..] == rest;
  }

  lemma TokensSkipSpace(s: string)
    ensures Tokens(" " + s) == Tokens(s)
  {
    assert (" " + s)[1..] == s;
    assert StripLeft(" " + s) == StripLeft(s);
  }

  lemma StrNoSpace(n: int)
    ensures |Str(n)| > 0 && forall i :: 0 <= i < |Str(n)| ==> !IsSpace(Str(n)[i])
  {
    var s := Str(n);
    var d := NatStr(if n < 0 then -n else n);
    forall i | 0 <= i < |s| ensures !IsSpace(s[i]) {
      if n >= 0 {
        DigitNotSpace(d[i]);
      } else if i > 0 {
        assert s[i] == d[i - 1];
        DigitNotSpace(d[i - 1]);
      }
    }
  }

  /** Reading back the name the frame list shows gives the frame number. */
  lemma ParseFrameNameOf(n: int)
    ensures ParseFrameName(FrameName(n)) == Some(n)
  {
    var s := Str(n);
    StrNoSpace(n);
    NameTokens(s);
    ParseStr(n);
  }

  lemma {:induction false} NameTokens(s: string)
    requires |s| > 0 && forall i :: 0 <= i < |s| ==> !IsSpace(s[i])
    ensures Tokens("Frame " + s) == ["Frame", s]
  {
    var w := "Frame";
    assert forall i :: 0 <= i < |w| ==> !IsSpace(w[i]);
    TwoTokens(w, s);
    assert "Frame " + s == w + " " + s;
  }

  /** Two words separated by one space split into those two words. */
  lemma TwoTokens(w: string, s: string)
    requires |w| > 0 && forall i :: 0 <= i < |w| ==> !IsSpace(w[i])
    requires |s| > 0 && forall i :: 0 <= i < |s| ==> !IsSpace(s[i])
    ensures Tokens(w + " " + s) == [w, s]
  {
    var e: string := [];
    calc {
      Tokens(w + " " + s);
      { assert w + " " + s == w + (" " + s); }
      Tokens(w + (" " + s));
      { TokensWord(w, " " + s); }
      [w] + Tokens(" " + s);
      { TokensSkipSpace(s); }
      [w] + Tokens(s);
      { assert s + e == s; TokensWord(s, e); }
      [w] + ([s] + Tokens(e));
      { TokensEmpty(); }
      [w, s];
    }
  }

  lemma TokensEmpty()
    ensures Tokens([]) == []
  {
  }
}
