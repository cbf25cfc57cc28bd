/**
 * The Python string built-ins the line assembler of
 * dz4/assembler_inteprator.py relies on: str.strip() and str.split() with
 * no arguments, str.upper() and int() on a word.
 */
module PyText {
  import opened Results

  /** str.isspace for one character: the characters strip() and split() treat as whitespace. */
  predicate IsSpace(c: char)
  {
    ('\t' <= c <= '\r') || ('\U{1C}' <= c <= ' ') || c == '\U{85}' || c == '\U{A0}' ||
    c == '\U{1680}' || ('\U{2000}' <= c <= '\U{200A}') || c == '\U{2028}' || c == '\U{2029}' ||
    c == '\U{202F}' || c == '\U{205F}' || c == '\U{3000}'
  }

  predicate NoSpace(s: string)
  {
    forall i :: 0 <= i < |s| ==> !IsSpace(s[i])
  }

  predicate AllSpace(s: string)
  {
    forall i :: 0 <= i < |s| ==> IsSpace(s[i])
  }

  lemma AllSpaceCons(c: char, t: string)
    requires IsSpace(c) && AllSpace(t)
    ensures AllSpace([c] + t)
  {
    forall i | 0 <= i < |t| + 1
      ensures IsSpace(([c] + t)[i])
    {
      if i > 0 {
        assert ([c] + t)[i] == t[i - 1];
      }
    }
  }

  lemma AllSpaceSnoc(t: string, c: char)
    requires IsSpace(c) && AllSpace(t)
    ensures AllSpace(t + [c])
  {
    forall i | 0 <= i < |t| + 1
      ensures IsSpace((t + [c])[i])
    {
      if i < |t| {
        assert (t + [c])[i] == t[i];
      }
    }
  }

  /** A whitespace character before a whitespace prefix lengthens the prefix by one. */
  lemma SpaceBefore(s: string, r: string)
    requires s != [] && IsSpace(s[0])
    requires |r| <= |s| - 1 && r == s[1..][|s| - 1 - |r|..] && AllSpace(s[1..][..|s| - 1 - |r|])
    ensures r == s[|s| - |r|..] && AllSpace(s[..|s| - |r|])
  {
    var k := |s| - |r|;
    assert s[..k] == [s[0]] + s[1..][..k - 1] && s[1..][k - 1..] == s[k..];
    AllSpaceCons(s[0], s[1..][..k - 1]);
  }

  /** A whitespace character after a whitespace suffix lengthens the suffix by one. */
  lemma SpaceAfter(s: string, r: string)
    requires s != [] && IsSpace(s[|s| - 1])
    requires |r| <= |s| - 1 && r == s[..|s| - 1][..|r|] && AllSpace(s[..|s| - 1][|r|..])
    ensures r == s[..|r|] && AllSpace(s[|r|..])
  {
    var init := s[..|s| - 1];
    assert init[..|r|] == s[..|r|] && s[|r|..] == init[|r|..] + [s[|s| - 1]];
    AllSpaceSnoc(init[|r|..], s[|s| - 1]);
  }

  /** str.lstrip(): s without its leading whitespace. */
  function StripLeft(s: string): (r: string)
    ensures |r| <= |s| && r == s[|s| - |r|..]
    ensures AllSpace(s[..|s| - |r|])
    ensures r == [] || !IsSpace(r[0])
  {
    if s != [] && IsSpace(s[0]) then
      var r := StripLeft(s[1..]);
      SpaceBefore(s, r);
      r
    else
      assert s[..0] == [] && s[0..] == s;
      s
  }

  /** str.rstrip(): s without its trailing whitespace. */
  function StripRight(s: string): (r: string)
    ensures |r| <= |s| && r == s[..|r|]
    ensures AllSpace(s[|r|..])
    ensures r == [] || !IsSpace(r[|r| - 1])
  {
    if s != [] && IsSpace(s[|s| - 1]) then
      var r := StripRight(s[..|s| - 1]);
      SpaceAfter(s, r);
      r
    else
      assert s[|s|..] == [] && s[..|s|] == s;
      s
  }

  /** str.strip(): s without its leading and trailing whitespace. */
  function Strip(s: string): (r: string)
  {
    StripRight(StripLeft(s))
  }

  /** A whitespace prefix of s, then a whitespace suffix of what is left, cut off: a slice of s between whitespace. */
  lemma TrimBounds(s: string, l: string, r: string, i: nat, j: nat)
    requires |l| <= |s| && l == s[|s| - |l|..] && AllSpace(s[..|s| - |l|])
    requires |r| <= |l| && r == l[..|r|] && AllSpace(l[|r|..])
    requires i == |s| - |l| && j == i + |r|
    ensures j <= |s| && r == s[i..j] && AllSpace(s[..i]) && AllSpace(s[j..])
  {
    assert s[j..] == l[|r|..];
  }

  /** The whitespace Strip removes lies before index i and from index j on. */
  lemma StripBounds(s: string) returns (i: nat, j: nat)
    ensures i <= j <= |s| && Strip(s) == s[i..j] && AllSpace(s[..i]) && AllSpace(s[j..])
  {
    var l := StripLeft(s);
    var r := StripRight(l);
    i, j := |s| - |l|, |s| - |l| + |r|;
    TrimBounds(s, l, r, i, j);
    assert Strip(s) == r;
  }

  /** A stripped text neither starts nor ends with whitespace. */
  lemma StripEnds(s: string)
    ensures var r := Strip(s);
      r == [] || (!IsSpace(r[0]) && !IsSpace(r[|r| - 1]))
  {
    var l := StripLeft(s);
    var r := StripRight(l);
    if r != [] {
      assert r[0] == l[0];
    }
  }

  /** Strip removes a whitespace prefix and a whitespace suffix and nothing else. */
  lemma StripSpec(s: string)
    ensures var r := Strip(s);
      exists i, j :: 0 <= i <= j <= |s| && r == s[i..j] && AllSpace(s[..i]) && AllSpace(s[j..])
    ensures var r := Strip(s);
      r == [] || (!IsSpace(r[0]) && !IsSpace(r[|r| - 1]))
  {
    var i, j := StripBounds(s);
    StripEnds(s);
  }

  /** A text that starts and ends with non-whitespace is its own strip. */
  lemma StripNothing(s: string)
    requires s != [] && !IsSpace(s[0]) && !IsSpace(s[|s| - 1])
    ensures Strip(s) == s
  {
    assert StripLeft(s) == s;
  }

  /** The leading run of non-whitespace characters of s. */
  function TakeWord(s: string): (r: string)
    ensures |r| <= |s| && r == s[..|r|] && NoSpace(r)
    ensures |r| == |s| || IsSpace(s[|r|])
  {
    if s == [] || IsSpace(s[0]) then [] else [s[0]] + TakeWord(s[1..])
  }

  /** Words, each non-empty and free of whitespace. */
  predicate AreWords(words: seq<string>)
  {
    forall i :: 0 <= i < |words| ==> words[i] != [] && NoSpace(words[i])
  }

  lemma WordsCons(w: string, rest: seq<string>)
    requires w != [] && NoSpace(w) && AreWords(rest)
    ensures AreWords([w] + rest)
  {
    forall i | 0 <= i < |rest| + 1
      ensures ([w] + rest)[i] != [] && NoSpace(([w] + rest)[i])
    {
      if i > 0 {
        assert ([w] + rest)[i] == rest[i - 1];
      }
    }
  }

  /** str.split(): the maximal runs of non-whitespace characters, in order. */
  function SplitWords(s: string): (r: seq<string>)
    ensures AreWords(r)
    decreases |s|
  {
    var t := StripLeft(s);
    if t == [] then []
    else
      var w := TakeWord(t);
      var rest := SplitWords(t[|w|..]);
      WordsCons(w, rest);
      [w] + rest
  }

  /** Words separated by single spaces. */
  function JoinWords(words: seq<string>): string
  {
    if words == [] then []
    else if |words| == 1 then words[0]
    else words[0] + " " + JoinWords(words[1..])
  }

  /** A text with no leading whitespace starts with the first word of its split. */
  lemma SplitFirst(s: string)
    requires s != [] && !IsSpace(s[0])
    ensures SplitWords(s) != [] && SplitWords(s)[0] == TakeWord(s)
  {
  }

  lemma TakeWordPrefix(w: string, rest: string)
    requires NoSpace(w) && (rest == [] || IsSpace(rest[0]))
    ensures TakeWord(w + rest) == w
  {
    if w != [] {
      assert (w + rest)[1..] == w[1..] + rest;
      TakeWordPrefix(w[1..], rest);
    } else {
      assert w + rest == rest;
    }
  }

  /** Leading whitespace does not change the split. */
  lemma SplitLeadingSpace(rest: string)
    ensures SplitWords(" " + rest) == SplitWords(rest)
  {
    assert (" " + rest)[1..] == rest;
    assert StripLeft(" " + rest) == StripLeft(rest);
  }

  /** A word, a space and more text split into that word, then the split of the rest. */
  lemma SplitAfterWord(w: string, rest: string)
    requires w != [] && NoSpace(w)
    ensures SplitWords(w + " " + rest) == [w] + SplitWords(rest)
  {
    var s := w + " " + rest;
    assert s == w + (" " + rest);
    assert s[0] == w[0];
    assert StripLeft(s) == s;
    TakeWordPrefix(w, " " + rest);
    assert s[|w|..] == " " + rest;
    SplitLeadingSpace(rest);
  }

  /** A single word splits into itself. */
  lemma SplitOneWord(w: string)
    requires w != [] && NoSpace(w)
    ensures SplitWords(w) == [w]
  {
    TakeWordPrefix(w, []);
    assert w + [] == w;
    assert w[0] == w[0];
    assert StripLeft(w) == w;
    assert w[|w|..] == [];
  }

  /** The words after the first are words too. */
  lemma WordsTail(words: seq<string>)
    requires AreWords(words) && words != []
    ensures AreWords(words[1..])
  {
    forall i | 0 <= i < |words| - 1
      ensures words[1..][i] != [] && NoSpace(words[1..][i])
    {
      assert words[1..][i] == words[i + 1];
    }
  }

  /** Joining a word before more words and splitting again yields that word first. */
  lemma SplitJoinCons(w: string, tail: seq<string>)
    requires w != [] && NoSpace(w) && tail != []
    ensures SplitWords(JoinWords([w] + tail)) == [w] + SplitWords(JoinWords(tail))
  {
    var words := [w] + tail;
    assert words[0] == w && words[1..] == tail;
    assert JoinWords(words) == w + " " + JoinWords(tail);
    SplitAfterWord(w, JoinWords(tail));
  }

  /** The inductive step of SplitJoin: a word in front of words that split back. */
  lemma SplitJoinStep(words: seq<string>, w: string, tail: seq<string>)
    requires words == [w] + tail && w != [] && NoSpace(w) && tail != []
    requires SplitWords(JoinWords(tail)) == tail
    ensures SplitWords(JoinWords(words)) == words
  {
    SplitJoinCons(w, tail);
  }

  /** Splitting the join of at most one word gives the words back. */
  lemma SplitJoinShort(words: seq<string>)
    requires AreWords(words) && |words| <= 1
    ensures SplitWords(JoinWords(words)) == words
  {
    if |words| == 1 {
      var w := words[0];
      assert JoinWords(words) == w && [w] == words;
      SplitOneWord(w);
    } else {
      assert JoinWords(words) == [] && words == [];
    }
  }

  /** Splitting words joined by single spaces gives the words back. */
  lemma {:induction false} SplitJoin(words: seq<string>)
    requires AreWords(words)
    ensures SplitWords(JoinWords(words)) == words
  {
    if |words| <= 1 {
      SplitJoinShort(words);
    } else {
      var w, tail := words[0], words[1..];
      assert words == [w] + tail && tail != [];
      WordsTail(words);
      SplitJoin(tail);
      SplitJoinStep(words, w, tail);
    }
  }

  /** str.upper() on one character, giving the string it becomes. */
  function UpperChar(c: char): string
  {
    if 'a' <= c <= 'z' then [(c as int - 32) as char]
    else if c == '\U{DF}' then "SS"
    else if c == '\U{131}' then "I"
    else if c == '\U{17F}' then "S"
    else if c == '\U{FB00}' then "FF"
    else if c == '\U{FB01}' then "FI"
    else if c == '\U{FB02}' then "FL"
    else if c == '\U{FB03}' then "FFI"
    else if c == '\U{FB04}' then "FFL"
    else if c == '\U{FB05}' || c == '\U{FB06}' then "ST"
    else [c]
  }

  /** str.upper(), character by character. */
  function Upper(s: string): string
  {
    if s == [] then [] else UpperChar(s[0]) + Upper(s[1..])
  }

  predicate IsAsciiUpper(s: string)
  {
    forall i :: 0 <= i < |s| ==> !('a' <= s[i] <= 'z') && s[i] as int < 128
  }

  /** Upper-casing leaves a text with no lower-case ASCII letter unchanged. */
  lemma {:induction false} UpperIdempotent(s: string)
    requires IsAsciiUpper(s)
    ensures Upper(s) == s
  {
    if s != [] {
      UpperIdempotent(s[1..]);
      assert s == [s[0]] + s[1..];
    }
  }

  /** Lower-case ASCII letters become their upper-case forms, and only they change among ASCII characters. */
  lemma UpperAscii(c: char)
    requires c as int < 128
    ensures UpperChar(c) == if 'a' <= c <= 'z' then [(c as int - 32) as char] else [c]
    ensures |UpperChar(c)| == 1 && IsAsciiUpper(UpperChar(c))
  {
  }

  predicate IsDigit(c: char)
  {
    '0' <= c <= '9'
  }

  /** Digits with single underscores between them, as int() accepts. */
  predicate DigitGroups(t: string)
  {
    |t| > 0 && IsDigit(t[0]) && IsDigit(t[|t| - 1]) &&
    forall i :: 0 <= i < |t| ==> IsDigit(t[i]) || (t[i] == '_' && i + 1 < |t| && IsDigit(t[i + 1]))
  }

  /** The digits of t, underscores dropped. */
  function DigitsOnly(t: string): string
  {
    if t == [] then [] else (if t[0] == '_' then [] else [t[0]]) + DigitsOnly(t[1..])
  }

  /** The value of a decimal numeral. */
  function DigitsValue(ds: string): nat
  {
    if ds == [] then 0
    else
      var last := ds[|ds| - 1];
      DigitsValue(ds[..|ds| - 1]) * 10 + (if IsDigit(last) then last as int - '0' as int else 0)
  }

  /** int(t) for a word t (no whitespace): an optional sign, then digit groups. */
  function ParseInt(t: string): Option<int>
  {
    var negative := |t| > 0 && t[0] == '-';
    var body := if |t| > 0 && (t[0] == '-' || t[0] == '+') then t[1..] else t;
    if !DigitGroups(body) then None
    else
      var n: int := DigitsValue(DigitsOnly(body));
      Some(if negative then -n else n)
  }

  /** The decimal numeral of n, as str(n) writes it for n >= 0. */
  function Decimal(n: nat): (r: string)
    ensures r != [] && forall i :: 0 <= i < |r| ==> IsDigit(r[i])
  {
    var digit := ('0' as int + n % 10) as char;
    if n < 10 then [digit] else Decimal(n / 10) + [digit]
  }

  /** str(n) for any integer n. */
  function IntText(n: int): string
  {
    if n < 0 then "-" + Decimal(-n) else Decimal(n)
  }

  lemma {:induction false} DecimalValue(n: nat)
    ensures DigitsValue(Decimal(n)) == n
  {
    if n >= 10 {
      DecimalValue(n / 10);
      var r := Decimal(n);
      assert r[..|r| - 1] == Decimal(n / 10);
    }
  }

  lemma {:induction false} DigitsOnlyOfDigits(t: string)
    requires forall i :: 0 <= i < |t| ==> IsDigit(t[i])
    ensures DigitsOnly(t) == t
  {
    if t != [] {
      DigitsOnlyOfDigits(t[1..]);
      assert t == [t[0]] + t[1..];
    }
  }

  lemma DigitsAreGroups(ds: string)
    requires ds != [] && forall i :: 0 <= i < |ds| ==> IsDigit(ds[i])
    ensures DigitGroups(ds)
  {
  }

  /** int(str(n)) == n: every integer's numeral is read back as that integer. */
  lemma ParseIntText(n: int)
    ensures ParseInt(IntText(n)) == Some(n)
  {
    var m := if n < 0 then -n else n;
    var ds := Decimal(m);
    DecimalValue(m);
    DigitsOnlyOfDigits(ds);
    DigitsAreGroups(ds);
    if n < 0 {
      var t := IntText(n);
      assert t == "-" + ds;
      assert t[0] == '-' && t[1..] == ds;
    } else {
      assert IntText(n) == ds && ds[0] != '-' && ds[0] != '+';
    }
  }

  /** A word int() accepts has at least one digit, and only digits, underscores and a leading sign. */
  lemma ParseIntAccepts(t: string)
    requires ParseInt(t).Some?
    ensures exists i :: 0 <= i < |t| && IsDigit(t[i])
    ensures forall i :: 0 <= i < |t| ==> IsDigit(t[i]) || t[i] == '_' || (i == 0 && (t[i] == '-' || t[i] == '+'))
  {
    if t[0] == '-' || t[0] == '+' {
      GroupsChars(t[1..]);
      assert IsDigit(t[1]) by { assert t[1..][0] == t[1]; }
      forall i | 1 <= i < |t|
        ensures IsDigit(t[i]) || t[i] == '_'
      {
        assert t[i] == t[1..][i - 1];
      }
    } else {
      GroupsChars(t);
    }
  }

  lemma GroupsChars(body: string)
    requires DigitGroups(body)
    ensures forall i :: 0 <= i < |body| ==> IsDigit(body[i]) || body[i] == '_'
  {
    forall i | 0 <= i < |body|
      ensures IsDigit(body[i]) || body[i] == '_'
    {
      assert IsDigit(body[i]) || (body[i] == '_' && i + 1 < |body| && IsDigit(body[i + 1]));
    }
  }
}
