/** The pieces of java.lang.String and java.lang.Integer that the registry
    relies on: trim, ASCII case mapping, single-character replace, split with
    a negative limit, join, and decimal printing and parsing of an int. */
module Text {
  import opened Wrappers

  /** String.trim drops every leading and trailing character whose code is at
      most U+0020 (space and all control characters). */
  predicate IsWhite(c: char) { c <= ' ' }

  predicate IsTrimmed(s: string)
  {
    |s| == 0 || (!IsWhite(s[0]) && !IsWhite(s[|s| - 1]))
  }

  predicate AllWhite(s: string)
  {
    forall i :: 0 <= i < |s| ==> IsWhite(s[i])
  }

  function TrimStart(s: string): (r: string)
    ensures |r| <= |s| && r == s[|s| - |r|..]
    ensures |r| == 0 || !IsWhite(r[0])
    ensures AllWhite(s[..|s| - |r|])
    decreases |s|
  {
    if |s| > 0 && IsWhite(s[0]) then
      var r := TrimStart(s[1..]);
      assert s[..|s| - |r|] == [s[0]] + s[1..][..|s| - 1 - |r|];
      r
    else s
  }

  function TrimEnd(s: string): (r: string)
    ensures |r| <= |s| && r == s[..|r|]
    ensures |r| == 0 || !IsWhite(r[|r| - 1])
    ensures AllWhite(s[|r|..])
    decreases |s|
  {
    if |s| > 0 && IsWhite(s[|s| - 1]) then
      var r := TrimEnd(s[..|s| - 1]);
      assert s[|r|..] == s[..|s| - 1][|r|..] + [s[|s| - 1]];
      r
    else s
  }

  /** Java's String.trim(). */
  function Trim(s: string): (r: string)
    ensures IsTrimmed(r)
    ensures IsTrimmed(s) ==> r == s
  {
    var t := TrimStart(s);
    var r := TrimEnd(t);
    assert |r| > 0 ==> r[0] == t[0];
    r
  }

  /** Trim keeps a middle stretch of its input, so it brings in no new character. */
  lemma TrimAvoids(s: string, c: char)
    requires c !in s
    ensures c !in Trim(s)
  {
  }

  /** Trim yields the empty string exactly when every character is white. */
  lemma TrimEmpty(s: string)
    ensures Trim(s) == "" <==> AllWhite(s)
  {
  }

  /** Applies a character mapping to every position of a string. */
  function MapChars(f: char -> char, s: string): (r: string)
    ensures |r| == |s|
    ensures forall i :: 0 <= i < |s| ==> r[i] == f(s[i])
  {
    seq(|s|, i requires 0 <= i < |s| => f(s[i]))
  }

  function LowerChar(c: char): char
  {
    if 'A' <= c <= 'Z' then (c as int + 32) as char else c
  }

  function UpperChar(c: char): char
  {
    if 'a' <= c <= 'z' then (c as int - 32) as char else c
  }

  /** String.toLowerCase, restricted to the ASCII letters. */
  function Lower(s: string): string { MapChars(LowerChar, s) }

  /** String.toUpperCase, restricted to the ASCII letters. */
  function Upper(s: string): string { MapChars(UpperChar, s) }

  /** String.replace with two one-character arguments. */
  function Replace(s: string, from: char, to: char): (r: string)
    ensures from != to ==> from !in r
    ensures forall c :: c in r && c != to ==> c in s
  {
    var r := MapChars(c => if c == from then to else c, s);
    assert forall i :: 0 <= i < |r| ==> r[i] == (if s[i] == from then to else s[i]);
    r
  }

  /** String.split(regex, -1) for a regex that matches exactly the one
      character sep: trailing empty fields are kept, so there is always one
      more field than there are separators. */
  function Split(s: string, sep: char): (parts: seq<string>)
    ensures |parts| >= 1
    ensures forall i :: 0 <= i < |parts| ==> sep !in parts[i]
    decreases |s|
  {
    if |s| == 0 then [""]
    else
      var rest := Split(s[1..], sep);
      if s[0] == sep then [""] + rest
      else [[s[0]] + rest[0]] + rest[1..]
  }

  /** Splitting brings in no new character. */
  lemma {:induction false} SplitAvoids(s: string, sep: char, c: char)
    requires c !in s
    ensures Avoids(Split(s, sep), c)
    decreases |s|
  {
    if |s| > 0 {
      SplitAvoids(s[1..], sep, c);
    }
  }

  /** String.join(sep, parts). */
  function Join(parts: seq<string>, sep: char): string
    decreases |parts|
  {
    if |parts| == 0 then ""
    else if |parts| == 1 then parts[0]
    else parts[0] + [sep] + Join(parts[1..], sep)
  }

  predicate Avoids(parts: seq<string>, c: char)
  {
    forall i :: 0 <= i < |parts| ==> c !in parts[i]
  }

  /** A character that occurs in no part and is not the separator does not
      occur in the joined string. */
  lemma {:induction false} JoinAvoids(parts: seq<string>, sep: char, c: char)
    requires c != sep && Avoids(parts, c)
    ensures c !in Join(parts, sep)
    decreases |parts|
  {
    if |parts| > 1 {
      JoinAvoids(parts[1..], sep, c);
    }
  }

  lemma {:induction false} SplitWithoutSeparator(a: string, sep: char)
    requires sep !in a
    ensures Split(a, sep) == [a]
    decreases |a|
  {
    if |a| > 0 {
      SplitWithoutSeparator(a[1..], sep);
      assert [a[0]] + a[1..] == a;
    }
  }

  lemma {:induction false} SplitAtFirstSeparator(a: string, sep: char, t: string)
    requires sep !in a
    ensures Split(a + [sep] + t, sep) == [a] + Split(t, sep)
    decreases |a|
  {
    var s := a + [sep] + t;
    if |a| == 0 {
      assert s[1..] == t;
    } else {
      assert s[1..] == a[1..] + [sep] + t;
      SplitAtFirstSeparator(a[1..], sep, t);
      assert [a[0]] + a[1..] == a;
    }
  }

  /** Splitting undoes joining when no part holds the separator. */
  lemma {:induction false} SplitJoin(parts: seq<string>, sep: char)
    requires |parts| >= 1 && Avoids(parts, sep)
    ensures Split(Join(parts, sep), sep) == parts
    decreases |parts|
  {
    if |parts| == 1 {
      SplitWithoutSeparator(parts[0], sep);
    } else {
      SplitJoin(parts[1..], sep);
      SplitAtFirstSeparator(parts[0], sep, Join(parts[1..], sep));
      assert [parts[0]] + parts[1..] == parts;
    }
  }

  // ---- decimal integers -------------------------------------------------

  const IntMin: int := -0x8000_0000
  const IntMax: int := 0x7fff_ffff

  /** The values of a Java int. */
  predicate IsInt32(i: int) { IntMin <= i <= IntMax }

  predicate IsDigit(c: char) { '0' <= c <= '9' }

  predicate AllDigits(s: string)
  {
    forall i :: 0 <= i < |s| ==> IsDigit(s[i])
  }

  function DigitChar(d: nat): (c: char)
    requires d < 10
    ensures IsDigit(c)
  {
    ('0' as int + d) as char
  }

  function DigitsValue(s: string): nat
    requires AllDigits(s)
    decreases |s|
  {
    if |s| == 0 then 0
    else DigitsValue(s[..|s| - 1]) * 10 + (s[|s| - 1] as int - '0' as int)
  }

  function NatToString(n: nat): (s: string)
    ensures |s| >= 1 && AllDigits(s)
    decreases n
  {
    if n < 10 then [DigitChar(n)]
    else NatToString(n / 10) + [DigitChar(n % 10)]
  }

  /** Integer.toString: a minus sign for negative values, then the decimal
      digits without leading zeros. */
  function IntToString(i: int): (s: string)
    ensures forall c :: c in s ==> IsDigit(c) || c == '-'
  {
    if i < 0 then "-" + NatToString(-i) else NatToString(i)
  }

  /** Integer.parseInt: an optional sign, then at least one decimal digit,
      with the value inside the int range; anything else is a
      NumberFormatException, modelled as None. */
  function ParseInt(s: string): (r: Option<int>)
    ensures r.Some? ==> IsInt32(r.value)
    ensures r.Some? ==> |s| > 0 && !IsWhite(s[0]) && !IsWhite(s[|s| - 1])
  {
    if |s| == 0 then None
    else
      var signed := s[0] == '-' || s[0] == '+';
      var digits := if signed then s[1..] else s;
      if |digits| == 0 || !AllDigits(digits) then None
      else
        var magnitude: int := DigitsValue(digits);
        var v: int := if s[0] == '-' then -magnitude else magnitude;
        if IsInt32(v) then
          assert digits[|digits| - 1] == s[|s| - 1];
          Some(v)
        else None
  }

  lemma {:induction false} DigitsValueOfNatToString(n: nat)
    ensures DigitsValue(NatToString(n)) == n
    decreases n
  {
    if n >= 10 {
      DigitsValueOfNatToString(n / 10);
      var s := NatToString(n);
      assert s[..|s| - 1] == NatToString(n / 10);
    }
  }

  /** Parsing the printed form of an int gives the int back. */
  lemma ParseIntToString(i: int)
    requires IsInt32(i)
    ensures ParseInt(IntToString(i)) == Some(i)
  {
    var s := IntToString(i);
    if i < 0 {
      DigitsValueOfNatToString(-i);
      assert s[1..] == NatToString(-i);
    } else {
      DigitsValueOfNatToString(i);
    }
  }

  // ---- case and trimming ------------------------------------------------

  /** No ASCII capital letter occurs: what lower-casing produces. */
  predicate NoUpper(s: string)
  {
    forall i :: 0 <= i < |s| ==> !('A' <= s[i] <= 'Z')
  }

  lemma LowerHasNoUpper(s: string)
    ensures NoUpper(Lower(s))
  {
  }

  lemma LowerIdempotent(s: string)
    ensures Lower(Lower(s)) == Lower(s)
  {
  }

  /** Lower-casing forgets any earlier upper-casing. */
  lemma LowerOfUpper(s: string)
    ensures Lower(Upper(s)) == Lower(s)
  {
    var a, b := Lower(Upper(s)), Lower(s);
    assert forall i :: 0 <= i < |s| ==> a[i] == b[i];
  }

  /** Upper-casing forgets any earlier lower-casing. */
  lemma UpperOfLower(s: string)
    ensures Upper(Lower(s)) == Upper(s)
  {
  }

  lemma UpperIdempotent(s: string)
    ensures Upper(Upper(s)) == Upper(s)
  {
  }

  /** A character mapping that sends the separator, and only it, to the
      separator. */
  predicate KeepsSeparator(f: char -> char, sep: char)
  {
    f(sep) == sep && forall c :: c != sep ==> f(c) != sep
  }

  /** Maps every part of a list of strings. */
  function MapParts(f: char -> char, parts: seq<string>): (r: seq<string>)
    ensures |r| == |parts|
    ensures forall i :: 0 <= i < |parts| ==> r[i] == MapChars(f, parts[i])
  {
    seq(|parts|, i requires 0 <= i < |parts| => MapChars(f, parts[i]))
  }

  lemma MapCharsCons(f: char -> char, c: char, s: string)
    ensures MapChars(f, [c] + s) == [f(c)] + MapChars(f, s)
  {
  }

  lemma MapPartsCons(f: char -> char, x: string, rest: seq<string>)
    ensures MapParts(f, [x] + rest) == [MapChars(f, x)] + MapParts(f, rest)
  {
  }

  lemma MapPartsTail(f: char -> char, parts: seq<string>)
    requires |parts| > 0
    ensures MapParts(f, parts)[1..] == MapParts(f, parts[1..])
  {
  }

  /** Splitting commutes with a mapping that keeps the separator apart:
      the fields of the mapped string are the mapped fields. */
  lemma {:induction false} SplitCommutes(f: char -> char, s: string, sep: char)
    requires KeepsSeparator(f, sep)
    ensures Split(MapChars(f, s), sep) == MapParts(f, Split(s, sep))
    decreases |s|
  {
    if |s| == 0 {
      assert MapChars(f, s) == "";
    } else {
      var c, tail := s[0], s[1..];
      assert s == [c] + tail;
      MapCharsCons(f, c, tail);
      SplitCommutes(f, tail, sep);
      var rest := Split(tail, sep);
      SplitCons(f(c), MapChars(f, tail), sep);
      if c == sep {
        MapPartsCons(f, "", rest);
        assert MapChars(f, "") == "";
      } else {
        MapCharsCons(f, c, rest[0]);
        MapPartsTail(f, rest);
        MapPartsCons(f, [c] + rest[0], rest[1..]);
      }
    }
  }

  /** Split of a string with a known first character. */
  lemma SplitCons(c: char, t: string, sep: char)
    ensures Split([c] + t, sep) ==
      if c == sep then [""] + Split(t, sep)
      else [[c] + Split(t, sep)[0]] + Split(t, sep)[1..]
  {
    var s := [c] + t;
    assert s[0] == c && s[1..] == t;
  }

  predicate KeepsWhite(f: char -> char)
  {
    forall c :: IsWhite(f(c)) == IsWhite(c)
  }

  lemma {:induction false} TrimStartCommutes(f: char -> char, s: string)
    requires KeepsWhite(f)
    ensures TrimStart(MapChars(f, s)) == MapChars(f, TrimStart(s))
    decreases |s|
  {
    if |s| > 0 {
      assert MapChars(f, s)[1..] == MapChars(f, s[1..]);
      TrimStartCommutes(f, s[1..]);
    }
  }

  lemma {:induction false} TrimEndCommutes(f: char -> char, s: string)
    requires KeepsWhite(f)
    ensures TrimEnd(MapChars(f, s)) == MapChars(f, TrimEnd(s))
    decreases |s|
  {
    if |s| > 0 {
      assert MapChars(f, s)[..|s| - 1] == MapChars(f, s[..|s| - 1]);
      TrimEndCommutes(f, s[..|s| - 1]);
    }
  }

  /** Trimming and a whitespace-preserving character mapping commute. */
  lemma TrimCommutes(f: char -> char, s: string)
    requires KeepsWhite(f)
    ensures Trim(MapChars(f, s)) == MapChars(f, Trim(s))
  {
    TrimStartCommutes(f, s);
    TrimEndCommutes(f, TrimStart(s));
  }

  /** Case mapping leaves a trimmed string trimmed. */
  lemma LowerKeepsTrimmed(s: string)
    requires IsTrimmed(s)
    ensures IsTrimmed(Lower(s))
  {
  }
}
