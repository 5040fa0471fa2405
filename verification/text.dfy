/** The string operations the pipeline relies on, written out the way Python
    performs them: ASCII lower-casing, `str(int)`, `str.zfill`, `str.split(sep)`,
    `str.strip()` and the whitespace-splitting `str.split()`. */
module Text {
  import opened Wrappers

  // ---------------------------------------------------------------- characters

  predicate IsDigit(c: char) { '0' <= c <= '9' }

  predicate AllDigits(s: string) { forall i :: 0 <= i < |s| ==> IsDigit(s[i]) }

  predicate IsAsciiUpper(c: char) { 'A' <= c <= 'Z' }

  predicate HasAsciiUpper(s: string) { exists i :: 0 <= i < |s| && IsAsciiUpper(s[i]) }

  /** Lower-cases one character; only the ASCII letters A-Z change. */
  function LowerChar(c: char): char {
    if IsAsciiUpper(c) then (c as int + 32) as char else c
  }

  /** `str.lower()` restricted to ASCII letters. */
  function AsciiLower(s: string): (r: string)
    ensures |r| == |s|
    ensures forall i :: 0 <= i < |s| ==> r[i] == LowerChar(s[i])
  {
    seq(|s|, i requires 0 <= i < |s| => LowerChar(s[i]))
  }

  /** Equality of two strings when ASCII case is ignored, character by character. */
  predicate EqualIgnoringCase(a: string, b: string) {
    |a| == |b| && forall i :: 0 <= i < |a| ==> LowerChar(a[i]) == LowerChar(b[i])
  }

  lemma AsciiLowerHasNoUpper(s: string)
    ensures !HasAsciiUpper(AsciiLower(s))
  {
  }

  lemma AsciiLowerKeepsLower(s: string)
    requires !HasAsciiUpper(s)
    ensures AsciiLower(s) == s
  {
  }

  lemma AsciiLowerIdempotent(s: string)
    ensures AsciiLower(AsciiLower(s)) == AsciiLower(s)
  {
    AsciiLowerHasNoUpper(s);
    AsciiLowerKeepsLower(AsciiLower(s));
  }

  // ------------------------------------------------------- decimal numerals

  function DigitChar(d: int): (c: char)
    requires 0 <= d < 10
    ensures IsDigit(c)
  {
    ('0' as int + d) as char
  }

  function DigitValue(c: char): (d: int)
    requires IsDigit(c)
    ensures 0 <= d < 10
  {
    c as int - '0' as int
  }

  function Pow10(k: nat): (p: nat)
    ensures p >= 1
  {
    if k == 0 then 1 else 10 * Pow10(k - 1)
  }

  /** Python's `str(n)` for a non-negative integer: decimal digits, no leading zero. */
  function NatToString(n: nat): (r: string)
    ensures 1 <= |r| && AllDigits(r)
    ensures |r| > 1 ==> r[0] != '0'
    decreases n
  {
    if n < 10 then [DigitChar(n)] else NatToString(n / 10) + [DigitChar(n % 10)]
  }

  /** The value of a string of decimal digits (leading zeros allowed). */
  function ParseNat(s: string): nat
    requires AllDigits(s)
    decreases |s|
  {
    if |s| == 0 then 0 else ParseNat(s[..|s| - 1]) * 10 + DigitValue(s[|s| - 1])
  }

  /** Reading back a rendered natural number gives the number. */
  lemma {:induction false} ParseNatToString(n: nat)
    ensures ParseNat(NatToString(n)) == n
    decreases n
  {
    if n >= 10 {
      var s := NatToString(n);
      assert s[..|s| - 1] == NatToString(n / 10);
      ParseNatToString(n / 10);
    }
  }

  /** A number below 10^w is rendered with at most w digits. */
  lemma {:induction false} NatToStringLength(n: nat, w: nat)
    requires 1 <= w && n < Pow10(w)
    ensures |NatToString(n)| <= w
    decreases n
  {
    if n >= 10 {
      assert Pow10(1) == 10;
      assert w >= 2;
      assert n / 10 < Pow10(w - 1);
      NatToStringLength(n / 10, w - 1);
    }
  }

  /** Python's `str(i)` for any integer. */
  function IntToString(i: int): (r: string)
  {
    if i < 0 then "-" + NatToString(-i) else NatToString(i)
  }

  /** Reads a decimal literal of the shape `IntToString` produces: digits, optionally after one minus sign. */
  function ParseDecimal(s: string): Option<int>
  {
    if 0 < |s| && AllDigits(s) then Some(ParseNat(s) as int)
    else if 1 < |s| && s[0] == '-' && AllDigits(s[1..]) then Some(-(ParseNat(s[1..]) as int))
    else None
  }

  /** `str(i)` can be read back: the decimal rendering of an integer loses nothing. */
  lemma IntToStringRoundTrip(i: int)
    ensures ParseDecimal(IntToString(i)) == Some(i)
  {
    if i < 0 {
      ParseNatToString(-i);
      assert IntToString(i)[1..] == NatToString(-i);
    } else {
      ParseNatToString(i);
    }
  }

  lemma IntToStringShape(i: int)
    ensures i >= 0 ==> AllDigits(IntToString(i)) && 1 <= |IntToString(i)|
    ensures i < 0 ==> 2 <= |IntToString(i)| && IntToString(i)[0] == '-' && AllDigits(IntToString(i)[1..])
  {
    if i < 0 {
      assert IntToString(i)[1..] == NatToString(-i);
    }
  }

  function Zeros(k: nat): (r: string)
    ensures |r| == k
    ensures forall i :: 0 <= i < k ==> r[i] == '0'
  {
    seq(k, _ => '0')
  }

  /** Python's `str.zfill(width)`: pads on the left with zeros up to `width`,
      keeping a leading sign in front of the padding. */
  function ZFill(s: string, width: nat): string
  {
    if |s| >= width then s
    else if 0 < |s| && (s[0] == '+' || s[0] == '-') then [s[0]] + Zeros(width - |s|) + s[1..]
    else Zeros(width - |s|) + s
  }

  /** Leading zeros do not change the value of a numeral. */
  lemma {:induction false} ParseNatLeadingZeros(k: nat, s: string)
    requires AllDigits(s)
    ensures AllDigits(Zeros(k) + s)
    ensures ParseNat(Zeros(k) + s) == ParseNat(s)
    decreases |s| + k
  {
    var z := Zeros(k) + s;
    if |s| == 0 {
      assert z == Zeros(k);
      if k > 0 {
        assert z[..|z| - 1] == Zeros(k - 1) + s;
        ParseNatLeadingZeros(k - 1, s);
      }
    } else {
      assert z[..|z| - 1] == Zeros(k) + s[..|s| - 1];
      ParseNatLeadingZeros(k, s[..|s| - 1]);
    }
  }

  /** Zero-padding a numeral reaches the width asked for and keeps its value. */
  lemma ZFillDigits(s: string, width: nat)
    requires AllDigits(s)
    ensures |ZFill(s, width)| == if |s| >= width then |s| else width
    ensures AllDigits(ZFill(s, width))
    ensures ParseNat(ZFill(s, width)) == ParseNat(s)
  {
    if |s| < width {
      if 0 < |s| {
        assert !(s[0] == '+' || s[0] == '-');
      }
      ParseNatLeadingZeros(width - |s|, s);
    }
  }

  /** The `%0wd` rendering of a natural number (what `date.isoformat` uses for its fields). */
  function PadNat(n: nat, width: nat): string
  {
    ZFill(NatToString(n), width)
  }

  /** A zero-padded number below 10^w has exactly w digits and reads back as itself. */
  lemma PadNatRoundTrip(n: nat, width: nat)
    requires 1 <= width && n < Pow10(width)
    ensures |PadNat(n, width)| == width
    ensures AllDigits(PadNat(n, width))
    ensures ParseNat(PadNat(n, width)) == n
  {
    NatToStringLength(n, width);
    ZFillDigits(NatToString(n), width);
    ParseNatToString(n);
  }

  /** `str(m).zfill(2)`: at least two characters, all digits for a non-negative `m`,
      and for a negative `m` a minus sign followed only by digits. */
  lemma ZFillIntShape(m: int)
    ensures 2 <= |ZFill(IntToString(m), 2)|
    ensures m >= 0 ==> AllDigits(ZFill(IntToString(m), 2))
    ensures m < 0 ==> ZFill(IntToString(m), 2) == IntToString(m)
  {
    IntToStringShape(m);
    if m >= 0 {
      ZFillDigits(IntToString(m), 2);
    }
  }

  // ------------------------------------------------------ splitting on a separator

  /** Python's `s.split(sep)` for a one-character separator: always at least one part. */
  function Split(s: string, sep: char): (parts: seq<string>)
    ensures |parts| >= 1
    decreases |s|
  {
    if |s| == 0 then [""]
    else
      var rest := Split(s[1..], sep);
      if s[0] == sep then [""] + rest else [[s[0]] + rest[0]] + rest[1..]
  }

  /** Python's `sep.join(parts)`. */
  function JoinWith(parts: seq<string>, sep: char): string
    decreases |parts|
  {
    if |parts| == 0 then ""
    else if |parts| == 1 then parts[0]
    else parts[0] + [sep] + JoinWith(parts[1..], sep)
  }

  /** Python's `s.split(sep)[-1]`: what follows the last separator. */
  function LastSegment(s: string, sep: char): string
  {
    var parts := Split(s, sep);
    parts[|parts| - 1]
  }

  /** No part produced by `Split` contains the separator. */
  lemma {:induction false} SplitPartsAvoidSep(s: string, sep: char)
    ensures forall i :: 0 <= i < |Split(s, sep)| ==> sep !in Split(s, sep)[i]
    decreases |s|
  {
    if |s| > 0 {
      SplitPartsAvoidSep(s[1..], sep);
    }
  }

  /** Joining the parts of a split restores the string. */
  lemma {:induction false} SplitJoin(s: string, sep: char)
    ensures JoinWith(Split(s, sep), sep) == s
    decreases |s|
  {
    if |s| > 0 {
      var rest := Split(s[1..], sep);
      SplitJoin(s[1..], sep);
      if s[0] == sep {
        assert Split(s, sep) == [""] + rest;
        assert Split(s, sep)[1..] == rest;
      } else {
        var parts := Split(s, sep);
        assert parts[0] == [s[0]] + rest[0];
        assert parts[1..] == rest[1..];
        if |rest| == 1 {
          assert JoinWith(parts, sep) == [s[0]] + rest[0];
        } else {
          assert JoinWith(rest, sep) == rest[0] + [sep] + JoinWith(rest[1..], sep);
        }
      }
    }
  }

  /** A string without the separator is a single part. */
  lemma {:induction false} SplitWithoutSep(s: string, sep: char)
    requires sep !in s
    ensures Split(s, sep) == [s]
    decreases |s|
  {
    if |s| > 0 {
      assert sep !in s[1..];
      SplitWithoutSep(s[1..], sep);
      assert [s[0]] + s[1..] == s;
    }
  }

  /** One unfolding of `Split` on a string given as first character and rest. */
  lemma SplitCons(c: char, t: string, sep: char)
    ensures Split([c] + t, sep) ==
      if c == sep then [""] + Split(t, sep) else [[c] + Split(t, sep)[0]] + Split(t, sep)[1..]
  {
    assert ([c] + t)[0] == c && ([c] + t)[1..] == t;
  }

  /** A separator in the middle splits the parts of both sides apart. */
  lemma {:induction false} SplitAppendSep(a: string, b: string, sep: char)
    ensures Split(a + [sep] + b, sep) == Split(a, sep) + Split(b, sep)
    decreases |a|
  {
    if |a| == 0 {
      assert a + [sep] + b == [sep] + b;
      SplitCons(sep, b, sep);
    } else {
      var c, a1 := a[0], a[1..];
      assert a + [sep] + b == [c] + (a1 + [sep] + b);
      assert a == [c] + a1;
      SplitAppendSep(a1, b, sep);
      SplitConsAppend(c, a1 + [sep] + b, a1, Split(b, sep), sep);
    }
  }

  lemma ConcatAssoc<T>(x: seq<T>, y: seq<T>, z: seq<T>)
    ensures x + (y + z) == (x + y) + z
  {
  }

  /** The inductive step of `SplitAppendSep`: a character put in front of two strings
      whose parts agree up to a common tail `rb` keeps them agreeing. */
  lemma SplitConsAppend(c: char, t: string, a1: string, rb: seq<string>, sep: char)
    requires Split(t, sep) == Split(a1, sep) + rb
    ensures Split([c] + t, sep) == Split([c] + a1, sep) + rb
  {
    var ra := Split(a1, sep);
    SplitCons(c, t, sep);
    SplitCons(c, a1, sep);
    if c == sep {
      ConcatAssoc([""], ra, rb);
    } else {
      assert (ra + rb)[0] == ra[0];
      assert (ra + rb)[1..] == ra[1..] + rb;
      ConcatAssoc([[c] + ra[0]], ra[1..], rb);
    }
  }

  /** Splitting a join of separator-free parts gives the parts back. */
  lemma {:induction false} JoinSplit(parts: seq<string>, sep: char)
    requires |parts| >= 1
    requires forall i :: 0 <= i < |parts| ==> sep !in parts[i]
    ensures Split(JoinWith(parts, sep), sep) == parts
    decreases |parts|
  {
    if |parts| == 1 {
      SplitWithoutSep(parts[0], sep);
    } else {
      JoinSplit(parts[1..], sep);
      SplitAppendSep(parts[0], JoinWith(parts[1..], sep), sep);
      SplitWithoutSep(parts[0], sep);
      assert [parts[0]] + parts[1..] == parts;
    }
  }

  /** The last segment after a separator-terminated prefix is the separator-free tail. */
  lemma LastSegmentAfterSep(prefix: string, name: string, sep: char)
    requires sep !in name
    ensures LastSegment(prefix + [sep] + name, sep) == name
  {
    SplitAppendSep(prefix, name, sep);
    SplitWithoutSep(name, sep);
  }

  // ------------------------------------------------------------- whitespace

  /** The characters Python's `str.isspace` accepts, which `str.strip()` and `str.split()` remove. */
  predicate IsSpace(c: char) {
    var k := c as int;
    (9 <= k <= 13) || (28 <= k <= 32) || k == 0x85 || k == 0xA0 || k == 0x1680
    || (0x2000 <= k <= 0x200A) || k == 0x2028 || k == 0x2029 || k == 0x202F
    || k == 0x205F || k == 0x3000
  }

  predicate AllSpace(s: string) { forall i :: 0 <= i < |s| ==> IsSpace(s[i]) }

  predicate NoSpace(s: string) { forall i :: 0 <= i < |s| ==> !IsSpace(s[i]) }

  function LStrip(s: string): (r: string)
    ensures |r| <= |s|
    decreases |s|
  {
    if 0 < |s| && IsSpace(s[0]) then LStrip(s[1..]) else s
  }

  function RStrip(s: string): (r: string)
    ensures |r| <= |s|
    decreases |s|
  {
    if 0 < |s| && IsSpace(s[|s| - 1]) then RStrip(s[..|s| - 1]) else s
  }

  /** Python's `str.strip()` with no argument. */
  function Strip(s: string): string
  {
    RStrip(LStrip(s))
  }

  /** Left stripping removes a whitespace prefix and stops at the first other character. */
  lemma {:induction false} LStripSpec(s: string)
    ensures LStrip(s) == s[|s| - |LStrip(s)|..]
    ensures AllSpace(s[..|s| - |LStrip(s)|])
    ensures |LStrip(s)| > 0 ==> !IsSpace(LStrip(s)[0])
    decreases |s|
  {
    if 0 < |s| && IsSpace(s[0]) {
      LStripSpec(s[1..]);
      var k := |s| - |LStrip(s)|;
      assert s[1..][..k - 1] == s[1..k];
      forall i | 0 <= i < k
        ensures IsSpace(s[..k][i])
      {
        if i > 0 {
          assert s[..k][i] == s[1..][..k - 1][i - 1];
        }
      }
    }
  }

  /** Right stripping removes a whitespace suffix and stops at the last other character. */
  lemma {:induction false} RStripSpec(s: string)
    ensures RStrip(s) == s[..|RStrip(s)|]
    ensures AllSpace(s[|RStrip(s)|..])
    ensures |RStrip(s)| > 0 ==> !IsSpace(RStrip(s)[|RStrip(s)| - 1])
    decreases |s|
  {
    if 0 < |s| && IsSpace(s[|s| - 1]) {
      RStripSpec(s[..|s| - 1]);
      var k := |RStrip(s)|;
      forall j | 0 <= j < |s| - k
        ensures IsSpace(s[k..][j])
      {
        if j < |s| - 1 - k {
          assert s[k..][j] == s[..|s| - 1][k..][j];
        }
      }
    }
  }

  /** A line strips to nothing exactly when every character of it is whitespace. */
  lemma StripEmptyIffBlank(s: string)
    ensures |Strip(s)| == 0 <==> AllSpace(s)
  {
    var l := LStrip(s);
    LStripSpec(s);
    RStripSpec(l);
    assert s == s[..|s| - |l|] + l;
    if |Strip(s)| == 0 {
      assert AllSpace(l[0..]);
    }
  }

  /** Stripping leaves a string that neither starts nor ends with whitespace unchanged. */
  lemma StripTrimmed(s: string)
    requires 0 < |s| && !IsSpace(s[0]) && !IsSpace(s[|s| - 1])
    ensures Strip(s) == s
  {
  }

  /** The longest prefix without whitespace. */
  function Word(s: string): (w: string)
    ensures |w| <= |s|
    ensures 0 < |s| && !IsSpace(s[0]) ==> 1 <= |w|
    decreases |s|
  {
    if |s| == 0 || IsSpace(s[0]) then [] else [s[0]] + Word(s[1..])
  }

  /** A word is a whitespace-free prefix followed by whitespace or the end. */
  lemma {:induction false} WordSpec(s: string)
    ensures Word(s) == s[..|Word(s)|] && NoSpace(Word(s))
    ensures |Word(s)| < |s| ==> IsSpace(s[|Word(s)|])
    decreases |s|
  {
    if 0 < |s| && !IsSpace(s[0]) {
      WordSpec(s[1..]);
      var w := Word(s);
      assert w == [s[0]] + Word(s[1..]);
      forall i | 0 <= i < |w|
        ensures !IsSpace(w[i])
      {
        if i > 0 {
          assert w[i] == Word(s[1..])[i - 1];
        }
      }
    }
  }

  /** Python's `str.split()` with no argument: the maximal runs of non-whitespace. */
  function Tokens(s: string): seq<string>
    decreases |s|
  {
    if |s| == 0 then []
    else if IsSpace(s[0]) then Tokens(s[1..])
    else var w := Word(s); [w] + Tokens(s[|w|..])
  }

  /** Every token is non-empty and free of whitespace. */
  lemma {:induction false} TokensAreWords(s: string)
    ensures forall i :: 0 <= i < |Tokens(s)| ==> 0 < |Tokens(s)[i]| && NoSpace(Tokens(s)[i])
    decreases |s|
  {
    if 0 < |s| {
      if IsSpace(s[0]) {
        TokensAreWords(s[1..]);
      } else {
        WordSpec(s);
        TokensAreWords(s[|Word(s)|..]);
      }
    }
  }

  /** Only a blank string has no tokens. */
  lemma {:induction false} TokensEmptyIffBlank(s: string)
    ensures |Tokens(s)| == 0 <==> AllSpace(s)
    decreases |s|
  {
    if 0 < |s| && IsSpace(s[0]) {
      TokensEmptyIffBlank(s[1..]);
      if AllSpace(s[1..]) {
        forall i | 0 <= i < |s| ensures IsSpace(s[i]) {
          if i > 0 { assert s[i] == s[1..][i - 1]; }
        }
      }
    }
  }

  lemma {:induction false} TokensOfBlank(s: string)
    requires AllSpace(s)
    ensures Tokens(s) == []
    decreases |s|
  {
    if 0 < |s| {
      TokensOfBlank(s[1..]);
    }
  }

  /** A word is cut at the first whitespace character. */
  lemma {:induction false} WordStopsAtSpace(a: string, b: string)
    requires 0 < |b| && IsSpace(b[0])
    ensures Word(a + b) == Word(a)
    decreases |a|
  {
    if 0 < |a| && !IsSpace(a[0]) {
      assert (a + b)[1..] == a[1..] + b;
      WordStopsAtSpace(a[1..], b);
    }
  }

  /** Tokens on both sides of a whitespace gap are the tokens of the whole. */
  lemma {:induction false} TokensAcrossSpace(a: string, gap: string, b: string)
    requires 0 < |gap| && AllSpace(gap)
    ensures Tokens(a + gap + b) == Tokens(a) + Tokens(b)
    decreases |a| + |gap|
  {
    var s := a + gap + b;
    if |a| == 0 {
      assert s == gap + b;
      assert s[1..] == gap[1..] + b;
      if |gap| == 1 {
        assert s[1..] == b;
      } else {
        TokensAcrossSpace(a, gap[1..], b);
        assert a + gap[1..] + b == gap[1..] + b;
      }
    } else if IsSpace(a[0]) {
      assert s[1..] == a[1..] + gap + b;
      TokensAcrossSpace(a[1..], gap, b);
    } else {
      assert s == a + (gap + b);
      WordStopsAtSpace(a, gap + b);
      var w := Word(a);
      assert s[|w|..] == a[|w|..] + gap + b;
      TokensAcrossSpace(a[|w|..], gap, b);
    }
  }

  /** Leading whitespace produces no tokens. */
  lemma {:induction false} TokensOfLStrip(s: string)
    ensures Tokens(LStrip(s)) == Tokens(s)
    decreases |s|
  {
    if 0 < |s| && IsSpace(s[0]) {
      TokensOfLStrip(s[1..]);
    }
  }

  /** Trailing whitespace produces no tokens. */
  lemma TokensOfRStrip(s: string)
    ensures Tokens(RStrip(s)) == Tokens(s)
  {
    var r := RStrip(s);
    RStripSpec(s);
    var gap := s[|r|..];
    if 0 < |gap| {
      TokensAcrossSpace(r, gap, "");
      assert r + gap + "" == s;
    }
  }

  /** `str.split()` ignores surrounding whitespace, so stripping first changes nothing. */
  lemma TokensOfStrip(s: string)
    ensures Tokens(Strip(s)) == Tokens(s)
  {
    TokensOfLStrip(s);
    TokensOfRStrip(LStrip(s));
  }

  /** A single word is its own only token. */
  lemma {:induction false} TokensOfWord(w: string)
    requires 0 < |w| && NoSpace(w)
    ensures Tokens(w) == [w]
  {
    WordOfWord(w);
  }

  lemma {:induction false} WordOfWord(w: string)
    requires NoSpace(w)
    ensures Word(w) == w
    decreases |w|
  {
    if 0 < |w| {
      WordOfWord(w[1..]);
    }
  }
}
