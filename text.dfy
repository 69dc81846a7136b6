/** The text the programs write: lines ended by a newline, comma-separated
    fields, and the `printf` renderings `%d` of an integer and `%.Nf` of a
    number already rounded to N decimals.  Strings are sequences of
    characters; the C locale is assumed (the decimal point is '.'). */
module Text {

  /** The pieces of s between occurrences of sep, empty pieces included: a
      string with k separators has k + 1 pieces. */
  function Split(s: string, sep: char): (ps: seq<string>)
    ensures |ps| >= 1
    ensures forall k :: 0 <= k < |ps| ==> sep !in ps[k]
    decreases |s|
  {
    if |s| == 0 then [""]
    else
      var rest := Split(s[1..], sep);
      if s[0] == sep then [""] + rest
      else [[s[0]] + rest[0]] + rest[1..]
  }

  /** The pieces with sep between every two of them. */
  function Join(ps: seq<string>, sep: char): string
    requires |ps| >= 1
  {
    if |ps| == 1 then ps[0] else ps[0] + [sep] + Join(ps[1..], sep)
  }

  /** Splitting at the first separator: the piece before it comes first. */
  lemma {:induction false} SplitAtFirst(f: string, rest: string, sep: char)
    requires sep !in f
    ensures Split(f + [sep] + rest, sep) == [f] + Split(rest, sep)
    decreases |f|
  {
    var s := f + [sep] + rest;
    if |f| == 0 {
      assert s == [sep] + rest;
      assert s[1..] == rest;
    } else {
      assert s[0] == f[0];
      assert s[1..] == f[1..] + [sep] + rest;
      SplitAtFirst(f[1..], rest, sep);
      assert [s[0]] + f[1..] == f;
    }
  }

  /** A string without the separator is a single piece. */
  lemma {:induction false} SplitNone(f: string, sep: char)
    requires sep !in f
    ensures Split(f, sep) == [f]
    decreases |f|
  {
    if |f| > 0 {
      SplitNone(f[1..], sep);
      assert [f[0]] + f[1..] == f;
    }
  }

  /** Splitting undoes joining, as long as no piece holds the separator. */
  lemma {:induction false} SplitJoin(ps: seq<string>, sep: char)
    requires |ps| >= 1 && forall k :: 0 <= k < |ps| ==> sep !in ps[k]
    ensures Split(Join(ps, sep), sep) == ps
    decreases |ps|
  {
    if |ps| == 1 {
      SplitNone(ps[0], sep);
    } else {
      SplitJoin(ps[1..], sep);
      SplitAtFirst(ps[0], Join(ps[1..], sep), sep);
      assert [ps[0]] + ps[1..] == ps;
    }
  }

  /** A character that is neither the separator nor in any piece is not in
      the joined text. */
  lemma {:induction false} JoinAvoids(ps: seq<string>, sep: char, c: char)
    requires |ps| >= 1 && c != sep
    requires forall k :: 0 <= k < |ps| ==> c !in ps[k]
    ensures c !in Join(ps, sep)
    decreases |ps|
  {
    if |ps| > 1 {
      JoinAvoids(ps[1..], sep, c);
      assert ps[0] + [sep] + Join(ps[1..], sep) == Join(ps, sep);
    }
  }

  /** Joining undoes splitting: no character is lost or added. */
  lemma {:induction false} JoinSplit(s: string, sep: char)
    ensures Join(Split(s, sep), sep) == s
    decreases |s|
  {
    if |s| > 0 {
      JoinSplit(s[1..], sep);
      var rest := Split(s[1..], sep);
      if s[0] == sep {
        assert ([""] + rest)[1..] == rest;
      } else {
        var ps := [[s[0]] + rest[0]] + rest[1..];
        assert ps[1..] == rest[1..];
        if |rest| > 1 {
          assert Join(rest, sep) == rest[0] + [sep] + Join(rest[1..], sep);
        }
      }
      assert s == [s[0]] + s[1..];
    }
  }

  /** The number of occurrences of c in s. */
  function Count(c: char, s: string): nat
  {
    if |s| == 0 then 0 else (if s[0] == c then 1 else 0) + Count(c, s[1..])
  }

  /** A string has one piece more than it has separators. */
  lemma {:induction false} SplitCount(s: string, sep: char)
    ensures |Split(s, sep)| == Count(sep, s) + 1
    decreases |s|
  {
    if |s| > 0 {
      SplitCount(s[1..], sep);
    }
  }

  lemma {:induction false} CountAppend(c: char, a: string, b: string)
    ensures Count(c, a + b) == Count(c, a) + Count(c, b)
    decreases |a|
  {
    if |a| > 0 {
      assert (a + b)[1..] == a[1..] + b;
      CountAppend(c, a[1..], b);
    } else {
      assert a + b == b;
    }
  }

  /** c occurs in s exactly when it is counted. */
  lemma {:induction false} CountZero(c: char, s: string)
    ensures Count(c, s) == 0 <==> c !in s
    decreases |s|
  {
    if |s| > 0 {
      CountZero(c, s[1..]);
      assert s == [s[0]] + s[1..];
    }
  }

  /** Joining adds one separator between every two pieces, on top of those
      inside piece k (and of the others). */
  lemma {:induction false} CountJoin(ps: seq<string>, sep: char, k: nat)
    requires |ps| >= 1 && k < |ps|
    ensures Count(sep, Join(ps, sep)) >= |ps| - 1 + Count(sep, ps[k])
    decreases |ps|
  {
    if |ps| > 1 {
      var rest := Join(ps[1..], sep);
      CountAppend(sep, ps[0] + [sep], rest);
      CountAppend(sep, ps[0], [sep]);
      assert Count(sep, [sep]) == 1;
      if k == 0 {
        CountJoin(ps[1..], sep, 0);
      } else {
        CountJoin(ps[1..], sep, k - 1);
      }
    }
  }

  /** Every line followed by a newline, as successive `fprintf` calls whose
      format ends in "\n" write them. */
  function Unlines(ls: seq<string>): string
  {
    if |ls| == 0 then "" else ls[0] + "\n" + Unlines(ls[1..])
  }

  /** Writing the lines of a after those of b is writing a + b. */
  lemma {:induction false} UnlinesAppend(a: seq<string>, b: seq<string>)
    ensures Unlines(a + b) == Unlines(a) + Unlines(b)
    decreases |a|
  {
    if |a| > 0 {
      assert (a + b)[1..] == a[1..] + b;
      UnlinesAppend(a[1..], b);
    } else {
      assert a + b == b;
    }
  }

  /** Lines without a newline of their own are read back by splitting at
      the newlines; the text after the last newline is empty. */
  lemma {:induction false} SplitUnlines(ls: seq<string>)
    requires forall k :: 0 <= k < |ls| ==> '\n' !in ls[k]
    ensures Split(Unlines(ls), '\n') == ls + [""]
    decreases |ls|
  {
    if |ls| == 0 {
      assert Unlines(ls) == "";
    } else {
      SplitUnlines(ls[1..]);
      SplitAtFirst(ls[0], Unlines(ls[1..]), '\n');
      assert ls[0] + "\n" + Unlines(ls[1..]) == ls[0] + ['\n'] + Unlines(ls[1..]);
      assert [ls[0]] + (ls[1..] + [""]) == ls + [""];
    }
  }

  predicate IsDigit(c: char) { '0' <= c <= '9' }

  predicate AllDigits(s: string) { forall k :: 0 <= k < |s| ==> IsDigit(s[k]) }

  function DigitChar(d: nat): (c: char)
    requires d < 10
    ensures IsDigit(c)
  {
    ('0' as int + d) as char
  }

  /** The value of a digit; other characters, which no rendering holds,
      count as 0. */
  function DigitValue(c: char): (d: nat)
    ensures d < 10
  {
    if IsDigit(c) then c as int - '0' as int else 0
  }

  /** The decimal digits of n, without leading zeros. */
  function NatString(n: nat): (s: string)
    ensures |s| >= 1 && AllDigits(s)
  {
    if n < 10 then [DigitChar(n)] else NatString(n / 10) + [DigitChar(n % 10)]
  }

  /** The value of a string of decimal digits (0 for the empty string). */
  function ParseNat(s: string): nat
  {
    if |s| == 0 then 0 else ParseNat(s[..|s| - 1]) * 10 + DigitValue(s[|s| - 1])
  }

  /** Reading the digits of n gives n back. */
  lemma {:induction false} ParseNatString(n: nat)
    ensures ParseNat(NatString(n)) == n
  {
    var s := NatString(n);
    if n >= 10 {
      ParseNatString(n / 10);
      assert s[..|s| - 1] == NatString(n / 10);
    }
  }

  /** The characters of a `%d` or `%.Nf` rendering. */
  predicate NumberChars(s: string) {
    forall k :: 0 <= k < |s| ==> IsDigit(s[k]) || s[k] == '-' || s[k] == '.'
  }

  /** A rendering holds neither a comma nor a newline, so it is one CSV
      field of one line. */
  lemma NumberCharsPlain(s: string)
    requires NumberChars(s)
    ensures ',' !in s && '\n' !in s
  {
  }

  /** `%d`: a minus sign for negative values, then the digits; a single
      CSV field. */
  function IntString(n: int): (s: string)
    ensures |s| >= 1 && NumberChars(s)
    ensures ',' !in s && '\n' !in s
  {
    var s := if n < 0 then "-" + NatString(-n) else NatString(n);
    NumberCharsPlain(s);
    s
  }

  /** The value of an optionally signed string of digits. */
  function ParseInt(s: string): int
  {
    if |s| > 0 && s[0] == '-' then -(ParseNat(s[1..]) as int) else ParseNat(s)
  }

  /** Reading the rendering of n gives n back. */
  lemma IntStringRoundTrip(n: int)
    ensures ParseInt(IntString(n)) == n
  {
    if n < 0 {
      ParseNatString(-n);
      assert IntString(n)[1..] == NatString(-n);
    } else {
      ParseNatString(n);
    }
  }

  function Pow10(k: nat): (p: nat)
    ensures p >= 1
  {
    if k == 0 then 1 else 10 * Pow10(k - 1)
  }

  /** v written with exactly w digits, leading zeros included. */
  function PadDigits(v: nat, w: nat): (s: string)
    ensures |s| == w && AllDigits(s)
  {
    if w == 0 then "" else PadDigits(v / 10, w - 1) + [DigitChar(v % 10)]
  }

  /** Reading the w digits back gives v, when v has at most w digits. */
  lemma {:induction false} ParsePadDigits(v: nat, w: nat)
    requires v < Pow10(w)
    ensures ParseNat(PadDigits(v, w)) == v
  {
    if w > 0 {
      var s := PadDigits(v, w);
      assert v / 10 < Pow10(w - 1);
      ParsePadDigits(v / 10, w - 1);
      assert s[..|s| - 1] == PadDigits(v / 10, w - 1);
    }
  }

  /** A number with k digits is below 10^k. */
  lemma {:induction false} NatStringBound(n: nat)
    ensures n < Pow10(|NatString(n)|)
  {
    if n >= 10 {
      NatStringBound(n / 10);
    }
  }

  lemma {:induction false} Pow10Monotone(a: nat, b: nat)
    requires a <= b
    ensures Pow10(a) <= Pow10(b)
    decreases b
  {
    if a < b {
      Pow10Monotone(a, b - 1);
    }
  }

  /** The digits `%.Nf` prints for a magnitude of m units of 10^-N: those of
      m, with leading zeros up to N + 1 digits, so that the integer part is
      never empty. */
  function FixedDigits(m: nat, places: nat): (t: string)
    ensures |t| > places && AllDigits(t)
  {
    var len := |NatString(m)|;
    PadDigits(m, if len > places then len else places + 1)
  }

  lemma FixedDigitsValue(m: nat, places: nat)
    ensures ParseNat(FixedDigits(m, places)) == m
  {
    var len := |NatString(m)|;
    var w := if len > places then len else places + 1;
    NatStringBound(m);
    Pow10Monotone(len, w);
    ParsePadDigits(m, w);
  }

  /** `%.Nf` of a number already rounded to N = places decimals, given as a
      whole number of units of 10^-N: a minus sign for negative values, the
      integer part, then a point and exactly N digits (no point at all for
      N = 0). */
  function FixedString(units: int, places: nat): (s: string)
    ensures NumberChars(s)
    ensures ',' !in s && '\n' !in s
  {
    var t := FixedDigits(if units < 0 then -units else units, places);
    var sign := if units < 0 then "-" else "";
    PointedChars(t, places);
    NumberCharsConcat(sign, Pointed(t, places));
    NumberCharsPlain(sign + Pointed(t, places));
    sign + Pointed(t, places)
  }

  /** The digits t with a point put before the last `places` of them. */
  function Pointed(t: string, places: nat): string
    requires |t| > places
  {
    if places == 0 then t else t[..|t| - places] + "." + t[|t| - places..]
  }

  lemma PointedChars(t: string, places: nat)
    requires |t| > places && AllDigits(t)
    ensures NumberChars(Pointed(t, places))
  {
    if places > 0 {
      var k := |t| - places;
      NumberCharsConcat(t[..k], ".");
      NumberCharsConcat(t[..k] + ".", t[k..]);
    }
  }

  lemma NumberCharsConcat(a: string, b: string)
    requires NumberChars(a) && NumberChars(b)
    ensures NumberChars(a + b)
  {
  }

  /** The sign and digits of a rendering with the point (if any) removed;
      `None` when the text does not have the shape of a `%.Nf` rendering. */
  function FixedParts(s: string, places: nat): (r: (bool, string))
  {
    var neg := |s| > 0 && s[0] == '-';
    var d := if neg then s[1..] else s;
    if places == 0 || |d| <= places then (neg, d)
    else (neg, d[..|d| - places - 1] + d[|d| - places..])
  }

  /** The value of a `%.Nf` rendering in units of 10^-N: the digits with the
      point taken out, read as one number, with the sign applied. */
  function ParseFixed(s: string, places: nat): int
  {
    var (neg, digits) := FixedParts(s, places);
    if neg then -(ParseNat(digits) as int) else ParseNat(digits)
  }

  /** Taking the point back out of `Pointed(t, places)` gives t. */
  lemma PointedParts(t: string, places: nat)
    requires |t| > places
    ensures var d := Pointed(t, places);
            |d| == |t| + (if places > 0 then 1 else 0)
            && (places > 0 ==> d[|d| - places - 1] == '.'
                               && d[..|d| - places - 1] + d[|d| - places..] == t)
  {
    if places > 0 {
      var d := Pointed(t, places);
      assert d[..|d| - places - 1] == t[..|t| - places];
      assert d[|d| - places..] == t[|t| - places..];
    }
  }

  /** A signed pointed digit string splits back into its sign and digits. */
  lemma SignedParts(neg: bool, t: string, places: nat)
    requires |t| > places && AllDigits(t)
    ensures var d := Pointed(t, places);
            var s := (if neg then "-" else "") + d;
            FixedParts(s, places) == (neg, t)
            && (places > 0 ==> s[|s| - places - 1] == '.')
  {
    var d := Pointed(t, places);
    var s := (if neg then "-" else "") + d;
    PointedParts(t, places);
    if neg {
      assert s[1..] == d;
    } else {
      assert s == d;
      assert s[0] == t[0];
    }
  }

  /** The rendering is the sign followed by the digits of the magnitude,
      with the point put N characters before the end. */
  lemma FixedStringShape(units: int, places: nat)
    ensures var t := FixedDigits(if units < 0 then -units else units, places);
            var s := FixedString(units, places);
            FixedParts(s, places) == (units < 0, t)
            && (places > 0 ==> s[|s| - places - 1] == '.')
  {
    var t := FixedDigits(if units < 0 then -units else units, places);
    SignedParts(units < 0, t, places);
  }

  /** A rendering has its point exactly N characters before the end, and
      reading it back gives the rounded value. */
  lemma FixedStringRoundTrip(units: int, places: nat)
    ensures var s := FixedString(units, places);
            (places > 0 ==> |s| > places && s[|s| - places - 1] == '.')
            && ParseFixed(s, places) == units
  {
    FixedStringShape(units, places);
    FixedDigitsValue(if units < 0 then -units else units, places);
  }
}
