/**
 * The parts of java.lang.String the core relies on, written out: indexOf,
 * split with a one-character separator, trim, ASCII case mapping,
 * startsWith, contains, decimal rendering and Long.parseLong.
 */
module Strings {
  import opened Wrappers

  /** `s.indexOf(c)`: the first position of `c` in `s`, or -1. */
  function IndexOf(s: string, c: char): (i: int)
    ensures -1 <= i < |s|
    ensures i == -1 <==> c !in s
    ensures 0 <= i ==> s[i] == c && c !in s[..i]
    ensures forall j :: 0 <= j < i ==> s[j] != c
  {
    if |s| == 0 then -1
    else if s[0] == c then 0
    else
      var j := IndexOf(s[1..], c);
      assert s[1..][..j + 1] == s[1..j + 2] by { }
      if j == -1 then -1 else j + 1
  }

  /** A separator placed after a separator-free prefix is found at the end of that prefix. */
  lemma IndexOfAfterPrefix(a: string, c: char, b: string)
    requires c !in a
    ensures IndexOf(a + [c] + b, c) == |a|
  {
    var s := a + [c] + b;
    var i := IndexOf(s, c);
    assert s[|a|] == c;
    assert forall j :: 0 <= j < |a| ==> s[j] == a[j];
    assert i >= |a|;
  }

  /** Every piece of `s` between occurrences of `sep`, empty pieces included. */
  function Pieces(s: string, sep: char): (r: seq<string>)
    ensures |r| >= 1
    ensures forall k :: 0 <= k < |r| ==> sep !in r[k]
    decreases |s|
  {
    var i := IndexOf(s, sep);
    if i == -1 then [s] else [s[..i]] + Pieces(s[i + 1..], sep)
  }

  /** `String.join` with a one-character delimiter. */
  function Join(ps: seq<string>, sep: char): string
  {
    if |ps| == 0 then ""
    else if |ps| == 1 then ps[0]
    else ps[0] + [sep] + Join(ps[1..], sep)
  }

  /** One step of `Pieces`: the text before the first separator, then the pieces of the rest. */
  lemma PiecesStep(s: string, sep: char)
    requires sep in s
    ensures Pieces(s, sep) == [s[..IndexOf(s, sep)]] + Pieces(s[IndexOf(s, sep) + 1..], sep)
  {
  }

  /** One step of `Join` on at least two pieces. */
  lemma JoinStep(a: string, rest: seq<string>, sep: char)
    requires |rest| >= 1
    ensures Join([a] + rest, sep) == a + [sep] + Join(rest, sep)
  {
    assert ([a] + rest)[1..] == rest;
  }

  /** A string is the text before position `i`, the character at `i`, and the text after it. */
  lemma SliceAround(s: string, i: nat)
    requires i < |s|
    ensures s == s[..i] + [s[i]] + s[i + 1..]
  {
  }

  /** Joining the pieces again gives back the string. */
  lemma {:induction false} JoinPieces(s: string, sep: char)
    ensures Join(Pieces(s, sep), sep) == s
    decreases |s|
  {
    var i := IndexOf(s, sep);
    if i != -1 {
      var tail := s[i + 1..];
      JoinPieces(tail, sep);
      PiecesStep(s, sep);
      JoinStep(s[..i], Pieces(tail, sep), sep);
      SliceAround(s, i);
    }
  }

  /** Splitting a join of separator-free pieces gives back the pieces. */
  lemma {:induction false} PiecesJoin(ps: seq<string>, sep: char)
    requires |ps| >= 1
    requires forall k :: 0 <= k < |ps| ==> sep !in ps[k]
    ensures Pieces(Join(ps, sep), sep) == ps
  {
    if |ps| > 1 {
      var tail := ps[1..];
      assert forall k :: 0 <= k < |tail| ==> sep !in tail[k] by {
        forall k | 0 <= k < |tail| ensures sep !in tail[k] { assert tail[k] == ps[k + 1]; }
      }
      var rest := Join(tail, sep);
      var s := ps[0] + [sep] + rest;
      assert Join(ps, sep) == s;
      IndexOfAfterPrefix(ps[0], sep, rest);
      assert s[..|ps[0]|] == ps[0];
      assert s[|ps[0]| + 1..] == rest;
      PiecesJoin(tail, sep);
      assert Pieces(s, sep) == [ps[0]] + tail;
      assert ps == [ps[0]] + tail;
    }
  }

  /** Removes the empty strings at the end of a list of pieces. */
  function DropTrailingEmpty(ps: seq<string>): (r: seq<string>)
    ensures |r| <= |ps| && r == ps[..|r|]
    ensures forall k :: |r| <= k < |ps| ==> ps[k] == ""
    ensures r == [] || r[|r| - 1] != ""
  {
    if |ps| == 0 || ps[|ps| - 1] != "" then ps else DropTrailingEmpty(ps[..|ps| - 1])
  }

  /**
   * `s.split(sep)` for a separator that is not a regular-expression
   * metacharacter: without a match the result is `[s]` (even for ""),
   * otherwise the pieces with the trailing empty ones removed.
   */
  function Split(s: string, sep: char): (r: seq<string>)
    ensures sep !in s ==> r == [s]
    ensures |r| <= |Pieces(s, sep)| && r == Pieces(s, sep)[..|r|]
    ensures forall k :: |r| <= k < |Pieces(s, sep)| ==> Pieces(s, sep)[k] == ""
    ensures sep in s ==> r == [] || r[|r| - 1] != ""
    ensures forall k :: 0 <= k < |r| ==> sep !in r[k]
  {
    if sep !in s then [s] else DropTrailingEmpty(Pieces(s, sep))
  }

  /** Splitting a join of separator-free pieces whose last piece is not empty gives back the pieces. */
  lemma SplitJoin(ps: seq<string>, sep: char)
    requires |ps| >= 1 && ps[|ps| - 1] != ""
    requires forall k :: 0 <= k < |ps| ==> sep !in ps[k]
    ensures Split(Join(ps, sep), sep) == ps
  {
    PiecesJoin(ps, sep);
    var s := Join(ps, sep);
    if |ps| > 1 {
      assert s == ps[0] + [sep] + Join(ps[1..], sep);
      assert s[|ps[0]|] == sep;
      assert DropTrailingEmpty(ps) == ps;
    }
  }

  /** The characters `String.trim` removes: every code point up to and including the space. */
  predicate IsTrimmed(c: char)
  {
    c <= ' '
  }

  /** How many trimmed characters `s` starts with. */
  function LeadingTrimmed(s: string): (n: nat)
    ensures n <= |s|
    ensures forall i :: 0 <= i < n ==> IsTrimmed(s[i])
    ensures n < |s| ==> !IsTrimmed(s[n])
  {
    if |s| > 0 && IsTrimmed(s[0]) then 1 + LeadingTrimmed(s[1..]) else 0
  }

  /** The length of `s` once its trailing run of trimmed characters is cut off. */
  function TrailingCut(s: string): (n: nat)
    ensures n <= |s|
    ensures forall i :: n <= i < |s| ==> IsTrimmed(s[i])
    ensures n > 0 ==> !IsTrimmed(s[n - 1])
  {
    if |s| > 0 && IsTrimmed(s[|s| - 1]) then TrailingCut(s[..|s| - 1]) else |s|
  }

  /** A string that neither starts nor ends with a trimmed character. */
  predicate IsTrim(t: string)
  {
    t == [] || (!IsTrimmed(t[0]) && !IsTrimmed(t[|t| - 1]))
  }

  /** `s.trim()`: the text between the leading and the trailing run of trimmed characters. */
  function Trim(s: string): (r: string)
    ensures |r| <= |s|
    ensures IsTrim(r)
  {
    var lo := LeadingTrimmed(s);
    if lo == |s| then "" else s[lo..TrailingCut(s)]
  }

  /** Trimming removes exactly the surrounding runs of trimmed characters and nothing else. */
  lemma TrimPadded(pre: string, t: string, post: string)
    requires forall i :: 0 <= i < |pre| ==> IsTrimmed(pre[i])
    requires forall i :: 0 <= i < |post| ==> IsTrimmed(post[i])
    requires IsTrim(t)
    ensures Trim(pre + t + post) == t
  {
    var s := pre + t + post;
    var lo := LeadingTrimmed(s);
    var hi := TrailingCut(s);
    if t == [] {
      assert forall i :: 0 <= i < |s| ==> IsTrimmed(s[i]) by {
        assert s == pre + post;
      }
      assert lo == |s|;
    } else {
      assert s[|pre|] == t[0];
      assert s[|pre| + |t| - 1] == t[|t| - 1];
      assert lo == |pre|;
      assert hi == |pre| + |t|;
      assert s[lo..hi] == t;
    }
  }

  /** A string made only of trimmed characters trims to "". */
  lemma AllTrimmed(s: string)
    requires forall i :: 0 <= i < |s| ==> IsTrimmed(s[i])
    ensures Trim(s) == ""
  {
    assert LeadingTrimmed(s) == |s|;
  }

  /** A string that is already trimmed is left as it is. */
  lemma TrimFixed(t: string)
    requires IsTrim(t)
    ensures Trim(t) == t
  {
    TrimPadded("", t, "");
    assert "" + t + "" == t;
  }

  /** Trimming twice is trimming once. */
  lemma TrimIdempotent(s: string)
    ensures Trim(Trim(s)) == Trim(s)
  {
    TrimPadded("", Trim(s), "");
    assert "" + Trim(s) + "" == Trim(s);
  }

  /** `Character.toUpperCase` restricted to ASCII letters. */
  function UpperChar(c: char): char
  {
    if 'a' <= c <= 'z' then (c as int - 32) as char else c
  }

  /** `Character.toLowerCase` restricted to ASCII letters. */
  function LowerChar(c: char): char
  {
    if 'A' <= c <= 'Z' then (c as int + 32) as char else c
  }

  /** `s.toUpperCase()` on ASCII letters. */
  function ToUpper(s: string): (r: string)
    ensures |r| == |s|
    ensures forall i :: 0 <= i < |s| ==> r[i] == UpperChar(s[i])
  {
    if |s| == 0 then [] else [UpperChar(s[0])] + ToUpper(s[1..])
  }

  /** `ToUpper(s)` is `t` when `t` is `s` upper-cased character by character. */
  lemma ToUpperIs(s: string, t: string)
    requires |s| == |t|
    requires forall i :: 0 <= i < |s| ==> UpperChar(s[i]) == t[i]
    ensures ToUpper(s) == t
  {
  }

  /** `ToLower(s)` is `t` when `t` is `s` lower-cased character by character. */
  lemma ToLowerIs(s: string, t: string)
    requires |s| == |t|
    requires forall i :: 0 <= i < |s| ==> LowerChar(s[i]) == t[i]
    ensures ToLower(s) == t
  {
  }

  /** `s.toLowerCase()` on ASCII letters. */
  function ToLower(s: string): (r: string)
    ensures |r| == |s|
    ensures forall i :: 0 <= i < |s| ==> r[i] == LowerChar(s[i])
  {
    if |s| == 0 then [] else [LowerChar(s[0])] + ToLower(s[1..])
  }

  /** `a.equalsIgnoreCase(b)` for a non-null `b`, on ASCII letters. */
  predicate EqualsIgnoreCase(a: string, b: string)
  {
    ToUpper(a) == ToUpper(b)
  }

  /** `s.startsWith(p)`. */
  predicate StartsWith(s: string, p: string)
  {
    |p| <= |s| && s[..|p|] == p
  }

  /** `s.contains(t)`: `t` occurs somewhere in `s`. */
  predicate Contains(s: string, t: string)
    decreases |s|
  {
    StartsWith(s, t) || (|s| > 0 && Contains(s[1..], t))
  }

  /** `Contains` holds exactly when `t` occurs at some position of `s`. */
  lemma {:induction false} ContainsAt(s: string, t: string, k: nat)
    requires k + |t| <= |s| && s[k..k + |t|] == t
    ensures Contains(s, t)
    decreases k
  {
    if k > 0 {
      assert s[1..][k - 1..k - 1 + |t|] == s[k..k + |t|];
      ContainsAt(s[1..], t, k - 1);
    }
  }

  /** The decimal digit character for `d`. */
  function DigitChar(d: nat): char
    requires d < 10
  {
    (('0' as int) + d) as char
  }

  predicate IsDigit(c: char)
  {
    '0' <= c <= '9'
  }

  predicate AllDigits(s: string)
  {
    forall i :: 0 <= i < |s| ==> IsDigit(s[i])
  }

  /** The decimal digits of `n`, most significant first, without leading zeros. */
  function NatDigits(n: nat): (r: string)
    ensures |r| >= 1 && AllDigits(r)
    ensures |r| > 1 ==> r[0] != '0'
    decreases n
  {
    if n < 10 then [DigitChar(n)] else NatDigits(n / 10) + [DigitChar(n % 10)]
  }

  /** `Long.toString(n)` and `%d`: a minus sign for negatives, then the digits. */
  function Decimal(n: int): string
  {
    if n < 0 then "-" + NatDigits(-n) else NatDigits(n)
  }

  /** The value of a string of decimal digits. */
  function DigitsValue(s: string): nat
    requires AllDigits(s)
  {
    if |s| == 0 then 0
    else DigitsValue(s[..|s| - 1]) * 10 + (s[|s| - 1] as int - '0' as int)
  }

  const LongMin: int := -0x8000_0000_0000_0000
  const LongMax: int := 0x7FFF_FFFF_FFFF_FFFF
  const IntMax: int := 0x7FFF_FFFF

  /**
   * `Long.parseLong(s)`: an optional sign and at least one decimal digit
   * whose value fits in 64 bits; `None` stands for NumberFormatException.
   */
  function ParseLong(s: string): (r: Option<int>)
    ensures r.Some? ==> LongMin <= r.value <= LongMax
    ensures r.Some? ==> |s| > 0 && AllDigits(if s[0] == '-' || s[0] == '+' then s[1..] else s)
  {
    if |s| == 0 then None
    else
      var digits := if s[0] == '-' || s[0] == '+' then s[1..] else s;
      if |digits| == 0 || !AllDigits(digits) then None
      else
        var v: int := if s[0] == '-' then -(DigitsValue(digits) as int) else DigitsValue(digits);
        if LongMin <= v <= LongMax then Some(v) else None
  }

  lemma {:induction false} DigitsValueOfNatDigits(n: nat)
    ensures DigitsValue(NatDigits(n)) == n
    decreases n
  {
    if n >= 10 {
      DigitsValueOfNatDigits(n / 10);
      var ds := NatDigits(n / 10) + [DigitChar(n % 10)];
      assert ds[..|ds| - 1] == NatDigits(n / 10);
    }
  }

  /** What `Long.toString` writes, `Long.parseLong` reads back. */
  lemma ParseDecimal(n: int)
    requires LongMin <= n <= LongMax
    ensures ParseLong(Decimal(n)) == Some(n)
  {
    if n < 0 {
      DigitsValueOfNatDigits(-n);
      assert ("-" + NatDigits(-n))[1..] == NatDigits(-n);
    } else {
      DigitsValueOfNatDigits(n);
    }
  }
}
