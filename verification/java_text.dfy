/** The few `java.lang.String` and `Integer` operations the version parser and the
    console rely on, with Java's edge cases written out: `indexOf`/`lastIndexOf`
    return -1, `substring` fails when its bounds cross, `split` drops trailing
    empty pieces, `trim` strips every character up to U+0020, and `parseInt`
    accepts one sign character and only values that fit in 32 bits. */
module JavaText {
  import opened Wrappers

  const IntMin: int := -0x8000_0000
  const IntMax: int := 0x7FFF_FFFF

  predicate IsInt32(n: int) {
    IntMin <= n <= IntMax
  }

  predicate IsDigit(c: char) {
    '0' <= c <= '9'
  }

  predicate AllDigits(s: string) {
    forall i :: 0 <= i < |s| ==> IsDigit(s[i])
  }

  function DigitValue(c: char): nat
    requires IsDigit(c)
  {
    (c as int) - ('0' as int)
  }

  function DigitChar(d: nat): (c: char)
    requires d < 10
    ensures IsDigit(c) && DigitValue(c) == d
  {
    (('0' as int) + d) as char
  }

  /** Numeric value of a string of decimal digits (most significant first). */
  function DigitsValue(s: string): nat
    requires AllDigits(s)
  {
    if |s| == 0 then 0 else DigitsValue(s[..|s| - 1]) * 10 + DigitValue(s[|s| - 1])
  }

  /** Shortest decimal rendering of a natural number, as `Integer.toString` prints it. */
  function DecimalString(n: nat): (s: string)
    ensures |s| > 0 && AllDigits(s)
    ensures n >= 10 ==> s[0] != '0'
  {
    if n < 10 then [DigitChar(n)] else DecimalString(n / 10) + [DigitChar(n % 10)]
  }

  /** `Integer.toString(n)` for any integer. */
  function IntString(n: int): string {
    if n < 0 then "-" + DecimalString(-n) else DecimalString(n)
  }

  lemma {:induction false} DecimalStringValue(n: nat)
    ensures DigitsValue(DecimalString(n)) == n
  {
    var s := DecimalString(n);
    if n >= 10 {
      DecimalStringValue(n / 10);
      assert s[..|s| - 1] == DecimalString(n / 10);
    }
  }

  /** `Integer.parseInt(s)`: an optional leading `-` or `+`, then at least one
      decimal digit and nothing else, with the value inside the 32-bit range;
      `None` is the NumberFormatException. */
  function ParseInt(s: string): (r: Option<int>)
    ensures r.Some? ==> IsInt32(r.value)
    ensures r.Some? ==> |s| > 0
  {
    if |s| == 0 then None
    else if s[0] == '-' || s[0] == '+' then SignedValue(s[0] == '-', s[1..])
    else SignedValue(false, s)
  }

  /** The digits after the sign, if any, read as an int. */
  function SignedValue(negative: bool, digits: string): (r: Option<int>)
    ensures r.Some? ==> IsInt32(r.value) && |digits| > 0
  {
    if |digits| == 0 || !AllDigits(digits) then None
    else
      var n: int := if negative then 0 - DigitsValue(digits) else DigitsValue(digits);
      if IsInt32(n) then Some(n) else None
  }

  /** `Integer.parseInt` takes an optional sign followed by digits, and
      yields their signed value when it fits in an int. */
  lemma ParseIntAccepts(sign: string, digits: string)
    requires sign == "" || sign == "+" || sign == "-"
    requires |digits| > 0 && AllDigits(digits)
    ensures var n := if sign == "-" then 0 - DigitsValue(digits) else DigitsValue(digits);
            ParseInt(sign + digits) == if IsInt32(n) then Some(n) else None
  {
    if sign == "" {
      assert sign + digits == digits;
      ParseIntOfDigits(digits);
    } else {
      var s := sign + digits;
      assert ParseInt(s) == SignedValue(sign == "-", digits) by {
        assert s[0] == sign[0] && s[1..] == digits;
      }
      SignedValueOfDigits(sign == "-", digits);
    }
  }

  lemma SignedValueOfDigits(negative: bool, digits: string)
    requires |digits| > 0 && AllDigits(digits)
    ensures var n := if negative then 0 - DigitsValue(digits) else DigitsValue(digits);
            SignedValue(negative, digits) == if IsInt32(n) then Some(n) else None
  {
  }

  /** And it takes nothing else: what it parses is a sign or none, then
      digits, and the value is theirs. */
  lemma ParseIntOnlyNumerals(s: string)
    requires ParseInt(s).Some?
    ensures var k := if s[0] == '-' || s[0] == '+' then 1 else 0;
            && |s| > k && AllDigits(s[k..])
            && ParseInt(s).value == if s[0] == '-' then 0 - DigitsValue(s[k..]) else DigitsValue(s[k..])
  {
  }

  /** Printing an int and parsing it back yields the same number, over the
      whole 32-bit range; beyond it the printed number does not parse. */
  lemma ParseIntRoundTrip(n: int)
    ensures IsInt32(n) ==> ParseInt(IntString(n)) == Some(n)
    ensures !IsInt32(n) ==> ParseInt(IntString(n)) == None
  {
    if n < 0 {
      DecimalStringValue(-n);
      ParseIntAccepts("-", DecimalString(-n));
    } else {
      DecimalStringValue(n);
      ParseIntAccepts("", DecimalString(n));
      assert "" + DecimalString(n) == DecimalString(n);
    }
  }

  /** A plain digit string parses to its value exactly when that value fits in an int. */
  lemma ParseIntOfDigits(s: string)
    requires |s| > 0 && AllDigits(s)
    ensures ParseInt(s) == if DigitsValue(s) <= IntMax then Some(DigitsValue(s)) else None
  {
  }

  /** `s.indexOf(c)`: position of the first `c`, or -1. */
  function IndexOf(s: string, c: char): (r: int)
    ensures -1 <= r < |s|
    ensures r == -1 <==> c !in s
    ensures r >= 0 ==> s[r] == c && c !in s[..r]
  {
    if |s| == 0 then -1
    else if s[0] == c then 0
    else
      var k := IndexOf(s[1..], c);
      assert s[1..][..(if k < 0 then 0 else k)] == s[1..(if k < 0 then 1 else k + 1)];
      if k == -1 then -1 else k + 1
  }

  /** `s.lastIndexOf(c)`: position of the last `c`, or -1. */
  function LastIndexOf(s: string, c: char): (r: int)
    ensures -1 <= r < |s|
    ensures r == -1 <==> c !in s
    ensures r >= 0 ==> s[r] == c && c !in s[r + 1..]
  {
    if |s| == 0 then -1
    else if s[|s| - 1] == c then |s| - 1
    else
      assert s == s[..|s| - 1] + [s[|s| - 1]];
      LastIndexOf(s[..|s| - 1], c)
  }

  /** `s.substring(begin, end)`: `None` is the StringIndexOutOfBoundsException
      raised when the bounds are negative, past the end or crossed. */
  function Substring(s: string, begin: int, end: int): (r: Option<string>)
    ensures r.Some? <==> 0 <= begin <= end <= |s|
    ensures r.Some? ==> |r.value| == end - begin
  {
    if 0 <= begin <= end <= |s| then Some(s[begin..end]) else None
  }

  /** The pieces of `s` between occurrences of `sep`, empty pieces included. */
  function Pieces(s: string, sep: char): (r: seq<string>)
    ensures |r| > 0
    ensures forall i :: 0 <= i < |r| ==> sep !in r[i]
    decreases |s|
  {
    var k := IndexOf(s, sep);
    if k == -1 then [s] else [s[..k]] + Pieces(s[k + 1..], sep)
  }

  function DropTrailingEmpty(ps: seq<string>): (r: seq<string>)
    ensures |r| <= |ps| && r == ps[..|r|]
    ensures |r| > 0 ==> r[|r| - 1] != ""
    ensures forall i :: |r| <= i < |ps| ==> ps[i] == ""
  {
    if |ps| == 0 then []
    else if ps[|ps| - 1] == "" then DropTrailingEmpty(ps[..|ps| - 1])
    else ps
  }

  /** `s.split(sep)` for a one-character separator that is not a regex
      metacharacter: without any `sep` the answer is `[s]` itself (even for the
      empty string); otherwise the pieces with trailing empty pieces removed. */
  function Split(s: string, sep: char): (r: seq<string>)
    ensures forall i :: 0 <= i < |r| ==> sep !in r[i]
    ensures sep in s && |r| > 0 ==> r[|r| - 1] != ""
    ensures sep !in s ==> r == [s]
  {
    if sep !in s then [s]
    else
      var ps := Pieces(s, sep);
      var r := DropTrailingEmpty(ps);
      assert forall i :: 0 <= i < |r| ==> r[i] == ps[i];
      r
  }

  predicate OnlyChar(s: string, c: char) {
    forall i :: 0 <= i < |s| ==> s[i] == c
  }

  predicate AllEmpty(ps: seq<string>) {
    forall i :: 0 <= i < |ps| ==> ps[i] == ""
  }

  lemma {:induction false} PiecesEmptyOnlySep(s: string, sep: char)
    requires AllEmpty(Pieces(s, sep))
    ensures OnlyChar(s, sep)
    decreases |s|
  {
    var k := IndexOf(s, sep);
    if k == -1 {
      assert Pieces(s, sep)[0] == s;
    } else {
      var tail := s[k + 1..];
      var ps := Pieces(s, sep);
      var rest := Pieces(tail, sep);
      assert ps == [s[..k]] + rest;
      assert |s[..k]| == 0 by {
        assert ps[0] == s[..k];
      }
      assert AllEmpty(rest) by {
        forall i | 0 <= i < |rest| ensures rest[i] == "" {
          assert rest[i] == ps[i + 1];
        }
      }
      PiecesEmptyOnlySep(tail, sep);
      forall i | 0 <= i < |s| ensures s[i] == sep {
        if i > k {
          assert s[i] == tail[i - k - 1];
        }
      }
    }
  }

  lemma {:induction false} OnlySepPiecesEmpty(s: string, sep: char)
    requires OnlyChar(s, sep)
    ensures AllEmpty(Pieces(s, sep))
    decreases |s|
  {
    var k := IndexOf(s, sep);
    if k != -1 {
      assert k == 0;
      var tail := s[1..];
      assert OnlyChar(tail, sep) by {
        forall i | 0 <= i < |tail| ensures tail[i] == sep {
          assert tail[i] == s[1 + i];
        }
      }
      OnlySepPiecesEmpty(tail, sep);
      var ps := Pieces(s, sep);
      var rest := Pieces(tail, sep);
      assert ps == [s[..0]] + rest;
      forall i | 0 <= i < |ps| ensures ps[i] == "" {
        if i > 0 {
          assert ps[i] == rest[i - 1];
        }
      }
    }
  }

  /** What `s.split(sep)[0]` sees: the text before the first `sep`, or `None`
      (ArrayIndexOutOfBoundsException) when `s` is a non-empty run of `sep`. */
  lemma SplitHead(s: string, sep: char)
    ensures |Split(s, sep)| == 0 <==> |s| > 0 && OnlyChar(s, sep)
    ensures |Split(s, sep)| > 0 ==> Split(s, sep)[0] == s[..(if sep in s then IndexOf(s, sep) else |s|)]
  {
    if sep in s {
      if AllEmpty(Pieces(s, sep)) { PiecesEmptyOnlySep(s, sep); }
      if OnlyChar(s, sep) { OnlySepPiecesEmpty(s, sep); }
      var ps := Pieces(s, sep);
      var r := DropTrailingEmpty(ps);
      if |r| == 0 {
        assert AllEmpty(ps);
      } else {
        assert r[0] == ps[0];
      }
    } else if |s| > 0 {
      assert s[0] in s;
    }
  }

  /** Java's `trim` treats every character up to U+0020 as white space. */
  predicate IsTrimmable(c: char) {
    c <= ' '
  }

  function TrimStart(s: string): (r: string)
    ensures |r| <= |s| && r == s[|s| - |r|..]
    ensures |r| > 0 ==> !IsTrimmable(r[0])
    ensures forall i :: 0 <= i < |s| - |r| ==> IsTrimmable(s[i])
  {
    if |s| > 0 && IsTrimmable(s[0]) then TrimStart(s[1..]) else s
  }

  function TrimEnd(s: string): (r: string)
    ensures |r| <= |s| && r == s[..|r|]
    ensures |r| > 0 ==> !IsTrimmable(r[|r| - 1])
    ensures forall i :: |r| <= i < |s| ==> IsTrimmable(s[i])
  {
    if |s| > 0 && IsTrimmable(s[|s| - 1]) then TrimEnd(s[..|s| - 1]) else s
  }

  /** Number of leading characters `trim` cuts off. */
  function LeadingCut(s: string): (n: nat)
    ensures n <= |s|
  {
    |s| - |TrimStart(s)|
  }

  /** `s.trim()`: the longest slice of `s` that neither starts nor ends with a
      character up to U+0020; everything cut off is such a character. */
  function Trim(s: string): (r: string)
    ensures LeadingCut(s) + |r| <= |s| && r == s[LeadingCut(s)..LeadingCut(s) + |r|]
    ensures forall i :: 0 <= i < LeadingCut(s) ==> IsTrimmable(s[i])
    ensures forall i :: LeadingCut(s) + |r| <= i < |s| ==> IsTrimmable(s[i])
    ensures |r| > 0 ==> !IsTrimmable(r[0]) && !IsTrimmable(r[|r| - 1])
  {
    var t := TrimStart(s);
    var r := TrimEnd(t);
    CutBothEnds(s, t, r, |s| - |t|);
    r
  }

  /** Cutting `n` characters off the front and then some off the back leaves
      a slice of the original, and what the back cut removed is the end of
      the original. */
  lemma CutBothEnds(s: string, t: string, r: string, n: nat)
    requires n <= |s| && t == s[n..] && |r| <= |t| && r == t[..|r|]
    requires forall i :: |r| <= i < |t| ==> IsTrimmable(t[i])
    ensures n + |r| <= |s| && r == s[n..n + |r|]
    ensures forall i :: n + |r| <= i < |s| ==> IsTrimmable(s[i])
  {
    forall i | n + |r| <= i < |s| ensures IsTrimmable(s[i]) {
      assert s[i] == t[i - n];
    }
  }

  /** Trimming twice is trimming once. */
  lemma TrimIdempotent(s: string)
    ensures Trim(Trim(s)) == Trim(s)
  {
    var r := Trim(s);
    if |r| > 0 {
      assert TrimStart(r) == r;
      assert TrimEnd(r) == r;
    }
  }

  predicate IsLowerAscii(t: string) {
    forall i :: 0 <= i < |t| ==> 'a' <= t[i] <= 'z'
  }

  function UpperAscii(c: char): char
    requires 'a' <= c <= 'z'
  {
    ((c as int) - 32) as char
  }

  /** `Character.toUpperCase` or `toLowerCase` maps `c` onto the lower-case ASCII
      letter `t`: the letter itself, its upper-case form, and for `s` also the
      long s U+017F, whose upper case is `S`. */
  predicate SameLetterIgnoringCase(c: char, t: char)
    requires 'a' <= t <= 'z'
  {
    c == t || c == UpperAscii(t) || (t == 's' && c == '\U{017F}')
  }

  /** `s.equalsIgnoreCase(t)` for a lower-case ASCII target `t`. */
  predicate EqualsIgnoreCase(s: string, t: string): (eq: bool)
    requires IsLowerAscii(t)
    ensures eq ==> |s| == |t|
    ensures s == t ==> eq
  {
    |s| == |t| && forall i :: 0 <= i < |s| ==> SameLetterIgnoringCase(s[i], t[i])
  }

  /** Between two lower-case ASCII strings, ignoring case is plain equality. */
  lemma EqualsIgnoreCaseOnLower(s: string, t: string)
    requires IsLowerAscii(s) && IsLowerAscii(t)
    ensures EqualsIgnoreCase(s, t) <==> s == t
  {
    if EqualsIgnoreCase(s, t) {
      forall i | 0 <= i < |s| ensures s[i] == t[i] {
        assert SameLetterIgnoringCase(s[i], t[i]);
      }
    }
  }

  /** A lower-case ASCII text equals itself ignoring case. */
  lemma EqualsIgnoreCaseSelf(t: string)
    requires IsLowerAscii(t)
    ensures EqualsIgnoreCase(t, t)
  {
  }

  /** The first occurrence is the only position holding `c` with no `c` before it. */
  lemma IndexOfUnique(s: string, c: char, k: nat)
    requires k < |s| && s[k] == c && c !in s[..k]
    ensures IndexOf(s, c) == k
  {
    assert s[k] in s;
  }

  /** The last occurrence is the only position holding `c` with no `c` after it. */
  lemma LastIndexOfUnique(s: string, c: char, k: nat)
    requires k < |s| && s[k] == c && c !in s[k + 1..]
    ensures LastIndexOf(s, c) == k
  {
    assert s[k] in s;
  }

  /** Wrap-around of an arbitrary integer into Java's 32-bit `int`. */
  function Wrap32(n: int): (r: int)
    ensures IsInt32(r)
  {
    var m := n % 0x1_0000_0000;
    if m > IntMax then m - 0x1_0000_0000 else m
  }

  /** `Objects.hash(...)` over the elements' own hash codes: start at 1, then
      `31 * h + e` for each element, in 32-bit arithmetic. */
  function ObjectsHash(hs: seq<int>): (r: int)
    ensures IsInt32(r)
  {
    if |hs| == 0 then 1 else Wrap32(31 * ObjectsHash(hs[..|hs| - 1]) + hs[|hs| - 1])
  }

  /** `String.hashCode`: `s[0]*31^(n-1) + ... + s[n-1]` in 32-bit arithmetic. */
  function StringHash(s: string): (r: int)
    ensures IsInt32(r)
  {
    if |s| == 0 then 0 else Wrap32(31 * StringHash(s[..|s| - 1]) + (s[|s| - 1] as int))
  }
}
