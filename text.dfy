/**
 * The string built-ins the answer resolvers rely on: `String.prototype.trim`,
 * `toLowerCase` (ASCII letters only), the `\d` character class, the first
 * match of `/\d+/` and `parseInt(digits, 10)`.
 */
module Text {
  import opened Values

  /** The characters `trim` removes: ECMAScript WhiteSpace and LineTerminator. */
  predicate IsJsWhitespace(c: char)
  {
    var n := c as int;
    n == 0x09 || n == 0x0A || n == 0x0B || n == 0x0C || n == 0x0D || n == 0x20 ||
    n == 0xA0 || n == 0x1680 || (0x2000 <= n <= 0x200A) || n == 0x2028 ||
    n == 0x2029 || n == 0x202F || n == 0x205F || n == 0x3000 || n == 0xFEFF
  }

  /** Drops leading whitespace. */
  function TrimStart(s: string): string
  {
    if s != [] && IsJsWhitespace(s[0]) then TrimStart(s[1..]) else s
  }

  /** Drops trailing whitespace. */
  function TrimEnd(s: string): string
  {
    if s != [] && IsJsWhitespace(s[|s| - 1]) then TrimEnd(s[..|s| - 1]) else s
  }

  /** `s.trim()`: never longer than `s`, and neither starts nor ends with whitespace. */
  function Trim(s: string): (r: string)
    ensures |r| <= |s|
    ensures r == [] || (!IsJsWhitespace(r[0]) && !IsJsWhitespace(r[|r| - 1]))
  {
    TrimStartSpec(s);
    TrimEndSpec(TrimStart(s));
    TrimEnd(TrimStart(s))
  }

  /** `TrimStart` keeps a suffix and drops only whitespace, all of it. */
  lemma {:induction false} TrimStartSpec(s: string)
    ensures var r := TrimStart(s);
            && |r| <= |s| && r == s[|s| - |r|..]
            && (forall i :: 0 <= i < |s| - |r| ==> IsJsWhitespace(s[i]))
            && (r == [] || !IsJsWhitespace(r[0]))
  {
    if s != [] && IsJsWhitespace(s[0]) {
      var t := s[1..];
      TrimStartSpec(t);
      var r := TrimStart(t);
      assert TrimStart(s) == r;
      assert t[|t| - |r|..] == s[|s| - |r|..];
      forall i | 0 <= i < |s| - |r|
        ensures IsJsWhitespace(s[i])
      {
        if i > 0 {
          assert s[i] == t[i - 1];
        }
      }
    } else {
      assert TrimStart(s) == s;
    }
  }

  /** `TrimEnd` keeps a prefix and drops only whitespace, all of it. */
  lemma {:induction false} TrimEndSpec(s: string)
    ensures var r := TrimEnd(s);
            && |r| <= |s| && r == s[..|r|]
            && (forall i :: |r| <= i < |s| ==> IsJsWhitespace(s[i]))
            && (r == [] || !IsJsWhitespace(r[|r| - 1]))
  {
    if s != [] && IsJsWhitespace(s[|s| - 1]) {
      var t := s[..|s| - 1];
      TrimEndSpec(t);
      var r := TrimEnd(t);
      assert TrimEnd(s) == r;
      assert t[..|r|] == s[..|r|];
      forall i | |r| <= i < |s|
        ensures IsJsWhitespace(s[i])
      {
        if i < |s| - 1 {
          assert s[i] == t[i];
        }
      }
    } else {
      assert TrimEnd(s) == s;
    }
  }

  /**
   * `Trim(s)` is the slice of `s` between its leading and its trailing
   * whitespace: everything cut off is whitespace and the result neither
   * starts nor ends with whitespace.
   */
  lemma TrimSpec(s: string)
    ensures var r, lo := Trim(s), |s| - |TrimStart(s)|;
            && (r == [] || (!IsJsWhitespace(r[0]) && !IsJsWhitespace(r[|r| - 1])))
            && 0 <= lo <= lo + |r| <= |s| && r == s[lo..lo + |r|]
            && (forall i :: 0 <= i < lo ==> IsJsWhitespace(s[i]))
            && (forall i :: lo + |r| <= i < |s| ==> IsJsWhitespace(s[i]))
  {
    var t := TrimStart(s);
    TrimStartSpec(s);
    TrimEndSpec(t);
    var r := TrimEnd(t);
    var lo := |s| - |t|;
    assert r != [] ==> r[0] == t[0];
    assert r == s[lo..lo + |r|];
    assert forall i :: lo + |r| <= i < |s| ==> s[i] == t[i - lo];
  }

  /** A string that neither starts nor ends with whitespace is its own trim. */
  lemma TrimOfTrimmed(s: string)
    requires s == [] || (!IsJsWhitespace(s[0]) && !IsJsWhitespace(s[|s| - 1]))
    ensures Trim(s) == s
  {
  }

  /** Trimming twice is trimming once. */
  lemma TrimIdempotent(s: string)
    ensures Trim(Trim(s)) == Trim(s)
  {
    TrimSpec(s);
    TrimOfTrimmed(Trim(s));
  }

  function LowerChar(c: char): (d: char)
  {
    if 'A' <= c <= 'Z' then (c as int + 32) as char else c
  }

  /**
   * `s.toLowerCase()` restricted to ASCII: upper-case A to Z become a to z and
   * every other character is kept.
   */
  function ToLower(s: string): (r: string)
    ensures |r| == |s|
    ensures forall i :: 0 <= i < |s| ==> r[i] == LowerChar(s[i])
  {
    if s == [] then [] else [LowerChar(s[0])] + ToLower(s[1..])
  }

  /** Lower-casing maps each character and leaves no ASCII upper-case letter. */
  lemma {:induction false} ToLowerSpec(s: string)
    ensures |ToLower(s)| == |s|
    ensures forall i :: 0 <= i < |s| ==> ToLower(s)[i] == LowerChar(s[i])
    ensures forall i :: 0 <= i < |s| ==> !('A' <= ToLower(s)[i] <= 'Z')
  {
    if s != [] {
      ToLowerSpec(s[1..]);
    }
  }

  lemma {:induction false} ToLowerIdempotent(s: string)
    ensures ToLower(ToLower(s)) == ToLower(s)
  {
    ToLowerSpec(s);
    ToLowerSpec(ToLower(s));
  }

  /** The `\d` character class: ASCII 0 to 9. */
  predicate IsDigit(c: char)
  {
    '0' <= c <= '9'
  }

  predicate AllDigits(s: string)
  {
    forall i :: 0 <= i < |s| ==> IsDigit(s[i])
  }

  /** `parseInt(s, 10)` for a string of decimal digits. */
  function DigitsValue(s: string): (v: nat)
    requires AllDigits(s)
    ensures v < Pow10(|s|)
  {
    if s == [] then 0
    else 10 * DigitsValue(s[..|s| - 1]) + (s[|s| - 1] as int - '0' as int)
  }

  /** Ten to the power `n`: a number of `n` digits is below it. */
  function Pow10(n: nat): (p: nat)
    ensures p >= 1
  {
    if n == 0 then 1 else 10 * Pow10(n - 1)
  }

  /** The longest run of digits at the front of `s`. */
  function LeadingDigits(s: string): string
  {
    if s != [] && IsDigit(s[0]) then [s[0]] + LeadingDigits(s[1..]) else []
  }

  /**
   * The first match of `/\d+/` in `s`: the leftmost digit together with the
   * digits that follow it, or `None` when `s` has no digit.
   */
  function FirstDigitRun(s: string): Option<string>
  {
    if s == [] then None
    else if IsDigit(s[0]) then Some(LeadingDigits(s))
    else FirstDigitRun(s[1..])
  }

  /** `parseInt(s.match(/\d+/)[0], 10)`: the first number written in `s`. */
  function FirstNumber(s: string): (r: Option<nat>)
    ensures r.None? <==> forall i :: 0 <= i < |s| ==> !IsDigit(s[i])
  {
    FirstDigitRunSpec(s);
    match FirstDigitRun(s)
    case None => None
    case Some(d) => Some(DigitsValue(d))
  }

  /** `LeadingDigits` is the longest all-digit prefix. */
  lemma {:induction false} LeadingDigitsSpec(s: string)
    ensures var r := LeadingDigits(s);
            && |r| <= |s| && r == s[..|r|] && AllDigits(r)
            && (|r| < |s| ==> !IsDigit(s[|r|]))
  {
    if s != [] && IsDigit(s[0]) {
      LeadingDigitsSpec(s[1..]);
    }
  }

  /**
   * `/\d+/` fails exactly on text without a digit; otherwise its match is a
   * non-empty run of digits starting at the first digit of `s` and stopping
   * before the next non-digit.
   */
  lemma {:induction false} FirstDigitRunSpec(s: string)
    ensures FirstDigitRun(s).None? <==> forall i :: 0 <= i < |s| ==> !IsDigit(s[i])
    ensures FirstDigitRun(s).Some? ==>
              var d := FirstDigitRun(s).value;
              d != [] && AllDigits(d) &&
              exists p :: 0 <= p && p + |d| <= |s| && s[p..][..|d|] == d &&
                (forall i :: 0 <= i < p ==> !IsDigit(s[i])) &&
                (p + |d| < |s| ==> !IsDigit(s[p + |d|]))
  {
    if s != [] {
      if IsDigit(s[0]) {
        LeadingDigitsSpec(s);
        assert s[0..] == s;
      } else {
        FirstDigitRunSpec(s[1..]);
        assert forall i :: 1 <= i < |s| ==> s[i] == s[1..][i - 1];
        if FirstDigitRun(s[1..]).Some? {
          var d := FirstDigitRun(s).value;
          var p :| 0 <= p && p + |d| <= |s[1..]| && s[1..][p..][..|d|] == d &&
                (forall i :: 0 <= i < p ==> !IsDigit(s[1..][i])) &&
                (p + |d| < |s[1..]| ==> !IsDigit(s[1..][p + |d|]));
          assert s[p + 1..] == s[1..][p..];
        }
      }
    }
  }

  /**
   * A non-digit followed by a run of digits that reaches the end of the
   * string: the first digit run is exactly that run.
   */
  lemma FirstDigitRunAfterLetter(c: char, ds: string)
    requires !IsDigit(c) && ds != [] && AllDigits(ds)
    ensures FirstDigitRun([c] + ds) == Some(ds)
  {
    assert ([c] + ds)[1..] == ds;
    LeadingDigitsOfDigits(ds);
  }

  lemma {:induction false} LeadingDigitsOfDigits(ds: string)
    requires AllDigits(ds)
    ensures LeadingDigits(ds) == ds
  {
    if ds != [] {
      LeadingDigitsOfDigits(ds[1..]);
    }
  }
}
