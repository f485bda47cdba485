/**
 * The backend answer resolver `resolveIndex` and the answer comparison of
 * `submitQuiz` (backend/controllers/quizController.js).
 *
 * A raw answer is turned into a 0-based option index, or the sentinel -1,
 * by trying these rules in order, the first that applies winning:
 *   a number that is a 0-based index, then one that is a 1-based index;
 *   for text (trimmed): a code `O<digits>` naming an option 1-based, then
 *   an option equal to the text, then an option equal to it ignoring case
 *   and surrounding whitespace, then the first number inside the text read
 *   1-based.
 */
module AnswerResolver {
  import opened Values
  import opened Text

  /** The "unresolved" result. */
  const Unresolved: int := -1

  /** `opts.findIndex(p)`: the smallest index whose option satisfies `p`, or -1. */
  function FindIndex(opts: seq<string>, p: string -> bool): (r: int)
    ensures -1 <= r < |opts|
    ensures r == -1 <==> forall i :: 0 <= i < |opts| ==> !p(opts[i])
    ensures r != -1 ==> p(opts[r]) && forall i :: 0 <= i < r ==> !p(opts[i])
  {
    if opts == [] then -1
    else if p(opts[0]) then 0
    else
      var r := FindIndex(opts[1..], p);
      assert forall i :: 1 <= i < |opts| ==> opts[i] == opts[1..][i - 1];
      if r == -1 then -1 else r + 1
  }

  /** Option text equal to the (trimmed) answer, case-sensitively. */
  function ExactIndex(opts: seq<string>, t: string): (r: int)
    ensures -1 <= r < |opts|
    ensures r == -1 <==> t !in opts
    ensures r != -1 ==> opts[r] == t && t !in opts[..r]
  {
    FindIndex(opts, o => o == t)
  }

  /**
   * An option that equals the answer once trimmed and lower-cased: an option
   * equal to an already trimmed answer always qualifies, and a qualifying
   * option has the answer's length once trimmed.
   */
  function SameIgnoringCase(opt: string, t: string): (same: bool)
    ensures opt == t && Trim(t) == t ==> same
    ensures same ==> |Trim(opt)| == |t|
  {
    ToLower(Trim(opt)) == ToLower(t)
  }

  /** Option text equal to the answer ignoring case and surrounding spaces. */
  function CaseInsensitiveIndex(opts: seq<string>, t: string): (r: int)
    ensures -1 <= r < |opts|
    ensures r == -1 <==> forall i :: 0 <= i < |opts| ==> !SameIgnoringCase(opts[i], t)
    ensures r != -1 ==> SameIgnoringCase(opts[r], t) &&
                        forall i :: 0 <= i < r ==> !SameIgnoringCase(opts[i], t)
  {
    FindIndex(opts, o => SameIgnoringCase(o, t))
  }

  /**
   * The text matches `/^O\d+$/i`; the number of a code is then also the first
   * number written in it.
   */
  function IsOCode(t: string): (code: bool)
    ensures code ==> |t| >= 2 && AllDigits(t[1..])
    ensures code ==> FirstNumber(t) == Some(DigitsValue(t[1..]))
  {
    if |t| >= 2 && (t[0] == 'O' || t[0] == 'o') && AllDigits(t[1..]) then
      assert t == [t[0]] + t[1..];
      FirstDigitRunAfterLetter(t[0], t[1..]);
      true
    else false
  }

  /** `parseInt(digits, 10) - 1` for a code `O<digits>`. */
  function OCodeIndex(t: string): (r: int)
    requires IsOCode(t)
    ensures r >= -1
  {
    DigitsValue(t[1..]) - 1
  }

  /**
   * The last rule: the first run of digits inside the text, read as a
   * 1-based option number, when that option exists.
   */
  function EmbeddedNumberIndex(t: string, n: nat): (r: int)
    ensures r == -1 || 0 <= r < n
    ensures FirstNumber(t).None? ==> r == -1
    ensures r != -1 ==> r + 1 == FirstNumber(t).value
    ensures FirstNumber(t).Some? && 1 <= FirstNumber(t).value <= n ==> r == FirstNumber(t).value - 1
  {
    match FirstNumber(t)
    case None => -1
    case Some(v) =>
      var idx := v - 1;
      if 0 <= idx < n then idx else -1
  }

  /**
   * The rules after the code rule, shared by both resolvers: the first option
   * equal to the text, else the first equal to it ignoring case and
   * surrounding whitespace, else the embedded number.
   */
  function MatchText(t: string, opts: seq<string>): (r: int)
    ensures r == -1 || 0 <= r < |opts|
    ensures ExactIndex(opts, t) != -1 ==> r == ExactIndex(opts, t)
    ensures t !in opts && CaseInsensitiveIndex(opts, t) != -1 ==> r == CaseInsensitiveIndex(opts, t)
    ensures t !in opts && CaseInsensitiveIndex(opts, t) == -1 ==> r == EmbeddedNumberIndex(t, |opts|)
  {
    var exact := ExactIndex(opts, t);
    if exact != -1 then exact
    else
      var ci := CaseInsensitiveIndex(opts, t);
      if ci != -1 then ci
      else EmbeddedNumberIndex(t, |opts|)
  }

  /** The rules for a string answer, applied to its trimmed text. */
  function ResolveText(t: string, opts: seq<string>): (r: int)
    ensures r == -1 || 0 <= r < |opts|
  {
    if IsOCode(t) && 0 <= OCodeIndex(t) < |opts| then OCodeIndex(t)
    else MatchText(t, opts)
  }

  /**
   * `resolveIndex(ans, options)`. A missing or non-array options list reaches
   * here as the empty sequence; `null`, `undefined` and any other non-number,
   * non-string value resolve to -1.
   */
  function ResolveIndex(ans: Answer, opts: seq<string>): (r: int)
    ensures r == Unresolved || 0 <= r < |opts|
  {
    match ans
    case Num(k) =>
      if 0 <= k < |opts| then k
      else if 0 <= k - 1 < |opts| then k - 1
      else Unresolved
    case Text(s) => ResolveText(Trim(s), opts)
    case Null => Unresolved
    case Undefined => Unresolved
  }

  /**
   * The answer comparison: when both answers resolve, they must name the same
   * option; when either does not, the raw values must be identical (`===`).
   * So a correct answer always resolves like the stored one, an answer that
   * resolves is correct exactly when it names the stored answer's option, and
   * when either stays unresolved only the identical answer is correct.
   */
  function IsCorrect(selected: Answer, correct: Answer, opts: seq<string>): (ok: bool)
    ensures ok ==> ResolveIndex(selected, opts) == ResolveIndex(correct, opts)
    ensures selected == correct ==> ok
    ensures ResolveIndex(selected, opts) != Unresolved ==>
              (ok <==> ResolveIndex(selected, opts) == ResolveIndex(correct, opts))
    ensures ResolveIndex(selected, opts) == Unresolved || ResolveIndex(correct, opts) == Unresolved ==>
              (ok <==> selected == correct)
  {
    var u := ResolveIndex(selected, opts);
    var c := ResolveIndex(correct, opts);
    if u != Unresolved && c != Unresolved then u == c else selected == correct
  }

  // ---------------------------------------------------------------------
  // Properties of the resolver

  /** A 0-based index already in range is returned unchanged. */
  lemma ResolveCanonicalIndex(k: int, opts: seq<string>)
    requires 0 <= k < |opts|
    ensures ResolveIndex(Num(k), opts) == k
  {
  }

  /**
   * A number is read 1-based only when it is not a 0-based index: of the
   * numbers, exactly `|opts|` itself is read as the last option, and every
   * number outside `[0, |opts|]` is unresolved.
   */
  lemma ResolveNumber(k: int, opts: seq<string>)
    ensures k == |opts| > 0 ==> ResolveIndex(Num(k), opts) == k - 1
    ensures (k < 0 || k > |opts| || (k == 0 && opts == [])) ==> ResolveIndex(Num(k), opts) == Unresolved
    ensures ResolveIndex(Num(k), opts) != Unresolved <==> 0 <= k <= |opts| && opts != []
  {
  }

  /** A code `O<n>` naming an existing option resolves to option n - 1. */
  lemma ResolveOCodeInRange(s: string, opts: seq<string>)
    requires IsOCode(Trim(s)) && 0 <= OCodeIndex(Trim(s)) < |opts|
    ensures ResolveIndex(Text(s), opts) == OCodeIndex(Trim(s))
  {
  }

  /**
   * A code `O<n>` naming no option does not stop the search: it resolves to
   * an option spelled exactly as the code, else to one spelled as the code
   * ignoring case and spaces, and otherwise stays unresolved (the number
   * inside it is the same out-of-range `n`).
   */
  lemma ResolveOCodeOutOfRange(s: string, opts: seq<string>)
    requires IsOCode(Trim(s)) && !(0 <= OCodeIndex(Trim(s)) < |opts|)
    ensures var t := Trim(s);
            ResolveIndex(Text(s), opts) ==
              if ExactIndex(opts, t) != -1 then ExactIndex(opts, t)
              else if CaseInsensitiveIndex(opts, t) != -1 then CaseInsensitiveIndex(opts, t)
              else Unresolved
    ensures var t := Trim(s);
            (forall i :: 0 <= i < |opts| ==> !SameIgnoringCase(opts[i], t)) ==>
              ResolveIndex(Text(s), opts) == Unresolved
  {
    var t := Trim(s);
    assert t == [t[0]] + t[1..];
    FirstDigitRunAfterLetter(t[0], t[1..]);
    assert EmbeddedNumberIndex(t, |opts|) == Unresolved;
    TrimSpec(s);
    TrimOfTrimmed(t);
  }

  /**
   * Text that is not a usable code resolves to the FIRST option equal to it;
   * exact equality is tried before equality ignoring case.
   */
  lemma ResolveExactMatch(s: string, opts: seq<string>, i: nat)
    requires !(IsOCode(Trim(s)) && 0 <= OCodeIndex(Trim(s)) < |opts|)
    requires i < |opts| && opts[i] == Trim(s) && Trim(s) !in opts[..i]
    ensures ResolveIndex(Text(s), opts) == i
  {
  }

  /**
   * With no exact match, text resolves to the first option that equals it
   * ignoring case and surrounding whitespace.
   */
  lemma ResolveCaseInsensitiveMatch(s: string, opts: seq<string>, i: nat)
    requires !(IsOCode(Trim(s)) && 0 <= OCodeIndex(Trim(s)) < |opts|)
    requires Trim(s) !in opts
    requires i < |opts| && SameIgnoringCase(opts[i], Trim(s))
    requires forall j :: 0 <= j < i ==> !SameIgnoringCase(opts[j], Trim(s))
    ensures ResolveIndex(Text(s), opts) == i
  {
  }

  /**
   * With no code and no text match, the first number inside the text picks
   * the option with that 1-based number, if there is one.
   */
  lemma ResolveEmbeddedNumber(s: string, opts: seq<string>)
    requires !(IsOCode(Trim(s)) && 0 <= OCodeIndex(Trim(s)) < |opts|)
    requires forall j :: 0 <= j < |opts| ==> !SameIgnoringCase(opts[j], Trim(s))
    ensures Trim(s) !in opts
    ensures FirstNumber(Trim(s)).None? ==> ResolveIndex(Text(s), opts) == Unresolved
    ensures FirstNumber(Trim(s)).Some? ==>
              var n := FirstNumber(Trim(s)).value;
              ResolveIndex(Text(s), opts) == if 1 <= n <= |opts| then n - 1 else Unresolved
  {
    TrimSpec(s);
    TrimOfTrimmed(Trim(s));
  }

  // ---------------------------------------------------------------------
  // Properties of the answer comparison

  /** Grading does not depend on which of the two answers is the stored one. */
  lemma IsCorrectSymmetric(a: Answer, b: Answer, opts: seq<string>)
    ensures IsCorrect(a, b, opts) <==> IsCorrect(b, a, opts)
  {
  }

  /** Submitting the stored correct answer verbatim is always correct. */
  lemma IsCorrectReflexive(a: Answer, opts: seq<string>)
    ensures IsCorrect(a, a, opts)
  {
  }

  /**
   * Two answers naming the same option are equally graded against any stored
   * answer that resolves: grading depends only on the resolved index.
   */
  lemma IsCorrectByIndex(a: Answer, b: Answer, correct: Answer, opts: seq<string>)
    requires ResolveIndex(a, opts) == ResolveIndex(b, opts) != Unresolved
    requires ResolveIndex(correct, opts) != Unresolved
    ensures IsCorrect(a, correct, opts) <==> IsCorrect(b, correct, opts)
    ensures IsCorrect(a, correct, opts) <==> ResolveIndex(a, opts) == ResolveIndex(correct, opts)
  {
  }
}
