/**
 * The Express error middleware (backend/middleware/errorHandler.js): it turns
 * an error into an HTTP status and a message by a fixed sequence of rules,
 * each of which overwrites both when it matches, so that the last matching
 * rule decides; the response always reports failure.
 */
module ErrorHandler {
  import opened Values

  /** The `code` property of an error: absent, a number or a string. */
  datatype ErrorCode = NoCode | NumCode(n: int) | StrCode(s: string)

  /**
   * The properties of an error the handler reads. `keyValueKeys` holds
   * `Object.keys(err.keyValue)` (`None` when `keyValue` is missing) and
   * `fieldMessages` the `message` of each value of `err.errors` in iteration
   * order (`None` when `errors` is missing; a missing message is `None`).
   */
  datatype JsError = JsError(
    name: string,
    code: ErrorCode,
    statusCode: Option<int>,
    message: Option<string>,
    path: Option<string>,
    keyValueKeys: Option<seq<string>>,
    fieldMessages: Option<seq<Option<string>>>,
    stack: Option<string>)

  /** The status and message a rule sets, or the exception the handler itself throws. */
  datatype Outcome = Classified(status: int, message: string) | Throws(error: string)

  /** The JSON body of the response. */
  datatype Body = Body(success: bool, error: string, statusCode: int, stack: Option<string>)

  /** What the handler does: send a response, or throw. */
  datatype Handled = Responded(status: int, body: Body) | Threw(error: string)

  /** The six rules, in the order the handler tries them. */
  datatype Rule = CastRule | DuplicateKeyRule | ValidationRule | FileSizeRule | InvalidTokenRule | ExpiredTokenRule

  const Rules: seq<Rule> := [CastRule, DuplicateKeyRule, ValidationRule, FileSizeRule, InvalidTokenRule, ExpiredTokenRule]

  const InternalError := "Internal Server Error"
  const FileTooLarge := "File size is too large. Please upload a smaller file."
  const InvalidToken := "Invalid token."
  const ExpiredToken := "Your token has expired."
  const CastPrefix := "Resource not found. Invalid: "
  /** What `Object.keys` and `Object.values` throw for `undefined`. */
  const NotAnObject := "Cannot convert undefined or null to object"

  /** A value interpolated into a template literal: a missing one reads "undefined". */
  function Interpolated(v: Option<string>): (s: string)
    ensures v.Some? ==> s == v.value
  {
    if v.Some? then v.value else "undefined"
  }

  /** `items.join(", ")`, with a missing item written as the empty string. */
  function JoinComma(items: seq<Option<string>>): string
  {
    if items == [] then ""
    else if |items| == 1 then (if items[0].Some? then items[0].value else "")
    else JoinComma(items[..1]) + ", " + JoinComma(items[1..])
  }

  /** Joining two non-empty lists puts one separator between their joins. */
  lemma {:induction false} JoinCommaAppend(a: seq<Option<string>>, b: seq<Option<string>>)
    requires a != [] && b != []
    ensures JoinComma(a + b) == JoinComma(a) + ", " + JoinComma(b)
  {
    if |a| == 1 {
      assert (a + b)[..1] == a && (a + b)[1..] == b;
    } else {
      assert (a + b)[..1] == a[..1];
      assert (a + b)[1..] == a[1..] + b;
      JoinCommaAppend(a[1..], b);
    }
  }

  /** No messages join to "", one message joins to itself. */
  lemma JoinCommaSmall(m: string)
    ensures JoinComma([]) == ""
    ensures JoinComma([Some(m)]) == m
  {
  }

  /** The number of commas in a text. */
  function Commas(s: string): nat
  {
    if s == [] then 0 else (if s[0] == ',' then 1 else 0) + Commas(s[1..])
  }

  lemma {:induction false} CommasAppend(s: string, t: string)
    ensures Commas(s + t) == Commas(s) + Commas(t)
  {
    if s != [] {
      assert (s + t)[1..] == s[1..] + t;
      CommasAppend(s[1..], t);
    } else {
      assert s + t == t;
    }
  }

  /** Joining n messages that hold no comma writes exactly n - 1 separators. */
  lemma {:induction false} JoinCommaCount(items: seq<Option<string>>)
    requires items != []
    requires forall i :: 0 <= i < |items| ==> items[i].None? || Commas(items[i].value) == 0
    ensures Commas(JoinComma(items)) == |items| - 1
  {
    if |items| > 1 {
      JoinCommaCount(items[..1]);
      JoinCommaCount(items[1..]);
      CommasAppend(JoinComma(items[..1]) + ", ", JoinComma(items[1..]));
      CommasAppend(JoinComma(items[..1]), ", ");
    }
  }

  /**
   * The status and message before any rule: `err.statusCode || 500` and
   * `err.message || "Internal Server Error"`. Because `||` replaces a falsy
   * value, the status is never 0 and the message never empty.
   */
  function Default(err: JsError): (o: Outcome)
    ensures o.Classified? && o.status != 0 && o.message != ""
    ensures o.status == (if err.statusCode.Some? && err.statusCode.value != 0 then err.statusCode.value else 500)
    ensures o.message == (if err.message.Some? && err.message.value != "" then err.message.value else InternalError)
  {
    Classified(
      if err.statusCode.Some? && err.statusCode.value != 0 then err.statusCode.value else 500,
      if err.message.Some? && err.message.value != "" then err.message.value else InternalError)
  }

  /** The rules keyed by the error's `code`; the others are keyed by its `name`. */
  predicate ByCode(r: Rule)
  {
    r.DuplicateKeyRule? || r.FileSizeRule?
  }

  /** When a rule applies: a code rule needs a code, a name rule a non-empty name. */
  function Matches(r: Rule, err: JsError): (m: bool)
    ensures m && ByCode(r) ==> !err.code.NoCode?
    ensures m && !ByCode(r) ==> err.name != ""
  {
    match r
    case CastRule => err.name == "CastError"
    case DuplicateKeyRule => err.code == NumCode(11000)
    case ValidationRule => err.name == "ValidationError"
    case FileSizeRule => err.code == StrCode("LIMIT_FILE_SIZE")
    case InvalidTokenRule => err.name == "JsonWebTokenError"
    case ExpiredTokenRule => err.name == "TokenExpiredError"
  }

  /**
   * What a matching rule sets: 401 for the two token rules and 400 for the
   * others; only the duplicate-key rule without `keyValue` and the
   * validation rule without `errors` throw, and they throw the
   * `Object.keys`/`Object.values` error.
   */
  function RuleOutcome(r: Rule, err: JsError): (o: Outcome)
    ensures o.Throws? <==> (r.DuplicateKeyRule? && err.keyValueKeys.None?) || (r.ValidationRule? && err.fieldMessages.None?)
    ensures o.Throws? ==> o.error == NotAnObject
    ensures o.Classified? ==> (o.status == 401 <==> r.InvalidTokenRule? || r.ExpiredTokenRule?)
    ensures o.Classified? ==> o.status == 400 || o.status == 401
  {
    match r
    case CastRule => Classified(400, CastPrefix + Interpolated(err.path))
    case DuplicateKeyRule =>
      if err.keyValueKeys.None? then Throws(NotAnObject)
      else
        var keys := err.keyValueKeys.value;
        var field := if keys == [] then "undefined" else keys[0];
        Classified(400, field + " already exists. Please use another value!")
    case ValidationRule =>
      if err.fieldMessages.None? then Throws(NotAnObject)
      else Classified(400, JoinComma(err.fieldMessages.value))
    case FileSizeRule => Classified(400, FileTooLarge)
    case InvalidTokenRule => Classified(401, InvalidToken)
    case ExpiredTokenRule => Classified(401, ExpiredToken)
  }

  /** Runs the rules in order, each matching one overwriting the outcome; an exception stops the run. */
  function ApplyRules(rules: seq<Rule>, err: JsError, acc: Outcome): Outcome
  {
    if rules == [] || acc.Throws? then acc
    else ApplyRules(rules[1..], err, if Matches(rules[0], err) then RuleOutcome(rules[0], err) else acc)
  }

  /**
   * The classification of an error: the default, or what one of the
   * matching rules sets.
   */
  function Classify(err: JsError): (o: Outcome)
    ensures o == Default(err) || exists j :: 0 <= j < |Rules| && Matches(Rules[j], err) && o == RuleOutcome(Rules[j], err)
  {
    ApplyRulesFrom(Rules, err, Default(err));
    ApplyRules(Rules, err, Default(err))
  }

  /** Running rules ends with the starting outcome or with the outcome of a matching rule. */
  lemma {:induction false} ApplyRulesFrom(rules: seq<Rule>, err: JsError, acc: Outcome)
    ensures var o := ApplyRules(rules, err, acc);
            o == acc || exists j :: 0 <= j < |rules| && Matches(rules[j], err) && o == RuleOutcome(rules[j], err)
  {
    if rules != [] && !acc.Throws? {
      var next := if Matches(rules[0], err) then RuleOutcome(rules[0], err) else acc;
      var tail := rules[1..];
      ApplyRulesFrom(tail, err, next);
      var o := ApplyRules(tail, err, next);
      if o != next {
        var j :| 0 <= j < |tail| && Matches(tail[j], err) && o == RuleOutcome(tail[j], err);
        assert rules[j + 1] == tail[j];
      } else if o != acc {
        assert Matches(rules[0], err) && o == RuleOutcome(rules[0], err);
      }
    }
  }

  /**
   * Two rules that match the same error are one name rule and one code rule:
   * the four names and the two codes are distinct.
   */
  lemma MatchingRulesDiffer(err: JsError)
    ensures forall i, j :: 0 <= i < j < |Rules| && Matches(Rules[i], err) && Matches(Rules[j], err) ==>
              ByCode(Rules[i]) != ByCode(Rules[j])
  {
  }

  /** The cast message names the offending path, "undefined" when there is none. */
  lemma CastMessageNamesPath(err: JsError)
    ensures RuleOutcome(CastRule, err).Classified? && RuleOutcome(CastRule, err).status == 400
    ensures var m := RuleOutcome(CastRule, err).message;
            |m| >= |CastPrefix| && m[..|CastPrefix|] == CastPrefix &&
            m[|CastPrefix|..] == (if err.path.Some? then err.path.value else "undefined")
  {
    var m := RuleOutcome(CastRule, err).message;
    assert m == CastPrefix + Interpolated(err.path);
  }

  /** One rule applied to the outcome so far. */
  function Step(r: Rule, err: JsError, acc: Outcome): Outcome
  {
    if acc.Throws? then acc else if Matches(r, err) then RuleOutcome(r, err) else acc
  }

  /** Running a list of rules is applying its first rule, then running the rest. */
  lemma ApplyFirst(rules: seq<Rule>, err: JsError, acc: Outcome)
    requires rules != []
    ensures ApplyRules(rules, err, acc) == ApplyRules(rules[1..], err, Step(rules[0], err, acc))
  {
    if acc.Throws? {
      assert ApplyRules(rules[1..], err, acc) == acc;
    }
  }

  /** The classification written out rule by rule. */
  lemma ClassifyUnfold(err: JsError)
    ensures Classify(err) ==
              Step(ExpiredTokenRule, err, Step(InvalidTokenRule, err, Step(FileSizeRule, err,
                Step(ValidationRule, err, Step(DuplicateKeyRule, err, Step(CastRule, err, Default(err)))))))
  {
    var r1 := [DuplicateKeyRule, ValidationRule, FileSizeRule, InvalidTokenRule, ExpiredTokenRule];
    var r2, r3, r4, r5 := r1[1..], r1[2..], r1[3..], r1[4..];
    var a1 := Step(CastRule, err, Default(err));
    var a2 := Step(DuplicateKeyRule, err, a1);
    var a3 := Step(ValidationRule, err, a2);
    var a4 := Step(FileSizeRule, err, a3);
    var a5 := Step(InvalidTokenRule, err, a4);
    assert Rules[1..] == r1;
    ApplyFirst(Rules, err, Default(err));
    ApplyFirst(r1, err, a1);
    assert r1[1..] == r2;
    ApplyFirst(r2, err, a2);
    assert r2[1..] == r3;
    ApplyFirst(r3, err, a3);
    assert r3[1..] == r4;
    ApplyFirst(r4, err, a4);
    assert r4[1..] == r5;
    ApplyFirst(r5, err, a5);
  }

  /** The position of the last rule that matches, or -1. */
  function LastMatch(rules: seq<Rule>, err: JsError): (k: int)
    ensures -1 <= k < |rules|
    ensures k == -1 <==> forall j :: 0 <= j < |rules| ==> !Matches(rules[j], err)
    ensures k != -1 ==> Matches(rules[k], err) && forall j :: k < j < |rules| ==> !Matches(rules[j], err)
  {
    if rules == [] then -1
    else if Matches(rules[|rules| - 1], err) then |rules| - 1
    else LastMatch(rules[..|rules| - 1], err)
  }

  /** No matching rule throws. */
  predicate NoThrow(rules: seq<Rule>, err: JsError)
  {
    forall j :: 0 <= j < |rules| && Matches(rules[j], err) ==> RuleOutcome(rules[j], err).Classified?
  }

  /**
   * The last matching rule decides: when no matching rule throws, the outcome
   * is the last matching rule's, or the starting one when none matches.
   */
  lemma {:induction false} LastMatchDecides(rules: seq<Rule>, err: JsError, acc: Outcome)
    requires acc.Classified? && NoThrow(rules, err)
    ensures var k := LastMatch(rules, err);
            ApplyRules(rules, err, acc) == if k == -1 then acc else RuleOutcome(rules[k], err)
  {
    if rules != [] {
      var next := if Matches(rules[0], err) then RuleOutcome(rules[0], err) else acc;
      var tail := rules[1..];
      assert forall j :: 0 <= j < |tail| ==> tail[j] == rules[j + 1];
      LastMatchDecides(tail, err, next);
      var k, kt := LastMatch(rules, err), LastMatch(tail, err);
      if kt == -1 {
        assert forall j :: 1 <= j < |rules| ==> !Matches(rules[j], err);
        assert k == (if Matches(rules[0], err) then 0 else -1);
      } else {
        assert k == kt + 1;
      }
    }
  }

  /** The handler throws exactly when a matching rule reads a missing `keyValue` or `errors`. */
  lemma {:induction false} ThrowsWhenMatchedRuleThrows(rules: seq<Rule>, err: JsError, acc: Outcome)
    requires acc.Classified?
    ensures ApplyRules(rules, err, acc).Throws? <==> !NoThrow(rules, err)
  {
    if rules != [] {
      var next := if Matches(rules[0], err) then RuleOutcome(rules[0], err) else acc;
      var tail := rules[1..];
      assert forall j :: 0 <= j < |tail| ==> tail[j] == rules[j + 1];
      if next.Classified? {
        ThrowsWhenMatchedRuleThrows(tail, err, next);
      } else {
        assert !NoThrow(rules, err) by { assert Matches(rules[0], err); }
      }
    }
  }

  /** Only the duplicate-key and validation rules can throw. */
  lemma ThrowingRules(err: JsError)
    ensures NoThrow(Rules, err) <==>
              !(Matches(DuplicateKeyRule, err) && err.keyValueKeys.None?) &&
              !(Matches(ValidationRule, err) && err.fieldMessages.None?)
  {
    assert Rules[1] == DuplicateKeyRule && Rules[2] == ValidationRule;
  }

  /** With no special name or code, the status is `err.statusCode || 500` and the message `err.message || "Internal Server Error"`. */
  lemma DefaultWhenNothingMatches(err: JsError)
    requires forall r :: r in Rules ==> !Matches(r, err)
    ensures Classify(err) == Default(err)
  {
    LastMatchDecides(Rules, err, Default(err));
  }

  /**
   * A token error is always 401 with its fixed message, whatever code the
   * error carries, unless an earlier rule has thrown.
   */
  lemma TokenErrorsAre401(err: JsError)
    requires NoThrow(Rules, err)
    ensures err.name == "JsonWebTokenError" ==> Classify(err) == Classified(401, InvalidToken)
    ensures err.name == "TokenExpiredError" ==> Classify(err) == Classified(401, ExpiredToken)
  {
    LastMatchDecides(Rules, err, Default(err));
  }

  /**
   * The Mongoose and upload rules give 400 when no token rule follows them:
   * a cast error, a duplicate key, a validation error or a file too large.
   */
  lemma DatabaseAndUploadErrorsAre400(err: JsError)
    requires NoThrow(Rules, err)
    requires err.name != "JsonWebTokenError" && err.name != "TokenExpiredError"
    requires err.name in {"CastError", "ValidationError"} ||
             err.code == NumCode(11000) || err.code == StrCode("LIMIT_FILE_SIZE")
    ensures Classify(err).Classified? && Classify(err).status == 400
  {
    ThrowingRules(err);
    ClassifyUnfold(err);
  }

  /**
   * The later rule wins: a validation error whose code is 11000 reports the
   * joined field messages, not the duplicate key; an upload error named
   * `ValidationError` reports the file size.
   */
  lemma LaterRuleOverrides(err: JsError)
    requires NoThrow(Rules, err) && err.name == "ValidationError"
    ensures err.code == NumCode(11000) ==>
              err.fieldMessages.Some? && Classify(err) == Classified(400, JoinComma(err.fieldMessages.value))
    ensures err.code == StrCode("LIMIT_FILE_SIZE") ==> Classify(err) == Classified(400, FileTooLarge)
  {
    ThrowingRules(err);
    ClassifyUnfold(err);
  }

  /** The response for an outcome: failure, the status both as HTTP status and in the body, the stack only in development. */
  function Respond(o: Outcome, development: bool, stack: Option<string>): (h: Handled)
    ensures o.Throws? <==> h.Threw?
    ensures h.Responded? ==>
              && !h.body.success && h.body.statusCode == h.status
              && h.status == o.status && h.body.error == o.message
              && (h.body.stack.Some? ==> development && stack == h.body.stack)
    ensures h.Responded? ==> h.body.stack == (if development then stack else None)
    ensures h.Threw? ==> h.error == o.error
  {
    match o
    case Throws(e) => Threw(e)
    case Classified(status, message) =>
      Responded(status, Body(false, message, status, if development then stack else None))
  }

  /**
   * `errorHandler(err, req, res, next)`: the sequence of `if` blocks over the
   * local status and message, then the response. `development` stands for
   * `process.env.NODE_ENV === "development"`; the console log is left out.
   */
  method HandleError(err: JsError, development: bool) returns (h: Handled)
    ensures h == Respond(Classify(err), development, err.stack)
  {
    var statusCode := if err.statusCode.Some? && err.statusCode.value != 0 then err.statusCode.value else 500;
    var message := if err.message.Some? && err.message.value != "" then err.message.value else InternalError;
    ClassifyUnfold(err);
    ghost var acc := Default(err);

    if err.name == "CastError" {
      message := "Resource not found. Invalid: " + Interpolated(err.path);
      statusCode := 400;
    }
    acc := Step(CastRule, err, acc);
    assert acc == Classified(statusCode, message);

    if err.code == NumCode(11000) {
      if err.keyValueKeys.None? {
        h := Threw(NotAnObject);
        return;
      }
      var keys := err.keyValueKeys.value;
      var field := if keys == [] then "undefined" else keys[0];
      message := field + " already exists. Please use another value!";
      statusCode := 400;
    }
    acc := Step(DuplicateKeyRule, err, acc);
    assert acc == Classified(statusCode, message);

    if err.name == "ValidationError" {
      if err.fieldMessages.None? {
        h := Threw(NotAnObject);
        return;
      }
      message := JoinComma(err.fieldMessages.value);
      statusCode := 400;
    }
    acc := Step(ValidationRule, err, acc);
    assert acc == Classified(statusCode, message);

    if err.code == StrCode("LIMIT_FILE_SIZE") {
      message := FileTooLarge;
      statusCode := 400;
    }
    acc := Step(FileSizeRule, err, acc);
    assert acc == Classified(statusCode, message);

    if err.name == "JsonWebTokenError" {
      message := InvalidToken;
      statusCode := 401;
    }
    acc := Step(InvalidTokenRule, err, acc);
    assert acc == Classified(statusCode, message);

    if err.name == "TokenExpiredError" {
      message := ExpiredToken;
      statusCode := 401;
    }
    acc := Step(ExpiredTokenRule, err, acc);
    assert acc == Classified(statusCode, message);

    h := Responded(statusCode, Body(false, message, statusCode, if development then err.stack else None));
  }
}
