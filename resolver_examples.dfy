/**
 * Worked examples of the backend resolver for the options Paris, London,
 * Rome, built from small steps so that each string computation stays cheap.
 */
module ResolverExamples {
  import opened Values
  import opened Text
  import opened AnswerResolver

  const Cities: seq<string> := ["Paris", "London", "Rome"]

  /** Text whose first characters differ even after lower-casing is not a match. */
  lemma NotSameByFirstChar(o: string, t: string)
    requires Trim(o) == o && o != [] && t != []
    requires LowerChar(o[0]) != LowerChar(t[0])
    ensures !SameIgnoringCase(o, t)
  {
    assert ToLower(o)[0] != ToLower(t)[0];
  }

  lemma CitiesAreTrimmed()
    ensures Trim("Paris") == "Paris" && Trim("London") == "London" && Trim("Rome") == "Rome"
  {
    TrimOfTrimmed("Paris");
    TrimOfTrimmed("London");
    TrimOfTrimmed("Rome");
  }

  /** No city matches a text starting with `c` once case is ignored. */
  lemma NoCityStartsWith(t: string)
    requires t != [] && LowerChar(t[0]) !in {'p', 'l', 'r'}
    ensures forall i :: 0 <= i < |Cities| ==> !SameIgnoringCase(Cities[i], t)
  {
    CitiesAreTrimmed();
    NotSameByFirstChar("Paris", t);
    NotSameByFirstChar("London", t);
    NotSameByFirstChar("Rome", t);
  }

  /** `"O2"` names the second option. */
  lemma ExampleCode()
    ensures ResolveIndex(Text("O2"), Cities) == 1
  {
    TrimOfTrimmed("O2");
    assert "O2"[1..] == "2";
    ResolveOCodeInRange("O2", Cities);
  }

  lemma LondonLowerCased()
    ensures Trim(" london ") == "london"
    ensures ToLower("London") == "london" && ToLower("london") == "london"
  {
  }

  /** `" london "` matches London ignoring case and spaces. */
  lemma ExampleCaseInsensitive()
    ensures ResolveIndex(Text(" london "), Cities) == 1
  {
    LondonLowerCased();
    CitiesAreTrimmed();
    NotSameByFirstChar("Paris", "london");
    ResolveCaseInsensitiveMatch(" london ", Cities, 1);
  }

  /** Numbers are read 0-based first: 1 is London, 3 (one past the end) is Rome. */
  lemma ExampleNumbers()
    ensures ResolveIndex(Num(1), Cities) == 1
    ensures ResolveIndex(Num(3), Cities) == 2
    ensures ResolveIndex(Num(4), Cities) == Unresolved
  {
  }

  /** `"Option 3"` carries the 1-based number of Rome. */
  lemma ExampleEmbedded()
    ensures ResolveIndex(Text("Option 3"), Cities) == 2
  {
    var t := "Option 3";
    TrimOfTrimmed(t);
    NoCityStartsWith(t);
    assert FirstNumber(t) == Some(3);
    ResolveEmbeddedNumber(t, Cities);
  }

  /** `"Nowhere"` matches nothing and holds no number. */
  lemma ExampleUnresolved()
    ensures ResolveIndex(Text("Nowhere"), Cities) == Unresolved
  {
    var t := "Nowhere";
    TrimOfTrimmed(t);
    NoCityStartsWith(t);
    assert FirstNumber(t) == None;
    ResolveEmbeddedNumber(t, Cities);
  }

  /** `"O9"` names no option and falls through every later rule. */
  lemma ExampleCodeOutOfRange()
    ensures ResolveIndex(Text("O9"), Cities) == Unresolved
  {
    var t := "O9";
    TrimOfTrimmed(t);
    assert t[1..] == "9";
    NoCityStartsWith(t);
    ResolveOCodeOutOfRange(t, Cities);
  }
}
