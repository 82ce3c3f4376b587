/** The case-insensitive status comparison the engine relies on. */
module Text {

  /** ASCII lower-casing of one character; every other character is kept. */
  function LowerChar(c: char): char {
    if 'A' <= c <= 'Z' then (c as int + 32) as char else c
  }

  /** ASCII upper-casing of one character; every other character is kept. */
  function UpperChar(c: char): char {
    if 'a' <= c <= 'z' then (c as int - 32) as char else c
  }

  /** `s.lower()`, character by character. */
  function Lower(s: string): (r: string)
    ensures |r| == |s|
    ensures forall i :: 0 <= i < |s| ==> r[i] == LowerChar(s[i])
  {
    if s == [] then [] else [LowerChar(s[0])] + Lower(s[1..])
  }

  /** The distinguished status, in the lower-case form it is compared against. */
  const Finalized: string := "finalizada"

  /** A work order counts as finalised when its status lower-cases to "finalizada". */
  predicate IsFinalized(status: string) {
    Lower(status) == Finalized
  }

  lemma LowerCharMatches(c: char, x: char)
    requires 'a' <= x <= 'z'
    ensures LowerChar(c) == x <==> c == x || c == UpperChar(x)
  {
  }

  /** A status is finalised exactly when it spells "finalizada" with any mix of cases. */
  lemma FinalizedSpellings(s: string)
    ensures IsFinalized(s) <==>
            |s| == |Finalized| &&
            forall i :: 0 <= i < |s| ==> s[i] == Finalized[i] || s[i] == UpperChar(Finalized[i])
  {
    if |s| == |Finalized| {
      forall i | 0 <= i < |s|
        ensures Lower(s)[i] == Finalized[i] <==> s[i] == Finalized[i] || s[i] == UpperChar(Finalized[i])
      {
        LowerCharMatches(s[i], Finalized[i]);
      }
      if forall i :: 0 <= i < |s| ==> s[i] == Finalized[i] || s[i] == UpperChar(Finalized[i]) {
        assert Lower(s) == Finalized;
      }
    }
  }

  lemma CapitalisedIsFinalized()
    ensures IsFinalized("Finalizada")
  {
    var s := "Finalizada";
    assert s[0] == UpperChar(Finalized[0]);
    assert forall i :: 1 <= i < |s| ==> s[i] == Finalized[i];
    FinalizedSpellings(s);
  }

  lemma OpenIsNotFinalized()
    ensures !IsFinalized("Aberta")
  {
    assert |Lower("Aberta")| == 6;
  }
}
