/** include/nealog/Utility.h: the raw prefix test the registry uses to
    address a branch. */
module Utility {
  import opened Wrappers
  import opened Text

  /** `beginsWith(haystack, needle)`: the source asks whether
      `haystack.rfind(needle, 0) == 0`, i.e. whether the needle occurs at
      position 0.  This is exactly the sequence-prefix relation. */
  function BeginsWith(haystack: string, needle: string): (r: bool)
    ensures r <==> needle <= haystack
  {
    var found := RFind(haystack, needle, 0);
    assert needle <= haystack ==> OccursAt(haystack, needle, 0);
    found == Some(0)
  }

  /** The empty needle begins every haystack. */
  lemma EmptyNeedle(haystack: string)
    ensures BeginsWith(haystack, "")
  {
  }

  /** Every string begins with itself, so a branch root matches itself. */
  lemma Reflexive(s: string)
    ensures BeginsWith(s, s)
  {
  }

  /** A needle longer than the haystack never matches. */
  lemma LongerNeedle(haystack: string, needle: string)
    requires |needle| > |haystack|
    ensures !BeginsWith(haystack, needle)
  {
  }

  /** The test looks at characters, not at delimiter-separated segments:
      "sibling" begins "sibling2.x", although "sibling2" is a different
      segment. */
  lemma RawCharacterMatch()
    ensures BeginsWith("sibling2.x", "sibling")
    ensures !BeginsWith("sibling", "sibling2.x")
  {
  }

  /** The prefix test is transitive: whatever begins with a name that begins
      with `b` begins with `b` as well. */
  lemma Transitive(a: string, b: string, c: string)
    requires BeginsWith(a, b) && BeginsWith(b, c)
    ensures BeginsWith(a, c)
  {
  }
}
