/** The sitemap <changefreq> validator (Sitemaps XML protocol, changefreq definition). */
module SitemapChangefreq {
  import opened Wrappers
  import opened Validators

  const NOT_VALID: string := "sitemapChangefreqNotValid"
  const INVALID: string := "sitemapChangefreqInvalid"

  /** The accepted change frequencies. */
  const ChangeFreqs: seq<string> := ["always", "hourly", "daily", "weekly", "monthly", "yearly", "never"]

  /** in_array($value, $changeFreqs, true): strict, case-sensitive equality with one entry. */
  predicate IsChangefreq(s: string)
    ensures IsChangefreq(s) ==> 5 <= |s| <= 7
  {
    s in ChangeFreqs
  }

  /** Exactly seven distinct strings are accepted. */
  lemma SevenFrequencies()
    ensures |ChangeFreqs| == 7
    ensures forall i, j | 0 <= i < j < |ChangeFreqs| :: ChangeFreqs[i] != ChangeFreqs[j]
    ensures forall s :: IsChangefreq(s) <==> exists i | 0 <= i < 7 :: s == ChangeFreqs[i]
  {
  }

  /**
   * Every accepted string is made of lower-case ASCII letters only, so any
   * string with a capital, a space or any other character is rejected.
   */
  lemma AcceptedAreLowerCaseLetters(s: string)
    requires IsChangefreq(s)
    ensures 0 < |s| && forall i | 0 <= i < |s| :: 'a' <= s[i] <= 'z'
  {
  }

  lemma CaseAndSpaceMatter()
    ensures IsChangefreq("daily")
    ensures !IsChangefreq("Daily") && !IsChangefreq(" daily") && !IsChangefreq("DAILY")
  {
  }

  /**
   * The validator. The state it keeps is that of its abstract base: the
   * value last recorded by setValue and the error keys recorded by error().
   */
  class Changefreq {
    var value: Option<string>
    var errorKeys: seq<string>

    constructor()
      ensures value == None && errorKeys == []
    {
      value := None;
      errorKeys := [];
    }

    /**
     * isValid: a non-string is rejected with INVALID and never recorded; a
     * string is recorded first, then rejected with NOT_VALID unless it is one
     * of the seven frequencies.
     */
    method IsValid(input: Input) returns (valid: bool)
      modifies this
      ensures valid <==> input.Str? && IsChangefreq(input.s)
      ensures value == if input.Str? then Some(input.s) else old(value)
      ensures errorKeys == old(errorKeys) +
        if input.NonString? then [INVALID] else if valid then [] else [NOT_VALID]
    {
      if !input.Str? {
        errorKeys := errorKeys + [INVALID];
        return false;
      }
      value := Some(input.s);
      if !IsChangefreq(input.s) {
        errorKeys := errorKeys + [NOT_VALID];
        return false;
      }
      return true;
    }
  }
}
