/** AllowOnlyIANACharacterSetsPolicy: admits only charsets the IANA registry lists. */
module AllowOnlyIanaPolicy {
  import opened Wrappers
  import opened JavaText
  import opened IanaCharsets

  class AllowOnlyIANACharacterSetsPolicy {
    /** The registry the set was built from (IANACharacterSets.CHARACTER_SETS). */
    ghost const registry: seq<string>
    /** The lower-cased registry names. */
    const ianaCharSets: set<string>

    ghost predicate Valid() {
      ianaCharSets == LowercaseImage(registry)
    }

    constructor(characterSets: seq<string>)
      ensures Valid() && registry == characterSets
    {
      registry := characterSets;
      var s := LowercaseSet(characterSets);
      ianaCharSets := s;
    }

    /** validateCharacterSet: null, empty or registered ignoring case is accepted; anything else is rejected with its name. */
    method ValidateCharacterSet(charSet: Option<string>) returns (v: Verdict)
      requires Valid()
      ensures v == Accepted <==>
        charSet.None? || charSet.value == "" || exists i :: 0 <= i < |registry| && EqualsIgnoreCase(registry[i], charSet.value)
      ensures v.Rejected? ==> v.message == REJECTION_PREFIX + charSet.value
    {
      ValidateAcceptsRegistered(registry, charSet);
      if charSet.None? || charSet.value == "" {
        return Accepted;
      }
      if Lower(charSet.value) !in ianaCharSets {
        return Rejected(REJECTION_PREFIX + charSet.value);
      }
      return Accepted;
    }
  }
}
