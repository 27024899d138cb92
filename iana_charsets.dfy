/**
 * The character-set check shared by the two IANA policies: a charset is
 * acceptable when it is absent or empty, or when its lower-case form is the
 * lower-case form of a registered name.
 */
module IanaCharsets {
  import opened Wrappers
  import opened JavaText

  /** The outcome of validateCharacterSet: a normal return, or InvalidCharacterSetException with its message. */
  datatype Verdict = Accepted | Rejected(message: string)

  const REJECTION_PREFIX := "not an IANA character set: "

  /** The set the static initialiser builds: each registry name, lower-cased. */
  ghost function LowercaseImage(registry: seq<string>): set<string> {
    set i | 0 <= i < |registry| :: Lower(registry[i])
  }

  /** The static initialiser's loop, adding the lower-cased names one by one. */
  method LowercaseSet(registry: seq<string>) returns (s: set<string>)
    ensures s == LowercaseImage(registry)
  {
    s := {};
    for k := 0 to |registry|
      invariant s == LowercaseImage(registry[..k])
    {
      assert registry[..k + 1] == registry[..k] + [registry[k]];
      assert LowercaseImage(registry[..k + 1]) == LowercaseImage(registry[..k]) + {Lower(registry[k])} by {
        forall x | x in LowercaseImage(registry[..k + 1])
          ensures x in LowercaseImage(registry[..k]) + {Lower(registry[k])}
        {
          var i :| 0 <= i < k + 1 && x == Lower(registry[..k + 1][i]);
          if i < k {
            assert registry[..k][i] == registry[..k + 1][i];
          }
        }
        forall x | x in LowercaseImage(registry[..k])
          ensures x in LowercaseImage(registry[..k + 1])
        {
          var i :| 0 <= i < k && x == Lower(registry[..k][i]);
          assert registry[..k + 1][i] == registry[..k][i];
        }
        assert registry[..k + 1][k] == registry[k];
      }
      s := s + {Lower(registry[k])};
    }
    assert registry[..|registry|] == registry;
  }

  /** validateCharacterSet against the set of known lower-case names; None is Java's null. */
  function Validate(known: set<string>, charSet: Option<string>): (v: Verdict)
    ensures v.Rejected? ==> charSet.Some? && v.message == REJECTION_PREFIX + charSet.value
  {
    match charSet
    case None => Accepted
    case Some(cs) =>
      if cs == "" then Accepted
      else if Lower(cs) !in known then Rejected(REJECTION_PREFIX + cs)
      else Accepted
  }

  /**
   * Against the registry's lower-case image, a charset is accepted exactly
   * when it is null, empty, or equal ignoring case to a registered name.
   */
  lemma ValidateAcceptsRegistered(registry: seq<string>, charSet: Option<string>)
    ensures Validate(LowercaseImage(registry), charSet) == Accepted
        <==> charSet.None? || charSet.value == "" || exists i :: 0 <= i < |registry| && EqualsIgnoreCase(registry[i], charSet.value)
  {
    if charSet.Some? && charSet.value != "" {
      var cs := charSet.value;
      if Lower(cs) in LowercaseImage(registry) {
        var i :| 0 <= i < |registry| && Lower(cs) == Lower(registry[i]);
        EqualsIgnoreCaseIffSameLower(registry[i], cs);
      }
      if exists i :: 0 <= i < |registry| && EqualsIgnoreCase(registry[i], cs) {
        var i :| 0 <= i < |registry| && EqualsIgnoreCase(registry[i], cs);
        EqualsIgnoreCaseIffSameLower(registry[i], cs);
      }
    }
  }

  /** Every registered name, in its registered spelling, is accepted. */
  lemma RegisteredNamesAreAccepted(registry: seq<string>, i: int)
    requires 0 <= i < |registry|
    ensures Validate(LowercaseImage(registry), Some(registry[i])) == Accepted
  {
    assert Lower(registry[i]) in LowercaseImage(registry);
  }

  /** Re-casing a charset never changes whether it is accepted. */
  lemma ValidateIgnoresCase(known: set<string>, a: string, b: string)
    requires EqualsIgnoreCase(a, b)
    ensures Validate(known, Some(a)).Accepted? <==> Validate(known, Some(b)).Accepted?
  {
    EqualsIgnoreCaseIffSameLower(a, b);
  }
}
