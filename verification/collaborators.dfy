/**
 * What the rules borrow from outside the configuration file: the helper
 * module's case tests, URL test, big-block delimiter test and the suffix
 * appended to every message, and the verdict pair every rule returns.
 * The helpers' internals are not part of this model, so they are passed
 * in as values and nothing is assumed about them unless a lemma says so.
 */
module Collaborators {

  /**
   * The helper module's capabilities. The case tests receive what the
   * source passes them, `word[0]`: a one-character string. Where the
   * source indexes past the end of an empty word, JavaScript passes
   * `undefined`; the model passes the empty string in its place.
   */
  datatype Helpers = Helpers(
    isUpperCase: string -> bool,
    isLowerCase: string -> bool,
    isValidUrl: string -> bool,
    isBigBlock: string -> bool,
    errMessageSuffix: string)

  /** No character is both upper case and lower case. */
  ghost predicate CaseTestsExclusive(h: Helpers) {
    forall c :: !(h.isUpperCase(c) && h.isLowerCase(c))
  }

  /** A rule's result: whether the commit message passed, and the message shown. */
  datatype Verdict = Verdict(passed: bool, message: string)

  /** The pair a rule returns: the negated offence and the message with the suffix. */
  function Report(h: Helpers, offence: bool, message: string): (v: Verdict)
    ensures v.passed != offence
    ensures |v.message| == |message| + |h.errMessageSuffix|
  {
    Verdict(!offence, message + h.errMessageSuffix)
  }
}
