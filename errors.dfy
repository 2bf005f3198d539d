/** How `ask_gemini` turns the text of a failed call into the message it
    shows: five kinds, tested in a fixed order, the first match winning. */
module GeminiErrors {
  import opened Text

  datatype ErrorKind = AuthInvalid | QuotaExceeded | ResourceExhausted | BillingIssue | Unknown

  /** The position of a kind's test in the chain; `Unknown` is the fall-through. */
  function Rank(k: ErrorKind): nat {
    match k
    case AuthInvalid => 0
    case QuotaExceeded => 1
    case ResourceExhausted => 2
    case BillingIssue => 3
    case Unknown => 4
  }

  /** The test that selects each kind, on its own: two of them are
      case-sensitive, two compare against the lowered message. */
  predicate Detects(k: ErrorKind, message: string) {
    match k
    case AuthInvalid => Contains(message, "API key not valid")
    case QuotaExceeded => Contains(Lower(message), "quota")
    case ResourceExhausted => Contains(message, "Resource has been exhausted")
    case BillingIssue => Contains(Lower(message), "billing account")
    case Unknown => true
  }

  /** The kind of a failure: the first kind, in test order, whose test
      matches the message. */
  function Classify(message: string): (k: ErrorKind)
    ensures Detects(k, message)
    ensures forall e :: Rank(e) < Rank(k) ==> !Detects(e, message)
  {
    if Contains(message, "API key not valid") then AuthInvalid
    else if Contains(Lower(message), "quota") then QuotaExceeded
    else if Contains(message, "Resource has been exhausted") then ResourceExhausted
    else if Contains(Lower(message), "billing account") then BillingIssue
    else Unknown
  }

  /** A message that mentions a quota in any letter case, such as the
      service's usual "429 Resource has been exhausted (e.g. check quota).",
      is reported as a quota error even when it also says the resource has
      been exhausted: the resource-exhausted test only sees messages that do
      not mention a quota. */
  lemma QuotaShadowsResourceExhausted(message: string)
    requires !Contains(message, "API key not valid")
    requires Contains(Lower(message), "quota")
    ensures Classify(message) == QuotaExceeded
    ensures Classify(message) != ResourceExhausted
  {
  }
}
