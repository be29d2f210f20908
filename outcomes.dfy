/** The vocabulary shared by the three matchers: what one rule says about a request, and
    what a whole scan decides. Go returns `(ok, status, body)`; here the reason a scan
    declined is kept, although every declined scan looks the same to the caller. */
module Outcomes {
  import opened GoBytes

  datatype Reason = MethodNotAccepted | EmptyPattern | BadPattern | FileUnreadable | NoRuleMatched

  /** `ok == true` with its status and body, or `ok == false`. */
  datatype Decision = Patched(status: int, body: Bytes) | Declined(reason: Reason)

  /** One rule's effect on a scan: end it, go on to the next rule, or match. */
  datatype Step = Stop(reason: Reason) | Next | Hit
}
