/** The Nagios plugin exit statuses the check reports (cmd/root.go). */
module Status {

  const OK: int := 0
  const WARNING: int := 1
  const CRITICAL: int := 2
  const UNKNOWN: int := 3

  /** One of the four statuses a Nagios plugin may exit with. */
  predicate IsStatus(code: int) {
    code == OK || code == WARNING || code == CRITICAL || code == UNKNOWN
  }
}
