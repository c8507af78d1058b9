/**
  The per-probe logic of cmd/check.go: validating the command-line address,
  reversing it for a DNS blacklist query (section 2.1 of RFC 5782), and
  classifying the outcome of one blacklist lookup into a status and a message.
 */
module Probe {

  import opened Wrappers
  import opened Status
  import Separated
  import opened IPv4Address

  /** A status code with its message; what a probe reports to the decision loop. */
  datatype DnsInfo = DnsInfo(returnCode: int, message: string)

  /**
    The error half of a host lookup. `DnsError` is a *net.DNSError: its Err
    text, its Timeout() and Temporary() answers and its Error() text;
    `OtherError` is any error of another type.
   */
  datatype LookupError =
    | NoError
    | DnsError(err: string, isTimeout: bool, isTemporary: bool, text: string)
    | OtherError(text: string)

  /** What a host lookup returned: the addresses found and the error, if any. */
  datatype LookupOutcome = LookupOutcome(records: seq<string>, error: LookupError)

  const NoSuchHost: string := "no such host"

  /** The lookup said the name does not exist: the address is not listed. */
  predicate NotListed(o: LookupOutcome) {
    o.error.DnsError? && o.error.err == NoSuchHost && |o.records| == 0
  }

  /** `sub` occurs in `s` at position `k`. */
  predicate OccursAt(sub: string, s: string, k: nat) {
    k + |sub| <= |s| && s[k..k + |sub|] == sub
  }

  /**
    Validation of the positional arguments. `parseV4` stands for
    net.ParseIP(...).To4(), which yields an address only for IPv4 text.
   */
  function IsIPInputValid(input: seq<string>, parseV4: string -> Option<IPv4>): (r: (Option<IPv4>, int))
    ensures r.1 == OK || r.1 == WARNING
    ensures r.1 == OK <==> |input| > 0 && parseV4(input[0]).Some?
    ensures r.1 == OK ==> r.0 == parseV4(input[0])
    ensures r.1 != OK ==> r.0 == None
  {
    if |input| <= 0 then (None, WARNING)
    else
      var parsed := parseV4(input[0]);
      if parsed.None? then (None, WARNING) else (parsed, OK)
  }

  /**
    The address with its four dotted components in reverse order. The
    components are those of the address's text, split at dots; the caller
    guarantees there are at least four (Go would panic otherwise).
   */
  function ReverseComponents(s: string): (r: string)
    requires |Separated.Split(s, '.')| >= 4
    ensures var p := Separated.Split(s, '.'); Separated.Split(r, '.') == [p[3], p[2], p[1], p[0]]
    ensures Separated.Count(r, '.') == 3
  {
    var p := Separated.Split(s, '.');
    var r := p[3] + "." + p[2] + "." + p[1] + "." + p[0];
    Separated.JoinFour([p[3], p[2], p[1], p[0]], '.');
    Separated.SplitJoin([p[3], p[2], p[1], p[0]], '.');
    r
  }

  /** reverseIPString: the dotted-quad text of the address, octets reversed. */
  function ReverseIPString(ip: IPv4): (r: string)
    ensures r == ToString(Reversed(ip))
    ensures Separated.Split(r, '.') == [Components(ip)[3], Components(ip)[2], Components(ip)[1], Components(ip)[0]]
  {
    var r := ReverseComponents(ToString(ip));
    Separated.JoinSplit(r, '.');
    r
  }

  /** Reversing the components twice restores any four-component text. */
  lemma ReverseComponentsTwice(s: string)
    requires |Separated.Split(s, '.')| == 4
    ensures ReverseComponents(ReverseComponents(s)) == s
  {
    var p := Separated.Split(s, '.');
    Separated.JoinSplit(s, '.');
    Separated.JoinFour(p, '.');
  }

  /** Reversing the text of a reversed address gives the original text. */
  lemma ReverseIPStringTwice(ip: IPv4)
    ensures ReverseComponents(ReverseIPString(ip)) == ToString(ip)
    ensures ReverseIPString(Reversed(ip)) == ToString(ip)
  {
    ReverseComponentsTwice(ToString(ip));
  }

  /** The name looked up for one blacklist: reversed address, a dot, the domain. */
  function QueryName(reversed: string, domain: string): string
  {
    reversed + "." + domain
  }

  /**
    The query name of an address is its four octets in reverse order, each
    a label of its own, followed by the labels of the blacklist domain.
   */
  lemma QueryNameLabels(ip: IPv4, domain: string)
    ensures Separated.Split(QueryName(ReverseIPString(ip), domain), '.')
         == [Components(ip)[3], Components(ip)[2], Components(ip)[1], Components(ip)[0]]
            + Separated.Split(domain, '.')
  {
    var rev := Reversed(ip);
    Separated.SplitJoinThen(Components(rev), '.', domain);
  }

  /**
    fmt's %s rendering of a []string: the elements separated by single
    spaces, in brackets. For elements without spaces, the text between the
    brackets splits at spaces back into the elements.
   */
  function RenderRecords(records: seq<string>): (s: string)
    ensures |s| >= 2 && s[0] == '[' && s[|s| - 1] == ']'
    ensures |records| == 0 ==> s == "[]"
    ensures |records| >= 1 && Separated.Free(records, ' ') ==> Separated.Split(s[1..|s| - 1], ' ') == records
  {
    var inner := if |records| == 0 then "" else Separated.Join(records, ' ');
    var s := "[" + inner + "]";
    assert s[1..|s| - 1] == inner;
    if |records| >= 1 && Separated.Free(records, ' ') then Separated.SplitJoin(records, ' '); s else s
  }

  const NotListedText: string := " is not listed on blacklistdomain:"
  const ListedText: string := " is listed on the blacklist with domain "
  const TemporaryText: string := "A temporary failure was detected with error: "

  /**
    checkIPAgainstBlacklistDomain without the lookup and the channel: the
    one DnsInfo a lookup outcome is reported as.
   */
  function Classify(o: LookupOutcome, domain: string, reversed: string): (r: DnsInfo)
    ensures IsStatus(r.returnCode)
    ensures r.returnCode == OK <==> NotListed(o)
    ensures r.returnCode == WARNING <==> !NotListed(o) && o.error.DnsError? && o.error.isTimeout
    ensures r.returnCode == UNKNOWN <==>
              !NotListed(o) && o.error.DnsError? && !o.error.isTimeout && o.error.isTemporary
    ensures r.returnCode == CRITICAL <==>
              !o.error.DnsError? || (!NotListed(o) && !o.error.isTimeout && !o.error.isTemporary)
    // The OK and CRITICAL messages name the reversed address first, then the domain.
    ensures r.returnCode in {OK, CRITICAL} ==>
              OccursAt(reversed, r.message, 0) && OccursAt(domain, r.message, |reversed| + |if r.returnCode == OK then NotListedText else ListedText|)
    ensures r.returnCode == CRITICAL ==>
              var records := RenderRecords(o.records);
              |r.message| >= |records| && r.message[|r.message| - |records|..] == records
    ensures r.returnCode == WARNING ==> r.message == o.error.text
    ensures r.returnCode == UNKNOWN ==> r.message == TemporaryText + o.error.text
  {
    if NotListed(o) then
      DnsInfo(OK, reversed + NotListedText + domain)
    else if o.error.DnsError? && o.error.isTimeout then
      DnsInfo(WARNING, o.error.text)
    else if o.error.DnsError? && o.error.isTemporary then
      DnsInfo(UNKNOWN, TemporaryText + o.error.text)
    else
      DnsInfo(CRITICAL, reversed + ListedText + domain + " by " + RenderRecords(o.records))
  }

  /** A lookup that succeeded means the address is listed: CRITICAL. */
  lemma SuccessfulLookupIsCritical(records: seq<string>, domain: string, reversed: string)
    ensures Classify(LookupOutcome(records, NoError), domain, reversed).returnCode == CRITICAL
  {
  }

  /** An error that is not a DNS error is reported CRITICAL, not UNKNOWN. */
  lemma OtherErrorIsCritical(records: seq<string>, text: string, domain: string, reversed: string)
    ensures Classify(LookupOutcome(records, OtherError(text)), domain, reversed).returnCode == CRITICAL
  {
  }

  /**
    The priority order: "no such host" with no records beats the timeout
    flag, and the timeout flag beats the temporary flag.
   */
  lemma ClassifyPriority(err: string, text: string, records: seq<string>, domain: string, reversed: string)
    ensures Classify(LookupOutcome([], DnsError(NoSuchHost, true, true, text)), domain, reversed).returnCode == OK
    ensures err != NoSuchHost || |records| > 0 ==>
              Classify(LookupOutcome(records, DnsError(err, true, true, text)), domain, reversed).returnCode == WARNING
  {
  }
}
