/**
  The check command as a whole (the Run function of cmd/check.go): validate
  the argument, reverse the address, let one probe per blacklist server
  classify its lookup outcome, and run the decision loop over the order in
  which select serves the probes' reports, the timer and the idle branch.
 */
module Check {

  import opened Wrappers
  import opened Status
  import opened IPv4Address
  import opened Probe
  import opened Decision

  const InvalidInputMessage: string := "Unknown: Please specify a correct ip address."

  /** What select served in one iteration: a server's report, the timer, or nothing. */
  datatype Arrival = Deliver(server: nat) | Tick | Poll

  /** The report of each server's probe, in server order. */
  function Reports(reversed: string, servers: seq<string>, outcomes: seq<LookupOutcome>): (r: seq<DnsInfo>)
    requires |outcomes| == |servers|
    ensures |r| == |servers|
    ensures forall i :: 0 <= i < |r| ==> IsStatus(r[i].returnCode)
    ensures forall i :: 0 <= i < |r| ==> (r[i].returnCode == OK <==> NotListed(outcomes[i]))
    ensures forall i :: 0 <= i < |r| && outcomes[i].error.NoError? ==> r[i].returnCode == CRITICAL
  {
    seq(|servers|, i requires 0 <= i < |servers| => Classify(outcomes[i], servers[i], reversed))
  }

  /** Every report served belongs to one of the `n` servers. */
  ghost predicate InRange(schedule: seq<Arrival>, n: nat) {
    forall j :: 0 <= j < |schedule| && schedule[j].Deliver? ==> schedule[j].server < n
  }

  /** No server's report is served twice: each probe sends exactly one report. */
  ghost predicate DeliveredOnce(schedule: seq<Arrival>) {
    forall j, k :: 0 <= j < k < |schedule| && schedule[j].Deliver? && schedule[k].Deliver? ==>
      schedule[j].server != schedule[k].server
  }

  /** The timer channel is written once, so it is served at most once. */
  ghost predicate TickedOnce(schedule: seq<Arrival>) {
    forall j, k :: 0 <= j < k < |schedule| && schedule[j].Tick? ==> !schedule[k].Tick?
  }

  ghost predicate WellFormed(schedule: seq<Arrival>, n: nat) {
    InRange(schedule, n) && DeliveredOnce(schedule) && TickedOnce(schedule)
  }

  function EventOf(reports: seq<DnsInfo>, a: Arrival): Event
    requires a.Deliver? ==> a.server < |reports|
  {
    match a
    case Deliver(i) => Result(reports[i])
    case Tick => Timeout
    case Poll => Idle
  }

  /** The events the decision loop sees for a schedule. */
  function Events(reports: seq<DnsInfo>, schedule: seq<Arrival>): (es: seq<Event>)
    requires InRange(schedule, |reports|)
    ensures |es| == |schedule|
    ensures forall j :: 0 <= j < |es| ==> (es[j].Timeout? <==> schedule[j].Tick?)
    ensures forall j :: 0 <= j < |es| ==> (es[j].Idle? <==> schedule[j].Poll?)
    ensures forall j :: 0 <= j < |es| ==>
              (IsOkResult(es[j]) <==> schedule[j].Deliver? && reports[schedule[j].server].returnCode == OK)
    ensures forall j :: 0 <= j < |es| ==>
              (Decisive(es[j]) <==> schedule[j].Tick?
                                     || (schedule[j].Deliver? && reports[schedule[j].server].returnCode in {WARNING, CRITICAL, UNKNOWN}))
  {
    seq(|schedule|, j requires 0 <= j < |schedule| => EventOf(reports, schedule[j]))
  }

  /**
    The check command. An invalid argument exits 3 before any probe or timer
    exists; otherwise the loop starts with one pending probe per server.
   */
  function Run(args: seq<string>, parseV4: string -> Option<IPv4>, servers: seq<string>,
               outcomes: seq<LookupOutcome>, suppressCrit: bool, schedule: seq<Arrival>): (v: Verdict)
    requires |outcomes| == |servers| && InRange(schedule, |servers|)
    ensures v.Exited? ==> IsStatus(v.code)
    ensures v.Exited? && v.consumed == 0 <==> IsIPInputValid(args, parseV4).1 != OK
    ensures v.Exited? && v.consumed == 0 ==> v.code == UNKNOWN && v.message == InvalidInputMessage
  {
    var (ip, status) := IsIPInputValid(args, parseV4);
    if status != OK then Exited(UNKNOWN, InvalidInputMessage, 0)
    else
      var reports := Reports(ReverseIPString(ip.value), servers, outcomes);
      Loop(|servers|, suppressCrit, Events(reports, schedule))
  }

  /**
    A missing argument, or one that is not IPv4, makes validation answer
    WARNING, yet the command exits UNKNOWN without consuming any event.
   */
  lemma InvalidInputExitsUnknown(args: seq<string>, parseV4: string -> Option<IPv4>, servers: seq<string>,
                                 outcomes: seq<LookupOutcome>, suppressCrit: bool, schedule: seq<Arrival>)
    requires |outcomes| == |servers| && InRange(schedule, |servers|)
    requires |args| == 0 || parseV4(args[0]).None?
    ensures IsIPInputValid(args, parseV4).1 == WARNING
    ensures Run(args, parseV4, servers, outcomes, suppressCrit, schedule) == Exited(UNKNOWN, InvalidInputMessage, 0)
  {
  }

  /** The servers whose probe found the address not listed. */
  ghost function NotListedServers(outcomes: seq<LookupOutcome>): set<nat>
  {
    set i: nat | i < |outcomes| && NotListed(outcomes[i])
  }

  /** Servers whose OK report is served in the schedule. */
  ghost function DeliveredOk(reports: seq<DnsInfo>, schedule: seq<Arrival>): (s: set<nat>)
    requires InRange(schedule, |reports|)
    ensures forall x :: x in s ==> x < |reports| && reports[x].returnCode == OK
    ensures forall x :: x in s ==> exists j :: 0 <= j < |schedule| && schedule[j] == Deliver(x)
    decreases |schedule|
  {
    if |schedule| == 0 then {}
    else
      var u := schedule[..|schedule| - 1];
      var a := schedule[|schedule| - 1];
      assert InRange(u, |reports|);
      var before := DeliveredOk(reports, u);
      assert forall x :: x in before ==> exists j :: 0 <= j < |schedule| && schedule[j] == Deliver(x) by {
        forall x | x in before ensures exists j :: 0 <= j < |schedule| && schedule[j] == Deliver(x) {
          var j :| 0 <= j < |u| && u[j] == Deliver(x);
          assert schedule[j] == u[j];
        }
      }
      if a.Deliver? && reports[a.server].returnCode == OK then before + {a.server} else before
  }

  /** The last arrival adds one to the OK count exactly when it serves an OK report. */
  lemma CountOkStep(reports: seq<DnsInfo>, schedule: seq<Arrival>)
    requires InRange(schedule, |reports|) && |schedule| > 0
    ensures InRange(schedule[..|schedule| - 1], |reports|)
    ensures var a := schedule[|schedule| - 1];
            CountOk(Events(reports, schedule))
            == CountOk(Events(reports, schedule[..|schedule| - 1]))
               + if a.Deliver? && reports[a.server].returnCode == OK then 1 else 0
  {
    var es := Events(reports, schedule);
    EventsPrefix(reports, schedule, |schedule| - 1);
    CountOkLast(es);
  }

  /**
    The last arrival adds its server to the delivered OK servers exactly when
    it serves an OK report, and that server is new when no report is served twice.
   */
  lemma DeliveredOkStep(reports: seq<DnsInfo>, schedule: seq<Arrival>)
    requires InRange(schedule, |reports|) && DeliveredOnce(schedule) && |schedule| > 0
    ensures InRange(schedule[..|schedule| - 1], |reports|)
    ensures var a := schedule[|schedule| - 1];
            var before := DeliveredOk(reports, schedule[..|schedule| - 1]);
            if a.Deliver? && reports[a.server].returnCode == OK
            then a.server !in before && DeliveredOk(reports, schedule) == before + {a.server}
            else DeliveredOk(reports, schedule) == before
  {
    var u := schedule[..|schedule| - 1];
    var a := schedule[|schedule| - 1];
    assert InRange(u, |reports|);
    if a.Deliver? {
      forall j | 0 <= j < |u| ensures u[j] != Deliver(a.server) {
        assert u[j] == schedule[j];
      }
    }
  }

  /** Because no report is served twice, the OK reports counted are as many as the servers they come from. */
  lemma {:induction false} CountOkIsServers(reports: seq<DnsInfo>, schedule: seq<Arrival>)
    requires InRange(schedule, |reports|) && DeliveredOnce(schedule)
    ensures CountOk(Events(reports, schedule)) == |DeliveredOk(reports, schedule)|
    decreases |schedule|
  {
    if |schedule| > 0 {
      var u := schedule[..|schedule| - 1];
      assert DeliveredOnce(u);
      CountOkStep(reports, schedule);
      DeliveredOkStep(reports, schedule);
      CountOkIsServers(reports, u);
    }
  }

  lemma {:induction false} SubsetSize(a: set<nat>, b: set<nat>)
    requires a <= b
    ensures |a| <= |b|
  {
    assert b == a + (b - a);
  }

  /** The events of a prefix of a schedule are the prefix of its events. */
  lemma EventsPrefix(reports: seq<DnsInfo>, schedule: seq<Arrival>, k: nat)
    requires InRange(schedule, |reports|) && k <= |schedule|
    ensures InRange(schedule[..k], |reports|)
    ensures Events(reports, schedule)[..k] == Events(reports, schedule[..k])
  {
  }

  /** Servers whose OK report was served are servers whose lookup found the address not listed. */
  lemma DeliveredOkAreNotListed(reversed: string, servers: seq<string>, outcomes: seq<LookupOutcome>,
                                schedule: seq<Arrival>)
    requires |outcomes| == |servers| && InRange(schedule, |servers|)
    ensures DeliveredOk(Reports(reversed, servers, outcomes), schedule) <= NotListedServers(outcomes)
  {
  }

  /**
    Exit 0 with every probe reporting at most once means at most one server
    is not known to leave the address unlisted: the loop stops at n - 1.
   */
  lemma ExitOkLeavesAtMostOneUnconfirmed(reversed: string, servers: seq<string>, outcomes: seq<LookupOutcome>,
                                         suppressCrit: bool, schedule: seq<Arrival>)
    requires |outcomes| == |servers| && WellFormed(schedule, |servers|)
    requires var v := Loop(|servers|, suppressCrit, Events(Reports(reversed, servers, outcomes), schedule));
             v.Exited? && v.code == OK
    ensures |NotListedServers(outcomes)| >= |servers| - 1
  {
    var reports := Reports(reversed, servers, outcomes);
    var events := Events(reports, schedule);
    var n := |servers|;
    ExitOkMeansDrained(n, suppressCrit, events);
    var k := Loop(n, suppressCrit, events).consumed;
    assert 1 <= k <= |schedule|;
    assert CountOk(events[..k - 1]) >= n - 1;
    var prefix := schedule[..k - 1];
    EventsPrefix(reports, schedule, k - 1);
    assert CountOk(Events(reports, prefix)) >= n - 1;
    assert DeliveredOnce(prefix);
    CountOkIsServers(reports, prefix);
    DeliveredOkAreNotListed(reversed, servers, outcomes, prefix);
    SubsetSize(DeliveredOk(reports, prefix), NotListedServers(outcomes));
  }

  /**
    The command itself: an exit 0 means that at least n - 1 servers found
    the address not listed, whatever the order of arrivals.
   */
  lemma RunExitOkLeavesAtMostOneUnconfirmed(args: seq<string>, parseV4: string -> Option<IPv4>, servers: seq<string>,
                                            outcomes: seq<LookupOutcome>, suppressCrit: bool, schedule: seq<Arrival>)
    requires |outcomes| == |servers| && WellFormed(schedule, |servers|)
    ensures var v := Run(args, parseV4, servers, outcomes, suppressCrit, schedule);
            v.Exited? && v.code == OK ==> |NotListedServers(outcomes)| >= |servers| - 1
  {
    var v := Run(args, parseV4, servers, outcomes, suppressCrit, schedule);
    if v.Exited? && v.code == OK {
      var ip := IsIPInputValid(args, parseV4).0;
      ExitOkLeavesAtMostOneUnconfirmed(ReverseIPString(ip.value), servers, outcomes, suppressCrit, schedule);
    }
  }

  /**
    The quirk of the `pending <= 1` test: with one server that lists the
    address, an idle iteration before its report arrives exits 0.
   */
  lemma ListedAddressCanExitOk(ip: IPv4, domain: string, suppressCrit: bool)
    ensures var outcomes := [LookupOutcome(["127.0.0.2"], NoError)];
            && Classify(outcomes[0], domain, ReverseIPString(ip)).returnCode == CRITICAL
            && Loop(1, suppressCrit, Events(Reports(ReverseIPString(ip), [domain], outcomes), [Poll]))
               == Exited(OK, OkMessage, 1)
  {
    var outcomes := [LookupOutcome(["127.0.0.2"], NoError)];
    var events := Events(Reports(ReverseIPString(ip), [domain], outcomes), [Poll]);
    SmallListExitsAtFirstIdle(1, suppressCrit, events);
  }

  /**
    When every server finds the address not listed, serving at least n - 1
    of the reports and then an idle iteration exits 0.
   */
  lemma AllNotListedExitsOk(ip: IPv4, servers: seq<string>, outcomes: seq<LookupOutcome>,
                            suppressCrit: bool, delivered: seq<Arrival>)
    requires |outcomes| == |servers| && InRange(delivered, |servers|)
    requires forall i :: 0 <= i < |outcomes| ==> NotListed(outcomes[i])
    requires forall j :: 0 <= j < |delivered| ==> delivered[j].Deliver?
    requires |delivered| >= |servers| - 1
    ensures var reports := Reports(ReverseIPString(ip), servers, outcomes);
            Loop(|servers|, suppressCrit, Events(reports, delivered + [Poll])) == Exited(OK, OkMessage, |delivered| + 1)
  {
    var reports := Reports(ReverseIPString(ip), servers, outcomes);
    var schedule := delivered + [Poll];
    assert InRange(schedule, |reports|);
    var events := Events(reports, schedule);
    assert events == Events(reports, delivered) + [Idle];
    OkReportsThenIdle(|servers|, suppressCrit, Events(reports, delivered));
  }

  /**
    A server that lists the address, served before the loop has exited,
    decides the outcome: exit 2, or 1 when suppressed.
   */
  lemma ListedServerDecides(ip: IPv4, servers: seq<string>, outcomes: seq<LookupOutcome>,
                            suppressCrit: bool, schedule: seq<Arrival>, i: nat)
    requires |outcomes| == |servers| && InRange(schedule, |servers|)
    requires i < |schedule| && schedule[i].Deliver?
    requires outcomes[schedule[i].server].error.NoError?
    requires var reports := Reports(ReverseIPString(ip), servers, outcomes);
             Quiet(|servers|, Events(reports, schedule)[..i])
    ensures var v := Loop(|servers|, suppressCrit, Events(Reports(ReverseIPString(ip), servers, outcomes), schedule));
            v.Exited? && v.code == (if suppressCrit then WARNING else CRITICAL) && v.consumed == i + 1
  {
    var reports := Reports(ReverseIPString(ip), servers, outcomes);
    FirstBadReportDecides(|servers|, suppressCrit, Events(reports, schedule), i);
  }
}
