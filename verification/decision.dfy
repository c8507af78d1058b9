/**
  The decision loop of the check command (cmd/check.go), with the
  goroutines, channels and select taken out. What remains is a state
  machine over a counter of pending probes: each loop iteration consumes one
  event (a probe's report, the timer firing, or no channel being ready) and
  either continues with a new counter or exits with a Nagios status. Which
  event select picks is not modelled; every property below holds for every
  order of events.
 */
module Decision {

  import opened Status
  import Decimal
  import opened Probe

  /** One iteration of the select: a report arrived, the timer fired, or nothing was ready. */
  datatype Event = Result(info: DnsInfo) | Timeout | Idle

  /** What one iteration does: continue with a pending count, or exit. */
  datatype Transition = Continue(pending: int) | Exit(code: int, message: string)

  /**
    Where a sequence of events leaves the loop: exited with a status and the
    line it logged after consuming `consumed` events, or still waiting.
   */
  datatype Verdict = Exited(code: int, message: string, consumed: nat) | Waiting(pending: int)

  /** The line log.Println writes for two operands, without timestamp and newline. */
  function Println(a: string, b: string): string
  {
    a + " " + b
  }

  const OkMessage: string := "Ok: The IP isn't blacklisted."

  /** The warning logged when the timer fires, naming the pending count. */
  function TimeoutMessage(pending: int): string
  {
    "Warning: Timeout is reached but " + Decimal.IntToDecimal(pending)
    + " dns blacklist crawler were still working."
  }

  /** A report or timer event that ends the loop whatever the counter is. */
  predicate Decisive(e: Event) {
    e.Timeout? || (e.Result? && e.info.returnCode in {WARNING, CRITICAL, UNKNOWN})
  }

  /** A report of a probe that found the address not listed. */
  predicate IsOkResult(e: Event) {
    e.Result? && e.info.returnCode == OK
  }

  /** The exit status a decisive report leads to. */
  function ReportedStatus(returnCode: int, suppressCrit: bool): int
  {
    if returnCode == CRITICAL && suppressCrit then WARNING else returnCode
  }

  /** One iteration of the loop in cmd/check.go. */
  function Next(pending: int, suppressCrit: bool, e: Event): (t: Transition)
    ensures t.Exit? <==> Decisive(e) || (e.Idle? && pending <= 1)
    ensures t.Exit? ==> IsStatus(t.code)
    ensures t.Exit? ==> (t.code == OK <==> e.Idle?)
    ensures t.Exit? && e.Result? ==> t.code == ReportedStatus(e.info.returnCode, suppressCrit)
    ensures t.Exit? && e.Result? ==>
              |t.message| >= |e.info.message| && t.message[|t.message| - |e.info.message|..] == e.info.message
    ensures t.Exit? && e.Timeout? ==> t.code == WARNING && t.message == TimeoutMessage(pending)
    ensures t.Exit? && e.Idle? ==> t.message == OkMessage
    ensures t.Continue? ==> t.pending == if IsOkResult(e) then pending - 1 else pending
  {
    match e
    case Result(info) =>
      if info.returnCode == WARNING then Exit(WARNING, Println("Warning: ", info.message))
      else if info.returnCode == UNKNOWN then Exit(UNKNOWN, Println("Unknown: ", info.message))
      else if info.returnCode == CRITICAL then
        if suppressCrit then Exit(WARNING, Println("Warning: ", info.message))
        else Exit(CRITICAL, Println("Critical: ", info.message))
      else if info.returnCode == OK then Continue(pending - 1)
      else Continue(pending)
    case Timeout => Exit(WARNING, TimeoutMessage(pending))
    case Idle => if pending <= 1 then Exit(OK, OkMessage) else Continue(pending)
  }

  /** The loop run over a sequence of events, starting with `n` pending probes. */
  function Loop(n: nat, suppressCrit: bool, events: seq<Event>): (v: Verdict)
    ensures v.Exited? ==> 1 <= v.consumed <= |events| && IsStatus(v.code)
    decreases |events|
  {
    if |events| == 0 then Waiting(n)
    else
      var before := Loop(n, suppressCrit, events[..|events| - 1]);
      match before
      case Exited(_, _, _) => before
      case Waiting(p) =>
        match Next(p, suppressCrit, events[|events| - 1])
        case Exit(code, message) => Exited(code, message, |events|)
        case Continue(p') => Waiting(p')
  }

  /** Number of reports of probes that found the address not listed. */
  function CountOk(events: seq<Event>): (k: nat)
    ensures k <= |events|
    decreases |events|
  {
    if |events| == 0 then 0
    else CountOk(events[..|events| - 1]) + if IsOkResult(events[|events| - 1]) then 1 else 0
  }

  /** The count of a non-empty sequence: that of all but the last event, plus the last. */
  lemma CountOkLast(events: seq<Event>)
    requires |events| > 0
    ensures CountOk(events) == CountOk(events[..|events| - 1]) + if IsOkResult(events[|events| - 1]) then 1 else 0
  {
  }

  /**
    No event of the sequence ends the loop: nothing decisive, and every idle
    iteration saw more than one pending probe.
   */
  ghost predicate Quiet(n: nat, events: seq<Event>)
    decreases |events|
  {
    || |events| == 0
    || var before := events[..|events| - 1];
       var e := events[|events| - 1];
       Quiet(n, before) && !Decisive(e) && (e.Idle? ==> n - CountOk(before) > 1)
  }

  /** No event that kept the loop waiting was decisive. */
  lemma {:induction false} QuietNotDecisive(n: nat, events: seq<Event>)
    requires Quiet(n, events)
    ensures forall j :: 0 <= j < |events| ==> !Decisive(events[j])
    decreases |events|
  {
    if |events| > 0 {
      var before := events[..|events| - 1];
      QuietNotDecisive(n, before);
      assert forall j :: 0 <= j < |before| ==> before[j] == events[j];
    }
  }

  /**
    The loop is still waiting exactly when no event ended it, and then the
    counter is the number of probes minus the OK reports consumed.
   */
  lemma {:induction false} WaitingIffQuiet(n: nat, suppressCrit: bool, events: seq<Event>)
    ensures Loop(n, suppressCrit, events).Waiting? <==> Quiet(n, events)
    ensures Loop(n, suppressCrit, events).Waiting? ==>
              Loop(n, suppressCrit, events).pending == n - CountOk(events)
    decreases |events|
  {
    if |events| > 0 {
      WaitingIffQuiet(n, suppressCrit, events[..|events| - 1]);
    }
  }

  /** Once the loop has exited, later events change nothing. */
  lemma {:induction false} ExitIsFinal(n: nat, suppressCrit: bool, events: seq<Event>, k: nat)
    requires k <= |events|
    requires Loop(n, suppressCrit, events[..k]).Exited?
    ensures Loop(n, suppressCrit, events) == Loop(n, suppressCrit, events[..k])
    decreases |events| - k
  {
    if k < |events| {
      assert events[..|events| - 1][..k] == events[..k];
      ExitIsFinal(n, suppressCrit, events[..|events| - 1], k);
    } else {
      assert events[..k] == events;
    }
  }

  /**
    The loop exits at event k (counting from 1) exactly when the first k - 1
    events kept it waiting and event k ends it; the exit is the one event k
    produces from the counter reached so far.
   */
  lemma ExitAt(n: nat, suppressCrit: bool, events: seq<Event>, k: nat)
    requires 1 <= k <= |events|
    requires Quiet(n, events[..k - 1])
    requires Next(n - CountOk(events[..k - 1]), suppressCrit, events[k - 1]).Exit?
    ensures var t := Next(n - CountOk(events[..k - 1]), suppressCrit, events[k - 1]);
            Loop(n, suppressCrit, events) == Exited(t.code, t.message, k)
  {
    var t := Next(n - CountOk(events[..k - 1]), suppressCrit, events[k - 1]);
    StepAfterQuiet(n, suppressCrit, events, k - 1);
    assert Loop(n, suppressCrit, events[..k]) == Exited(t.code, t.message, k);
    ExitIsFinal(n, suppressCrit, events, k);
  }

  /** After events that kept the loop waiting, the next event acts on the counter reached. */
  lemma StepAfterQuiet(n: nat, suppressCrit: bool, events: seq<Event>, i: nat)
    requires i < |events| && Quiet(n, events[..i])
    ensures Loop(n, suppressCrit, events[..i + 1])
         == match Next(n - CountOk(events[..i]), suppressCrit, events[i])
            case Exit(code, message) => Exited(code, message, i + 1)
            case Continue(p) => Waiting(p)
  {
    WaitingIffQuiet(n, suppressCrit, events[..i]);
    var p := events[..i + 1];
    assert p[..|p| - 1] == events[..i] && p[|p| - 1] == events[i];
  }

  /** The converse of ExitAt: every exit happens that way. */
  lemma ExitedAt(n: nat, suppressCrit: bool, events: seq<Event>)
    requires Loop(n, suppressCrit, events).Exited?
    ensures var v := Loop(n, suppressCrit, events);
            && Quiet(n, events[..v.consumed - 1])
            && Next(n - CountOk(events[..v.consumed - 1]), suppressCrit, events[v.consumed - 1])
               == Exit(v.code, v.message)
  {
    var k := FirstExit(n, suppressCrit, events);
    ExitAt(n, suppressCrit, events, k);
  }

  /** The index at which the loop first exits. */
  lemma {:induction false} FirstExit(n: nat, suppressCrit: bool, events: seq<Event>) returns (k: nat)
    requires Loop(n, suppressCrit, events).Exited?
    ensures 1 <= k <= |events|
    ensures Quiet(n, events[..k - 1])
    ensures Next(n - CountOk(events[..k - 1]), suppressCrit, events[k - 1]).Exit?
    decreases |events|
  {
    var u := events[..|events| - 1];
    if Loop(n, suppressCrit, u).Exited? {
      k := FirstExit(n, suppressCrit, u);
      PrefixOfPrefix(events, k);
    } else {
      k := |events|;
      ExitAtLast(n, suppressCrit, events);
    }
  }

  /** The first k events of the sequence without its last one are its first k events. */
  lemma PrefixOfPrefix(events: seq<Event>, k: nat)
    requires 1 <= k < |events|
    ensures events[..|events| - 1][..k - 1] == events[..k - 1]
    ensures events[..|events| - 1][k - 1] == events[k - 1]
  {
  }

  /** A loop still waiting before the last event exits at that event. */
  lemma ExitAtLast(n: nat, suppressCrit: bool, events: seq<Event>)
    requires |events| > 0 && Loop(n, suppressCrit, events).Exited?
    requires Loop(n, suppressCrit, events[..|events| - 1]).Waiting?
    ensures Quiet(n, events[..|events| - 1])
    ensures Next(n - CountOk(events[..|events| - 1]), suppressCrit, events[|events| - 1]).Exit?
  {
    var u := events[..|events| - 1];
    WaitingIffQuiet(n, suppressCrit, u);
  }

  /**
    Exit 0 is reached only at an idle iteration, after at least n - 1 OK
    reports and no other report and no timer event.
   */
  lemma ExitOkMeansDrained(n: nat, suppressCrit: bool, events: seq<Event>)
    requires Loop(n, suppressCrit, events).Exited? && Loop(n, suppressCrit, events).code == OK
    ensures var k := Loop(n, suppressCrit, events).consumed;
            && events[k - 1].Idle?
            && CountOk(events[..k - 1]) >= n - 1
            && Loop(n, suppressCrit, events).message == OkMessage
            && forall j :: 0 <= j < k ==> !Decisive(events[j])
  {
    ExitedAt(n, suppressCrit, events);
    var k := Loop(n, suppressCrit, events).consumed;
    QuietNotDecisive(n, events[..k - 1]);
    assert forall j :: 0 <= j < k - 1 ==> events[..k - 1][j] == events[j];
  }

  /** With suppression on, CRITICAL (exit 2) is never the outcome. */
  lemma SuppressedNeverCritical(n: nat, events: seq<Event>)
    requires Loop(n, true, events).Exited?
    ensures Loop(n, true, events).code != CRITICAL
  {
    ExitedAt(n, true, events);
  }

  /**
    The first non-OK report ends the loop at once: WARNING exits 1, UNKNOWN
    exits 3, CRITICAL exits 2, or 1 when suppressed, and the logged line ends
    with the report's message.
   */
  lemma FirstBadReportDecides(n: nat, suppressCrit: bool, events: seq<Event>, i: nat)
    requires i < |events| && Quiet(n, events[..i])
    requires events[i].Result? && events[i].info.returnCode in {WARNING, CRITICAL, UNKNOWN}
    ensures var v := Loop(n, suppressCrit, events);
            && v.Exited? && v.consumed == i + 1
            && v.code == (if events[i].info.returnCode == CRITICAL && suppressCrit then WARNING
                          else events[i].info.returnCode)
            && |v.message| >= |events[i].info.message|
            && v.message[|v.message| - |events[i].info.message|..] == events[i].info.message
  {
    assert events[..i + 1 - 1] == events[..i];
    ExitAt(n, suppressCrit, events, i + 1);
  }

  /** A timer event ends the loop with WARNING, reporting the pending count. */
  lemma TimeoutReportsPending(n: nat, suppressCrit: bool, events: seq<Event>, i: nat)
    requires i < |events| && Quiet(n, events[..i]) && events[i].Timeout?
    ensures Loop(n, suppressCrit, events) == Exited(WARNING, TimeoutMessage(n - CountOk(events[..i])), i + 1)
  {
    assert events[..i + 1 - 1] == events[..i];
    ExitAt(n, suppressCrit, events, i + 1);
  }

  /**
    An idle iteration exits 0 exactly when at most one probe is pending, and
    otherwise leaves the counter as it was.
   */
  lemma IdleExitsIffDrained(n: nat, suppressCrit: bool, events: seq<Event>, i: nat)
    requires i < |events| && Quiet(n, events[..i]) && events[i].Idle?
    ensures Loop(n, suppressCrit, events[..i + 1]).Exited? <==> n - CountOk(events[..i]) <= 1
    ensures n - CountOk(events[..i]) <= 1 ==> Loop(n, suppressCrit, events) == Exited(OK, OkMessage, i + 1)
    ensures n - CountOk(events[..i]) > 1 ==>
              Loop(n, suppressCrit, events[..i + 1]) == Waiting(n - CountOk(events[..i]))
  {
    StepAfterQuiet(n, suppressCrit, events, i);
    if n - CountOk(events[..i]) <= 1 {
      ExitIsFinal(n, suppressCrit, events, i + 1);
    }
  }

  /** With at most one probe (none included), the first event, if idle, exits 0. */
  lemma SmallListExitsAtFirstIdle(n: nat, suppressCrit: bool, events: seq<Event>)
    requires n <= 1 && |events| >= 1 && events[0].Idle?
    ensures Loop(n, suppressCrit, events) == Exited(OK, OkMessage, 1)
  {
    assert events[..0] == [];
    IdleExitsIffDrained(n, suppressCrit, events, 0);
  }

  /** After at least n - 1 OK reports and nothing else, an idle iteration exits 0. */
  lemma OkReportsThenIdle(n: nat, suppressCrit: bool, oks: seq<Event>)
    requires forall j :: 0 <= j < |oks| ==> IsOkResult(oks[j])
    requires |oks| >= n - 1
    ensures Loop(n, suppressCrit, oks + [Idle]) == Exited(OK, OkMessage, |oks| + 1)
  {
    var events := oks + [Idle];
    assert events[..|oks|] == oks;
    AllOkQuiet(n, oks);
    IdleExitsIffDrained(n, suppressCrit, events, |oks|);
  }

  /** A run of OK reports keeps the loop waiting and counts every one of them. */
  lemma {:induction false} AllOkQuiet(n: nat, oks: seq<Event>)
    requires forall j :: 0 <= j < |oks| ==> IsOkResult(oks[j])
    ensures Quiet(n, oks) && CountOk(oks) == |oks|
    decreases |oks|
  {
    if |oks| > 0 {
      AllOkQuiet(n, oks[..|oks| - 1]);
    }
  }

  /**
    The loop as cmd/check.go writes it: a counter, a switch on each event,
    and a return in place of os.Exit. It computes what Loop specifies.
   */
  method RunLoop(n: nat, suppressCrit: bool, events: seq<Event>) returns (v: Verdict)
    ensures v == Loop(n, suppressCrit, events)
  {
    var pending: int := n;
    var i := 0;
    while i < |events|
      invariant 0 <= i <= |events|
      invariant Loop(n, suppressCrit, events[..i]) == Waiting(pending)
    {
      var exit := false;
      var code := OK;
      var message := "";
      match events[i] {
        case Result(info) =>
          if info.returnCode == WARNING {
            exit, code, message := true, WARNING, Println("Warning: ", info.message);
          } else if info.returnCode == UNKNOWN {
            exit, code, message := true, UNKNOWN, Println("Unknown: ", info.message);
          } else if info.returnCode == CRITICAL {
            if suppressCrit {
              exit, code, message := true, WARNING, Println("Warning: ", info.message);
            } else {
              exit, code, message := true, CRITICAL, Println("Critical: ", info.message);
            }
          } else if info.returnCode == OK {
            pending := pending - 1;
          }
        case Timeout =>
          exit, code, message := true, WARNING, TimeoutMessage(pending);
        case Idle =>
          if pending <= 1 {
            exit, code, message := true, OK, OkMessage;
          }
      }
      assert events[..i + 1][..i] == events[..i];
      i := i + 1;
      if exit {
        ExitIsFinal(n, suppressCrit, events, i);
        return Exited(code, message, i);
      }
    }
    assert events[..i] == events;
    v := Waiting(pending);
  }
}
