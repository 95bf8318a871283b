/**
 ares_gethostbyname.c: the lookup machine of one host query. One DNS search is outstanding at a time;
 its answer is an event.
 */
module GetHostByName {

  datatype Family = Inet | Inet6 | Unspec
  datatype Sent = NothingSent | SentA | SentAaaa
  datatype Status = Success | NoData | BadResponse | NotFound | Timeout | ConnRefused | Destruction | OtherError

  /** An answer: its status and, for a success, what parsing it gave and how many addresses. */
  datatype Answer = Answer(status: Status, parsed: Status, addresses: nat)

  /** A successful parse yields a host, a failed one none. */
  predicate Plausible(a: Answer) { a.parsed != Success ==> a.addresses == 0 }

  /** What the user's callback is given. */
  datatype Call = Call(status: Status, addresses: nat)

  /** The family asked for, and how many addresses the hosts file will give at each lookup (0: no entry). */
  datatype Config = Config(want: Family, fileAddresses: nat -> nat)

  datatype State = State(lookups: string, sent: Sent, outstanding: nat, calls: seq<Call>)

  // ---- one step, as functions --------------------------------------------------------------

  function End(s: State, status: Status, addresses: nat): State { s.(calls := s.calls + [Call(status, addresses)]) }

  function Search(s: State, f: Sent): State { s.(sent := f, outstanding := s.outstanding + 1) }

  function FirstFamily(c: Config): Sent { if c.want == Inet then SentA else SentAaaa }

  /** next_lookup from some point of the lookup string; only a DNS lookup moves the string itself on. */
  function NextLookup(c: Config, s: State, rest: string, status: Status): State
    decreases |rest|
  {
    if rest == [] then End(s, status, 0)
    else if rest[0] == 'b' then Search(s.(lookups := rest[1..]), FirstFamily(c))
    else if rest[0] == 'f' && c.fileAddresses(|rest|) > 0 then End(s, Success, c.fileAddresses(|rest|))
    else NextLookup(c, s, rest[1..], status)
  }

  function Start(c: Config, lookups: string): State {
    NextLookup(c, State(lookups, NothingSent, 0, []), lookups, ConnRefused)
  }

  /** An IPv6 answer after which the IPv4 addresses are asked for instead. */
  predicate FallsBack(c: Config, s: State, a: Answer) {
    && s.sent == SentAaaa && c.want == Unspec
    && if a.status == Success then a.parsed in {NoData, BadResponse} || (a.parsed == Success && a.addresses == 0)
       else a.status in {NoData, BadResponse, Timeout}
  }

  /** host_callback */
  function OnAnswer(c: Config, s0: State, a: Answer): State
    requires s0.outstanding > 0
  {
    var s := s0.(outstanding := s0.outstanding - 1);
    if FallsBack(c, s, a) then Search(s, SentA)
    else if a.status == Success then
      if a.parsed == Success && a.addresses == 0 then End(s, NoData, 0) else End(s, a.parsed, a.addresses)
    else if a.status == Destruction then End(s, a.status, 0)
    else NextLookup(c, s, s.lookups, a.status)
  }

  // ---- the machine, as it updates its fields --------------------------------------------------

  class HostQuery {
    const config: Config
    var lookups: string
    var sent: Sent
    var outstanding: nat
    var calls: seq<Call>

    ghost function Snapshot(): State
      reads this
    {
      State(lookups, sent, outstanding, calls)
    }

    constructor (config: Config, lookups: string)
      ensures this.config == config && Snapshot() == Start(config, lookups)
    {
      this.config := config;
      this.lookups := lookups;
      sent, outstanding, calls := NothingSent, 0, [];
      new;
      RunNextLookup(ConnRefused);
    }

    method EndQuery(status: Status, addresses: nat)
      modifies this`calls
      ensures Snapshot() == End(old(Snapshot()), status, addresses)
    {
      calls := calls + [Call(status, addresses)];
    }

    method SendSearch(family: Sent)
      modifies this`sent, this`outstanding
      ensures Snapshot() == Search(old(Snapshot()), family)
    {
      sent := family;
      outstanding := outstanding + 1;
    }

    method RunNextLookup(statusCode: Status)
      modifies this
      ensures Snapshot() == NextLookup(config, old(Snapshot()), old(lookups), statusCode)
    {
      var p := lookups;
      while p != ""
        invariant Snapshot() == old(Snapshot())
        invariant NextLookup(config, Snapshot(), p, statusCode)
               == NextLookup(config, old(Snapshot()), old(lookups), statusCode)
        decreases |p|
      {
        if p[0] == 'b' {
          lookups := p[1..];
          if config.want == Inet6 || config.want == Unspec { SendSearch(SentAaaa); } else { SendSearch(SentA); }
          return;
        } else if p[0] == 'f' {
          var found := config.fileAddresses(|p|);
          if found > 0 {
            EndQuery(Success, found);
            return;
          }
        }
        p := p[1..];
      }
      EndQuery(statusCode, 0);
    }

    method HostCallback(a: Answer)
      requires outstanding > 0
      modifies this
      ensures Snapshot() == OnAnswer(config, old(Snapshot()), a)
    {
      outstanding := outstanding - 1;
      if a.status == Success {
        var status := a.parsed;
        if sent == SentAaaa && config.want == Unspec
           && (status == NoData || status == BadResponse || (status == Success && a.addresses == 0)) {
          SendSearch(SentA);
          return;
        }
        if status == Success && a.addresses == 0 { status := NoData; }
        EndQuery(status, a.addresses);
      } else if (a.status == NoData || a.status == BadResponse || a.status == Timeout)
                && sent == SentAaaa && config.want == Unspec {
        SendSearch(SentA);
      } else if a.status == Destruction {
        EndQuery(a.status, 0);
      } else {
        RunNextLookup(a.status);
      }
    }
  }

  // ---- invariants and runs ----------------------------------------------------------------------

  /** Exactly one search outstanding and no callback yet, or exactly one callback and nothing outstanding. */
  ghost predicate Waiting(s: State) { s.outstanding == 1 && s.calls == [] }
  ghost predicate Finished(s: State) { s.outstanding == 0 && |s.calls| == 1 }

  /** A callback that reports success brings addresses. */
  ghost predicate HonestCalls(s: State) {
    forall i :: 0 <= i < |s.calls| && s.calls[i].status == Success ==> s.calls[i].addresses > 0
  }

  ghost predicate Inv(c: Config, s: State) {
    && (Waiting(s) || Finished(s)) && HonestCalls(s)
    && (Waiting(s) ==> if s.sent == SentA then c.want != Inet6 else s.sent == SentAaaa && c.want != Inet)
  }

  /** DNS lookups still to be started. */
  function DnsLeft(lookups: string): nat {
    if lookups == [] then 0 else (if lookups[0] == 'b' then 1 else 0) + DnsLeft(lookups[1..])
  }

  /** Answers that can still arrive: two for each lookup left, and those of the current one. */
  ghost function Budget(c: Config, s: State): nat {
    2 * DnsLeft(s.lookups) + if !Waiting(s) then 0 else if s.sent == SentAaaa && c.want == Unspec then 2 else 1
  }

  lemma {:induction false} NextLookupKeeps(c: Config, s: State, rest: string, status: Status)
    requires s.outstanding == 0 && s.calls == [] && status != Success && DnsLeft(rest) <= DnsLeft(s.lookups)
    ensures Inv(c, NextLookup(c, s, rest, status))
    ensures Budget(c, NextLookup(c, s, rest, status)) <= 2 * DnsLeft(s.lookups)
    decreases |rest|
  {
    if rest != [] && rest[0] != 'b' && !(rest[0] == 'f' && c.fileAddresses(|rest|) > 0) {
      NextLookupKeeps(c, s, rest[1..], status);
    }
  }

  /** One answer keeps the invariant; the family falls back at most once before the next lookup starts. */
  lemma OnAnswerKeeps(c: Config, s: State, a: Answer)
    requires Inv(c, s) && Waiting(s) && Plausible(a)
    ensures Inv(c, OnAnswer(c, s, a))
    ensures Budget(c, OnAnswer(c, s, a)) < Budget(c, s)
    ensures FallsBack(c, s, a) ==> forall b :: !FallsBack(c, OnAnswer(c, s, a), b)
  {
    var s1 := s.(outstanding := 0);
    if !FallsBack(c, s1, a) && a.status != Success && a.status != Destruction {
      NextLookupKeeps(c, s1, s1.lookups, a.status);
    }
  }

  ghost predicate IsRun(c: Config, s: State, answers: seq<Answer>, s': State)
    decreases |answers|
  {
    if answers == [] then s' == s
    else Waiting(s) && Plausible(answers[0]) && IsRun(c, OnAnswer(c, s, answers[0]), answers[1..], s')
  }

  lemma {:induction false} RunKeeps(c: Config, s: State, answers: seq<Answer>, s': State)
    requires Inv(c, s) && IsRun(c, s, answers, s')
    ensures Inv(c, s') && Budget(c, s') + |answers| <= Budget(c, s)
    decreases |answers|
  {
    if answers != [] {
      OnAnswerKeeps(c, s, answers[0]);
      RunKeeps(c, OnAnswer(c, s, answers[0]), answers[1..], s');
    }
  }

  /**
   Any run: one search outstanding and no callback, or none and one callback; success only with
   addresses; and at most two answers for each DNS entry of the lookup string.
   */
  lemma CallbackExactlyOnce(c: Config, lookups: string, answers: seq<Answer>, s: State)
    requires IsRun(c, Start(c, lookups), answers, s)
    ensures Waiting(s) || Finished(s)
    ensures HonestCalls(s)
    ensures |answers| <= 2 * DnsLeft(lookups)
  {
    NextLookupKeeps(c, State(lookups, NothingSent, 0, []), lookups, ConnRefused);
    RunKeeps(c, Start(c, lookups), answers, s);
  }

  /** A parsed reply with at least one address. */
  predicate Brings(a: Answer) { a.status == Success && a.parsed == Success && a.addresses > 0 }

  /** The first reply that brings addresses ends the run, and exactly its addresses reach the user. */
  lemma {:induction false} FirstAddressesReachUser(c: Config, s: State, answers: seq<Answer>, s': State, i: nat)
    requires Inv(c, s) && IsRun(c, s, answers, s') && i < |answers| && Brings(answers[i])
    ensures i == |answers| - 1 && s'.calls == [Call(Success, answers[i].addresses)]
    decreases |answers|
  {
    OnAnswerKeeps(c, s, answers[0]);
    if i > 0 {
      FirstAddressesReachUser(c, OnAnswer(c, s, answers[0]), answers[1..], s', i - 1);
    } else {
      assert Finished(OnAnswer(c, s, answers[0]));
      assert answers[1..] == [];
    }
  }

  /** A success a hosts-file entry accounts for. */
  ghost predicate FromFile(c: Config, call: Call) { exists n :: c.fileAddresses(n) == call.addresses > 0 }

  lemma {:induction false} LookupSucceedsFromFile(c: Config, s: State, rest: string, status: Status)
    requires s.calls == [] && status != Success
    ensures forall i :: 0 <= i < |NextLookup(c, s, rest, status).calls| ==>
      var call := NextLookup(c, s, rest, status).calls[i];
      call.status == Success ==> FromFile(c, call)
    decreases |rest|
  {
    if rest != [] && rest[0] != 'b' { LookupSucceedsFromFile(c, s, rest[1..], status); }
  }

  /** Success has no other cause: a hosts-file entry, or a last reply that brought exactly these addresses. */
  lemma {:induction false} SuccessHasCause(c: Config, s: State, answers: seq<Answer>, s': State)
    requires Inv(c, s) && IsRun(c, s, answers, s')
    requires Finished(s') && s'.calls[0].status == Success
    requires Finished(s) && s.calls[0].status == Success ==> FromFile(c, s.calls[0])
    ensures FromFile(c, s'.calls[0]) || (answers != [] && Brings(answers[|answers| - 1])
              && s'.calls == [Call(Success, answers[|answers| - 1].addresses)])
    decreases |answers|
  {
    if answers != [] {
      var a, next := answers[0], OnAnswer(c, s, answers[0]);
      OnAnswerKeeps(c, s, a);
      if Brings(a) {
        FirstAddressesReachUser(c, s, answers, s', 0);
      } else {
        var s1 := s.(outstanding := 0);
        if a.status != Success { LookupSucceedsFromFile(c, s1, s1.lookups, a.status); }
        SuccessHasCause(c, next, answers[1..], s');
      }
    }
  }

  lemma RunSuccessHasCause(c: Config, lookups: string, answers: seq<Answer>, s: State)
    requires IsRun(c, Start(c, lookups), answers, s) && Finished(s) && s.calls[0].status == Success
    ensures FromFile(c, s.calls[0]) || (answers != [] && Brings(answers[|answers| - 1])
              && s.calls == [Call(Success, answers[|answers| - 1].addresses)])
  {
    NextLookupKeeps(c, State(lookups, NothingSent, 0, []), lookups, ConnRefused);
    LookupSucceedsFromFile(c, State(lookups, NothingSent, 0, []), lookups, ConnRefused);
    SuccessHasCause(c, Start(c, lookups), answers, s);
  }

  // ---- the search goes on ---------------------------------------------------------------------------

  /** The addresses of the first hosts-file entry that has any, and the DNS entries before it. */
  function HitFrom(c: Config, lookups: string): nat {
    if lookups == [] then 0
    else if lookups[0] == 'f' && c.fileAddresses(|lookups|) > 0 then c.fileAddresses(|lookups|)
    else HitFrom(c, lookups[1..])
  }

  function DnsBefore(c: Config, lookups: string): nat {
    if lookups == [] || (lookups[0] == 'f' && c.fileAddresses(|lookups|) > 0) then 0
    else (if lookups[0] == 'b' then 1 else 0) + DnsBefore(c, lookups[1..])
  }

  /** What a query reports that neither answer nor hosts file ended before the lookup string. */
  function LastWord(c: Config, lookups: string, status: Status): Call {
    if HitFrom(c, lookups) > 0 then Call(Success, HitFrom(c, lookups)) else Call(status, 0)
  }

  /** A lookup step starts the next DNS lookup if there is one before the hosts file has the name, and else ends. */
  lemma {:induction false} NextLookupGoesOn(c: Config, s: State, rest: string, status: Status)
    requires s.outstanding == 0 && s.calls == []
    ensures var s' := NextLookup(c, s, rest, status);
      if DnsBefore(c, rest) == 0 then Finished(s') && s'.calls == [LastWord(c, rest, status)] && s'.sent == s.sent
      else
        && Waiting(s') && 1 + DnsBefore(c, s'.lookups) == DnsBefore(c, rest)
        && HitFrom(c, s'.lookups) == HitFrom(c, rest)
    decreases |rest|
  {
    if rest != [] && rest[0] != 'b' && !(rest[0] == 'f' && c.fileAddresses(|rest|) > 0) {
      NextLookupGoesOn(c, s, rest[1..], status);
    }
  }

  predicate Fails(a: Answer) { a.status != Success && a.status != Destruction }

  /** A query all of whose answers fail reports the first hosts-file entry that has the name, else the last failure. */
  lemma {:induction false} FailuresEndInFile(c: Config, s: State, answers: seq<Answer>, s': State)
    requires Inv(c, s) && Waiting(s) && IsRun(c, s, answers, s') && Finished(s')
    requires forall i :: 0 <= i < |answers| ==> Fails(answers[i])
    ensures answers != [] && s'.calls == [LastWord(c, s.lookups, answers[|answers| - 1].status)]
    decreases |answers|
  {
    var a, s1 := answers[0], s.(outstanding := 0);
    OnAnswerKeeps(c, s, a);
    NextLookupGoesOn(c, s1, s1.lookups, a.status);
    if |answers| > 1 {
      assert answers[1..][|answers| - 2] == answers[|answers| - 1];
      FailuresEndInFile(c, OnAnswer(c, s, a), answers[1..], s');
    } else {
      assert answers[1..] == [];
    }
  }

  /** When all are not-found, every DNS entry before that one has been asked, with one answer each. */
  lemma {:induction false} AllLookupsMade(c: Config, s: State, answers: seq<Answer>, s': State)
    requires Inv(c, s) && Waiting(s) && IsRun(c, s, answers, s') && Finished(s')
    requires forall i :: 0 <= i < |answers| ==> answers[i].status == NotFound
    ensures |answers| == 1 + DnsBefore(c, s.lookups) && s'.calls == [LastWord(c, s.lookups, NotFound)]
    decreases |answers|
  {
    var a, s1 := answers[0], s.(outstanding := 0);
    OnAnswerKeeps(c, s, a);
    NextLookupGoesOn(c, s1, s1.lookups, NotFound);
    if |answers| > 1 {
      AllLookupsMade(c, OnAnswer(c, s, a), answers[1..], s');
    } else {
      assert answers[1..] == [];
    }
  }

  /** The same for a whole query. */
  lemma QueryMakesAllLookups(c: Config, lookups: string, answers: seq<Answer>, s: State)
    requires IsRun(c, Start(c, lookups), answers, s) && Finished(s)
    requires forall i :: 0 <= i < |answers| ==> answers[i].status == NotFound
    ensures |answers| == DnsBefore(c, lookups)
    ensures s.calls == [LastWord(c, lookups, if answers == [] then ConnRefused else NotFound)]
  {
    var s0 := State(lookups, NothingSent, 0, []);
    NextLookupKeeps(c, s0, lookups, ConnRefused);
    NextLookupGoesOn(c, s0, lookups, ConnRefused);
    if Waiting(Start(c, lookups)) { AllLookupsMade(c, Start(c, lookups), answers, s); }
  }

  // ---- IPv4 where IPv6 has nothing ---------------------------------------------------------------------

  /** Nothing usable came: no data, a malformed or missing response, or a reply without addresses. */
  predicate BringsNothing(a: Answer) {
    || a.status == NoData || a.status == BadResponse || a.status == Timeout
    || (a.status == Success && (a.addresses == 0 && a.parsed in {Success, NoData, BadResponse}))
  }

  /** The IPv6 search goes first unless only IPv4 is wanted; a lookup step never starts with anything else. */
  lemma {:induction false} FirstSearch(c: Config, s: State, rest: string, status: Status)
    requires s.outstanding == 0 && s.calls == []
    ensures var s' := NextLookup(c, s, rest, status);
      Waiting(s') ==> (s'.sent == SentA <==> c.want == Inet) && (s'.sent == SentAaaa <==> c.want != Inet)
    decreases |rest|
  {
    if rest != [] && rest[0] != 'b' { FirstSearch(c, s, rest[1..], status); }
  }

  /** An IPv6 search that brings nothing is followed by an IPv4 search of the same lookup, if either will do. */
  lemma FallbackHappens(c: Config, s: State, a: Answer)
    requires Inv(c, s) && Waiting(s) && c.want == Unspec && s.sent == SentAaaa && Plausible(a) && BringsNothing(a)
    ensures OnAnswer(c, s, a) == s.(sent := SentA)
  {
  }

  /** And only then: any other search is answered by the end of the query or the next lookup. */
  lemma {:induction false} NoOtherFallback(c: Config, s: State, a: Answer)
    requires Inv(c, s) && Waiting(s) && Plausible(a)
    requires !(c.want == Unspec && s.sent == SentAaaa && BringsNothing(a))
    ensures var s' := OnAnswer(c, s, a); Waiting(s') ==> |s'.lookups| < |s.lookups| && Fails(a)
  {
    LookupShortens(c, s.(outstanding := 0), s.lookups, a.status);
  }

  lemma {:induction false} LookupShortens(c: Config, s: State, rest: string, status: Status)
    requires s.outstanding == 0 && s.calls == []
    ensures var s' := NextLookup(c, s, rest, status); Waiting(s') ==> |s'.lookups| < |rest|
    decreases |rest|
  {
    if rest != [] && rest[0] != 'b' { LookupShortens(c, s, rest[1..], status); }
  }

  /** What the parsers of address replies can report: success, no data, or an error that is not a time-out. */
  ghost predicate NoParsedTimeout(answers: seq<Answer>) {
    forall i :: 0 <= i < |answers| ==> answers[i].parsed != Timeout
  }

  /**
   So, over any run with either family wanted, the user is told of no data, of a malformed response or of a time-out
   only once IPv4 has been asked for.
   */
  lemma {:induction false} GivesUpOnIpv4(c: Config, s: State, answers: seq<Answer>, s': State)
    requires Inv(c, s) && Waiting(s) && c.want == Unspec && IsRun(c, s, answers, s') && NoParsedTimeout(answers)
    requires Finished(s') && s'.calls[0].status in {NoData, BadResponse, Timeout}
    ensures s'.sent == SentA
    decreases |answers|
  {
    var a, next := answers[0], OnAnswer(c, s, answers[0]);
    OnAnswerKeeps(c, s, a);
    NextLookupGoesOn(c, s.(outstanding := 0), s.lookups, a.status);
    if |answers| > 1 {
      GivesUpOnIpv4(c, next, answers[1..], s');
    } else {
      assert answers[1..] == [] && s' == next;
      if s.sent == SentAaaa && BringsNothing(a) { FallbackHappens(c, s, a); }
    }
  }

  lemma QueryGivesUpOnIpv4(c: Config, lookups: string, answers: seq<Answer>, s: State)
    requires c.want == Unspec && IsRun(c, Start(c, lookups), answers, s) && NoParsedTimeout(answers)
    requires Finished(s) && s.calls[0].status in {NoData, BadResponse, Timeout}
    ensures s.sent == SentA
  {
    var s0 := State(lookups, NothingSent, 0, []);
    NextLookupKeeps(c, s0, lookups, ConnRefused);
    NextLookupGoesOn(c, s0, lookups, ConnRefused);
    GivesUpOnIpv4(c, Start(c, lookups), answers, s);
  }

  /** A run whose last answer is a reply or the destruction of the channel, and that has ended, reports just that. */
  lemma {:induction false} LastReplyReported(c: Config, s: State, answers: seq<Answer>, s': State)
    requires Inv(c, s) && Waiting(s) && IsRun(c, s, answers, s') && Finished(s')
    requires answers != [] && !Fails(answers[|answers| - 1])
    ensures var last := answers[|answers| - 1];
      s'.calls == [if last.status == Destruction then Call(Destruction, 0)
                   else if last.parsed == Success && last.addresses == 0 then Call(NoData, 0)
                   else Call(last.parsed, last.addresses)]
    decreases |answers|
  {
    OnAnswerKeeps(c, s, answers[0]);
    if |answers| > 1 {
      assert answers[1..][|answers| - 2] == answers[|answers| - 1];
      LastReplyReported(c, OnAnswer(c, s, answers[0]), answers[1..], s');
    } else {
      assert answers[1..] == [];
    }
  }
}
