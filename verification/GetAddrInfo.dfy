/**
 ares_getaddrinfo.c: the lookup machine of one host query. Answers to its DNS queries are events that
 arrive later, in any order; a callback made from inside ares_query is an answer that arrives at once.
 */
module GetAddrInfo {

  datatype Family = Inet | Inet6 | Unspec
  datatype Status = Success | NoData | BadResponse | NotFound | ConnRefused | Destruction | OtherError

  /** A name handed to ares_query: the plain one, or the one completed by a search domain. */
  datatype Try = AsIs | Domain(i: nat)

  /** An answer: its status and, for a success, what parsing it reported and how many addresses it added. */
  datatype Answer = Answer(status: Status, parsed: Status, added: nat)

  /** A parse that fails adds nothing (see ParseAddrInfo.Parse). */
  predicate Plausible(a: Answer) { a.parsed != Success ==> a.added == 0 }

  /**
   What stays fixed during a query: channel settings, the outcome of as_is_first, how many addresses the
   hosts file will give at each lookup (0: no entry, which changes nothing), and which names can be completed.
   */
  datatype Config = Config(family: Family, domains: nat, asIsFirst: bool, fileAddresses: nat -> nat, catOk: nat -> bool)

  datatype State = State(lookups: string, remaining: nat, nextDomain: int, nodes: nat,
                         tried: seq<Try>, calls: seq<Status>)

  // ---- one step, as functions --------------------------------------------------------

  function QueriesPerName(c: Config): nat { if c.family == Unspec then 2 else 1 }

  function End(s: State, status: Status): State { s.(calls := s.calls + [status]) }

  function Send(c: Config, s: State, name: Try): State {
    s.(remaining := s.remaining + QueriesPerName(c), tried := s.tried + [name])
  }

  /** next_dns_lookup: the new state and whether a query went out. */
  function NextDns(c: Config, s: State): (State, bool) {
    if s.nextDomain == -1 && c.asIsFirst then (Send(c, s.(nextDomain := 0), AsIs), true)
    else
      var d := if s.nextDomain == -1 then 0 else s.nextDomain;
      if d == c.domains then
        if !c.asIsFirst then (Send(c, s.(nextDomain := d + 1), AsIs), true) else (s.(nextDomain := d + 1), false)
      else if 0 <= d < c.domains then
        if c.catOk(d) then (Send(c, s.(nextDomain := d + 1), Domain(d)), true) else (s.(nextDomain := d + 1), false)
      else (s.(nextDomain := d), false)
  }

  /** next_lookup */
  function NextLookup(c: Config, s: State, status: Status): State
    decreases |s.lookups|
  {
    if s.lookups == [] then End(s, status)
    else if s.lookups[0] == 'b' then
      var (s', sent) := NextDns(c, s);
      if sent then s' else NextLookup(c, s'.(lookups := s.lookups[1..]), status)
    else if s.lookups[0] == 'f' then
      if c.fileAddresses(|s.lookups|) > 0 then End(s.(nodes := s.nodes + c.fileAddresses(|s.lookups|)), Success)
      else NextLookup(c, s.(lookups := s.lookups[1..]), status)
    else End(s, status)
  }

  function Start(c: Config, lookups: string): State {
    NextLookup(c, State(lookups, 0, -1, 0, [], []), ConnRefused)
  }

  /** host_callback */
  function OnAnswer(c: Config, s0: State, a: Answer): State
    requires s0.remaining > 0
  {
    var s := s0.(remaining := s0.remaining - 1, nodes := s0.nodes + if a.status == Success then a.added else 0);
    if a.status == Destruction then End(s, a.status)
    else if s.remaining > 0 then s
    else if a.status == Success && a.parsed != Success then End(s, a.parsed)
    else if s.nodes > 0 then End(s, Success)
    else if a.status == NotFound then NextLookup(c, s, a.status)
    else End(s, a.status)
  }

  // ---- the machine, as it updates its fields -------------------------------------------

  class HostQuery {
    const config: Config
    var lookups: string
    var remaining: nat
    var nextDomain: int
    var nodes: nat
    var tried: seq<Try>
    var calls: seq<Status>

    ghost function Snapshot(): State
      reads this
    {
      State(lookups, remaining, nextDomain, nodes, tried, calls)
    }

    /** The tail of ares_getaddrinfo, once its arguments have been checked. */
    constructor (config: Config, lookups: string)
      ensures this.config == config
      ensures Snapshot() == Start(config, lookups)
    {
      this.config := config;
      this.lookups := lookups;
      remaining, nextDomain, nodes, tried, calls := 0, -1, 0, [], [];
      new;
      RunNextLookup(ConnRefused);
    }

    method EndQuery(status: Status)
      modifies this
      ensures Snapshot() == End(old(Snapshot()), status)
    {
      calls := calls + [status];
    }

    method RunNextLookup(status: Status)
      modifies this
      ensures Snapshot() == NextLookup(config, old(Snapshot()), status)
      decreases |lookups|
    {
      if lookups == "" {
        EndQuery(status);
      } else if lookups[0] == 'b' {
        var sent := RunNextDns();
        if sent { return; }
        lookups := lookups[1..];
        RunNextLookup(status);
      } else if lookups[0] == 'f' {
        var found := config.fileAddresses(|lookups|);
        if found > 0 {
          nodes := nodes + found;
          EndQuery(Success);
          return;
        }
        lookups := lookups[1..];
        RunNextLookup(status);
      } else {
        EndQuery(status);
      }
    }

    method RunNextDns() returns (sent: bool)
      modifies this
      ensures (Snapshot(), sent) == NextDns(config, old(Snapshot()))
    {
      var name: seq<Try> := [];
      if nextDomain == -1 {
        if config.asIsFirst { name := [AsIs]; }
        nextDomain := 0;
      }
      if name == [] && nextDomain == config.domains {
        if !config.asIsFirst { name := [AsIs]; }
        nextDomain := nextDomain + 1;
      }
      if name == [] && 0 <= nextDomain < config.domains {
        if config.catOk(nextDomain) { name := [Domain(nextDomain)]; }
        nextDomain := nextDomain + 1;
      }
      sent := name != [];
      if sent {
        remaining := remaining + if config.family == Unspec then 2 else 1;
        tried := tried + name;
      }
    }

    method HostCallback(a: Answer)
      requires remaining > 0
      modifies this
      ensures Snapshot() == OnAnswer(config, old(Snapshot()), a)
    {
      remaining := remaining - 1;
      var parsed := Success;
      if a.status == Success {
        parsed := a.parsed;
        nodes := nodes + a.added;
      } else if a.status == Destruction {
        EndQuery(a.status);
        return;
      }
      if remaining == 0 {
        if parsed != Success {
          EndQuery(parsed);
        } else if nodes > 0 {
          EndQuery(Success);
        } else if a.status == NotFound {
          RunNextLookup(a.status);
        } else {
          EndQuery(a.status);
        }
      }
    }
  }

  /** as_is_first: does the name have at least `ndots` dots? */
  function Dots(name: string): nat {
    if name == [] then 0 else (if name[|name| - 1] == '.' then 1 else 0) + Dots(name[..|name| - 1])
  }

  method CountsAsIsFirst(name: string, ndots: int) returns (first: bool)
    ensures first <==> Dots(name) >= ndots
  {
    var dots := 0;
    for i := 0 to |name|
      invariant dots == Dots(name[..i])
    {
      assert name[..i + 1][..i] == name[..i];
      if name[i] == '.' { dots := dots + 1; }
    }
    assert name[..|name|] == name;
    first := dots >= ndots;
  }

  // ---- the names, in order ---------------------------------------------------------------

  /** The names of a query: the plain one first or last, as as_is_first decides. */
  function Names(c: Config): (r: seq<Try>)
    ensures |r| == c.domains + 1
  {
    var completed := seq(c.domains, i requires 0 <= i < c.domains => Domain(i));
    if c.asIsFirst then [AsIs] + completed else completed + [AsIs]
  }

  predicate CanBuild(c: Config, name: Try) { name.Domain? ==> c.catOk(name.i) }

  /** The first k names, without those that could not be built. */
  function Buildable(c: Config, k: nat): seq<Try>
    requires k <= c.domains + 1
  {
    if k == 0 then []
    else Buildable(c, k - 1) + if CanBuild(c, Names(c)[k - 1]) then [Names(c)[k - 1]] else []
  }

  /** How many names have been considered. */
  function Considered(c: Config, s: State): nat
    requires -1 <= s.nextDomain <= c.domains + 1
  {
    if s.nextDomain == -1 then 0
    else if s.nextDomain > c.domains then c.domains + 1
    else if c.asIsFirst then s.nextDomain + 1
    else s.nextDomain
  }

  /** Names already tried are the buildable ones among those considered, in order. */
  ghost predicate TriedInOrder(c: Config, s: State) {
    -1 <= s.nextDomain <= c.domains + 1 && s.tried == Buildable(c, Considered(c, s))
  }

  lemma {:induction false} BuildableDistinct(c: Config, k: nat)
    requires k <= c.domains + 1
    ensures forall x :: x in Buildable(c, k) ==> x in Names(c)[..k]
    ensures forall i, j :: 0 <= i < j < |Buildable(c, k)| ==> Buildable(c, k)[i] != Buildable(c, k)[j]
  {
    if k > 0 {
      BuildableDistinct(c, k - 1);
      var last := Names(c)[k - 1];
      assert Names(c)[..k] == Names(c)[..k - 1] + [last];
      assert last !in Names(c)[..k - 1];
    }
  }

  // ---- invariants of a step ----------------------------------------------------------------

  /** Waiting for answers, or finished after exactly one callback. */
  ghost predicate Waiting(c: Config, s: State) { s.calls == [] && 1 <= s.remaining <= QueriesPerName(c) }
  ghost predicate Finished(s: State) { |s.calls| == 1 && s.remaining == 0 }

  /** Before any answer of a round the address list is empty, as the assertion in next_dns_lookup has it. */
  ghost predicate CleanRound(c: Config, s: State) {
    Waiting(c, s) && s.remaining == QueriesPerName(c) ==> s.nodes == 0
  }

  ghost predicate Inv(c: Config, s: State) {
    && TriedInOrder(c, s) && CleanRound(c, s) && (Waiting(c, s) || Finished(s))
    && (Waiting(c, s) ==> s.lookups != [] && s.lookups[0] == 'b')
  }

  /** Answers that can still arrive. */
  function Budget(c: Config, s: State): int
    requires -1 <= s.nextDomain <= c.domains + 1
  {
    2 * (c.domains + 1 - Considered(c, s)) + s.remaining
  }

  /** A DNS round sends the next buildable name, or stops at the end of the list or at an unbuildable one. */
  lemma NextDnsKeeps(c: Config, s: State)
    requires TriedInOrder(c, s) && s.remaining == 0
    ensures var (s', sent) := NextDns(c, s);
      && TriedInOrder(c, s') && Considered(c, s) <= Considered(c, s')
      && s'.calls == s.calls && s'.nodes == s.nodes && s'.lookups == s.lookups
      && (sent ==> s'.remaining == QueriesPerName(c) && Considered(c, s') == Considered(c, s) + 1)
      && (!sent ==> s'.remaining == 0)
      && (!sent ==> Considered(c, s') == c.domains + 1 || !CanBuild(c, Names(c)[Considered(c, s') - 1]))
  {
    var k := Considered(c, s);
    if k <= c.domains {
      var name := Names(c)[k];
      assert Buildable(c, k + 1) == Buildable(c, k) + if CanBuild(c, name) then [name] else [];
    }
  }

  /** It considers exactly one more name, as long as there is one. */
  lemma NextDnsTakesOne(c: Config, s: State)
    requires TriedInOrder(c, s)
    ensures var s' := NextDns(c, s).0;
      && -1 <= s'.nextDomain <= c.domains + 1
      && Considered(c, s') == if Considered(c, s) <= c.domains then Considered(c, s) + 1 else c.domains + 1
  {
  }

  lemma {:induction false} NextLookupKeeps(c: Config, s: State, status: Status)
    requires TriedInOrder(c, s) && s.remaining == 0 && s.calls == [] && s.nodes == 0
    ensures Inv(c, NextLookup(c, s, status))
    ensures Budget(c, NextLookup(c, s, status)) <= Budget(c, s)
    decreases |s.lookups|
  {
    if s.lookups != [] && s.lookups[0] == 'b' {
      NextDnsKeeps(c, s);
      var (s', sent) := NextDns(c, s);
      if !sent {
        var s'' := s'.(lookups := s.lookups[1..]);
        assert Considered(c, s'') == Considered(c, s') && TriedInOrder(c, s'');
        NextLookupKeeps(c, s'', status);
      }
    } else if s.lookups != [] && s.lookups[0] == 'f' && c.fileAddresses(|s.lookups|) == 0 {
      var s' := s.(lookups := s.lookups[1..]);
      assert Considered(c, s') == Considered(c, s) && TriedInOrder(c, s');
      NextLookupKeeps(c, s', status);
    }
  }

  /** One answer other than channel destruction keeps the invariant and uses up budget. */
  lemma OnAnswerKeeps(c: Config, s: State, a: Answer)
    requires Inv(c, s) && Waiting(c, s) && a.status != Destruction
    ensures Inv(c, OnAnswer(c, s, a)) && Budget(c, OnAnswer(c, s, a)) < Budget(c, s)
  {
    var s1 := s.(remaining := s.remaining - 1, nodes := s.nodes + if a.status == Success then a.added else 0);
    assert Considered(c, s1) == Considered(c, s) && TriedInOrder(c, s1);
    if s1.remaining == 0 && s1.nodes == 0 { NextLookupKeeps(c, s1, a.status); }
  }

  // ---- whole runs ------------------------------------------------------------------------

  /** The state after some answers; answers are only delivered while queries are outstanding. */
  ghost predicate IsRun(c: Config, s: State, answers: seq<Answer>, s': State)
    decreases |answers|
  {
    if answers == [] then s' == s
    else Waiting(c, s) && IsRun(c, OnAnswer(c, s, answers[0]), answers[1..], s')
  }

  ghost predicate NoDestruction(answers: seq<Answer>) {
    forall i :: 0 <= i < |answers| ==> answers[i].status != Destruction
  }

  lemma {:induction false} RunKeeps(c: Config, s: State, answers: seq<Answer>, s': State)
    requires Inv(c, s) && NoDestruction(answers) && IsRun(c, s, answers, s')
    ensures Inv(c, s') && Budget(c, s') + |answers| <= Budget(c, s)
    decreases |answers|
  {
    if answers != [] {
      OnAnswerKeeps(c, s, answers[0]);
      RunKeeps(c, OnAnswer(c, s, answers[0]), answers[1..], s');
    }
  }

  /**
   Any run without channel destruction: at each point either queries are outstanding and the user has
   not been called, or none is and the user has been called exactly once; the names tried are those
   of the list, in order; and no run is longer than two answers a name.
   */
  lemma {:induction false} CallbackExactlyOnce(c: Config, lookups: string, answers: seq<Answer>, s: State)
    requires NoDestruction(answers) && IsRun(c, Start(c, lookups), answers, s)
    ensures Waiting(c, s) || Finished(s)
    ensures |answers| <= 2 * (c.domains + 1)
    ensures TriedInOrder(c, s) && CleanRound(c, s)
    ensures forall i, j :: 0 <= i < j < |s.tried| ==> s.tried[i] != s.tried[j]
  {
    var s0 := State(lookups, 0, -1, 0, [], []);
    NextLookupKeeps(c, s0, ConnRefused);
    RunKeeps(c, Start(c, lookups), answers, s);
    BuildableDistinct(c, Considered(c, s));
  }

  // ---- no answer is lost ---------------------------------------------------------------------

  /** Queries sent so far: one or two for each name tried. */
  function Sent(c: Config, s: State): nat { if c.family == Unspec then 2 * |s.tried| else |s.tried| }

  lemma {:induction false} NextLookupSends(c: Config, s: State, status: Status)
    ensures var s' := NextLookup(c, s, status); Sent(c, s') - s'.remaining == Sent(c, s) - s.remaining
    decreases |s.lookups|
  {
    if s.lookups != [] && s.lookups[0] == 'b' {
      var (s', sent) := NextDns(c, s);
      if !sent { NextLookupSends(c, s'.(lookups := s.lookups[1..]), status); }
    } else if s.lookups != [] && s.lookups[0] == 'f' && c.fileAddresses(|s.lookups|) == 0 {
      NextLookupSends(c, s.(lookups := s.lookups[1..]), status);
    }
  }

  /** Every query sent is answered once or still outstanding, over any run, destruction included. */
  lemma {:induction false} AnswersConserved(c: Config, s: State, answers: seq<Answer>, s': State)
    requires IsRun(c, s, answers, s')
    ensures Sent(c, s') - s'.remaining == Sent(c, s) - s.remaining + |answers|
    decreases |answers|
  {
    if answers != [] {
      var a := answers[0];
      var s1 := s.(remaining := s.remaining - 1, nodes := s.nodes + if a.status == Success then a.added else 0);
      NextLookupSends(c, s1, a.status);
      AnswersConserved(c, OnAnswer(c, s, a), answers[1..], s');
    }
  }

  /** The same for a whole query. */
  lemma QueryAnswersConserved(c: Config, lookups: string, answers: seq<Answer>, s: State)
    requires IsRun(c, Start(c, lookups), answers, s)
    ensures |answers| + s.remaining == if c.family == Unspec then 2 * |s.tried| else |s.tried|
  {
    NextLookupSends(c, State(lookups, 0, -1, 0, [], []), ConnRefused);
    AnswersConserved(c, Start(c, lookups), answers, s);
  }

  // ---- what the user is told -----------------------------------------------------------------

  /** Addresses the answers of a run bring. */
  function Added(answers: seq<Answer>): nat {
    if answers == [] then 0 else (if answers[0].status == Success then answers[0].added else 0) + Added(answers[1..])
  }

  /** The hosts file ended the query: at the entry the lookups have come to, with the addresses it holds. */
  ghost predicate FromFile(c: Config, s: State) {
    && s.lookups != [] && s.lookups[0] == 'f' && s.calls == [Success]
    && s.nodes == c.fileAddresses(|s.lookups|) > 0
  }

  /** A lookup step that finds nothing in the hosts file adds no address, and ends only with the status it was given. */
  lemma {:induction false} NextLookupOutcome(c: Config, s: State, status: Status)
    requires s.calls == [] && s.nodes == 0
    ensures var s' := NextLookup(c, s, status);
      FromFile(c, s') || (s'.nodes == 0 && (s'.calls == [] || s'.calls == [status]))
    decreases |s.lookups|
  {
    if s.lookups != [] && s.lookups[0] == 'b' {
      var (s', sent) := NextDns(c, s);
      if !sent { NextLookupOutcome(c, s'.(lookups := s.lookups[1..]), status); }
    } else if s.lookups != [] && s.lookups[0] == 'f' && c.fileAddresses(|s.lookups|) == 0 {
      NextLookupOutcome(c, s.(lookups := s.lookups[1..]), status);
    }
  }

  /** The status a last answer leads to, with `nodes` addresses collected by then. */
  function Verdict(last: Answer, nodes: nat): Status {
    if last.status == Destruction then Destruction
    else if last.status == Success && last.parsed != Success then last.parsed
    else if nodes > 0 then Success
    else last.status
  }

  /** One answer: its addresses are collected, and what ends the query is its verdict or the hosts file. */
  lemma OnAnswerOutcome(c: Config, s: State, a: Answer)
    requires Inv(c, s) && Waiting(c, s)
    ensures var s', nodes := OnAnswer(c, s, a), s.nodes + Added([a]);
      if FromFile(c, s') then nodes == 0 && a.status == NotFound
      else s'.nodes == nodes && (s'.calls == [] || s'.calls == [Verdict(a, nodes)])
  {
    assert [a][1..] == [];
    var s1 := s.(remaining := s.remaining - 1, nodes := s.nodes + Added([a]));
    if s1.nodes == 0 { NextLookupOutcome(c, s1, a.status); }
  }

  /**
   All runs: the collected addresses are those the answers brought, none lost and none twice, and a
   query that has ended reports the verdict on its last answer; unless the hosts file had the name in the end,
   in which case no answer had brought an address and the file's addresses are reported.
   */
  lemma {:induction false} RunOutcome(c: Config, s: State, answers: seq<Answer>, s': State)
    requires Inv(c, s) && Waiting(c, s) && IsRun(c, s, answers, s')
    ensures s'.calls != [] ==> answers != []
    ensures if FromFile(c, s')
      then answers != [] && answers[|answers| - 1].status == NotFound && s.nodes + Added(answers) == 0
      else s'.nodes == s.nodes + Added(answers)
    ensures s'.calls != [] && !FromFile(c, s') ==> s'.calls == [Verdict(answers[|answers| - 1], s'.nodes)]
    decreases |answers|
  {
    if answers != [] {
      var a, next, rest := answers[0], OnAnswer(c, s, answers[0]), answers[1..];
      if a.status != Destruction { OnAnswerKeeps(c, s, a); }
      OnAnswerOutcome(c, s, a);
      assert [a][1..] == [] && Added([a]) + Added(rest) == Added(answers);
      if rest == [] {
        assert s' == next;
      } else {
        assert rest[|rest| - 1] == answers[|answers| - 1];
        RunOutcome(c, next, rest, s');
      }
    }
  }

  /** A well-formed response without a single address. */
  predicate AliasesOnly(a: Answer) { a.status == Success && a.parsed == Success && a.added == 0 }

  /** A query reports success without an address exactly when it ends on aliases only and no answer had an address. */
  lemma SuccessWithoutAddresses(c: Config, s: State, answers: seq<Answer>, s': State)
    requires Inv(c, s) && Waiting(c, s) && NoDestruction(answers) && IsRun(c, s, answers, s')
    ensures s'.calls == [Success] && s'.nodes == 0 <==>
      answers != [] && Finished(s') && s.nodes + Added(answers) == 0 && AliasesOnly(answers[|answers| - 1])
  {
    RunOutcome(c, s, answers, s');
    RunKeeps(c, s, answers, s');
    if answers != [] { AddedHasLast(answers); }
  }

  lemma {:induction false} AddedHasLast(answers: seq<Answer>)
    requires answers != []
    ensures var last := answers[|answers| - 1]; last.status == Success ==> Added(answers) >= last.added
    decreases |answers|
  {
    if |answers| > 1 { AddedHasLast(answers[1..]); }
  }

  /** The same for a whole query, from any lookup string. */
  lemma QuerySucceedsWithoutAddresses(c: Config, lookups: string, answers: seq<Answer>, s: State)
    requires NoDestruction(answers) && IsRun(c, Start(c, lookups), answers, s)
    ensures s.calls == [Success] && s.nodes == 0 <==>
      answers != [] && Finished(s) && Added(answers) == 0 && AliasesOnly(answers[|answers| - 1])
  {
    var s0 := State(lookups, 0, -1, 0, [], []);
    NextLookupKeeps(c, s0, ConnRefused);
    NextLookupOutcome(c, s0, ConnRefused);
    if Waiting(c, Start(c, lookups)) { SuccessWithoutAddresses(c, Start(c, lookups), answers, s); }
  }

  /** Which happens: an IPv4 query answered with aliases only. */
  lemma AliasesOnlyExample() returns (c: Config, s: State)
    ensures IsRun(c, Start(c, "b"), [Answer(Success, Success, 0)], s) && s.calls == [Success] && s.nodes == 0
  {
    c := Config(Inet, 0, true, _ => 0, _ => true);
    s := OnAnswer(c, Start(c, "b"), Answer(Success, Success, 0));
    assert [Answer(Success, Success, 0)][1..] == [];
  }

  /** Addresses collected are dropped exactly when the response that comes last cannot be parsed. */
  lemma AddressesReachUser(c: Config, s: State, answers: seq<Answer>, s': State)
    requires Inv(c, s) && Waiting(c, s) && NoDestruction(answers) && IsRun(c, s, answers, s')
    requires Finished(s') && s.nodes + Added(answers) > 0
    ensures answers != [] && s'.nodes == s.nodes + Added(answers)
    ensures var last := answers[|answers| - 1];
      s'.calls == [if last.status == Success && last.parsed != Success then last.parsed else Success]
  {
    RunOutcome(c, s, answers, s');
  }

  /**
   Which happens too: the IPv4 answer has an address, the IPv6 answer has records, but neither an address of
   the name nor an alias. (A response without any record arrives as NoData itself, and drops nothing.)
   */
  lemma AddressesDroppedExample() returns (c: Config, answers: seq<Answer>, s: State)
    ensures forall a :: a in answers ==> Plausible(a)
    ensures IsRun(c, Start(c, "b"), answers, s) && s.nodes == 1 && s.calls == [NoData]
  {
    c := Config(Unspec, 0, true, _ => 0, _ => true);
    var four, six := Answer(Success, Success, 1), Answer(Success, NoData, 0);
    answers := [four, six];
    var s1 := OnAnswer(c, Start(c, "b"), four);
    s := OnAnswer(c, s1, six);
    assert answers[1..] == [six] && [six][1..] == [];
    assert IsRun(c, s1, [six], s);
  }

  // ---- the search goes on --------------------------------------------------------------------

  ghost predicate AllBuildable(c: Config) { forall d: nat :: d < c.domains ==> c.catOk(d) }

  /** A DNS entry comes before any entry of the lookup string that would end the query. */
  predicate ReachesDns(lookups: string) {
    lookups != [] && (lookups[0] == 'b' || (lookups[0] == 'f' && ReachesDns(lookups[1..])))
  }

  lemma {:induction false} AllAreBuilt(c: Config, k: nat)
    requires AllBuildable(c) && k <= c.domains + 1
    ensures Buildable(c, k) == Names(c)[..k]
  {
    if k > 0 {
      AllAreBuilt(c, k - 1);
      assert Names(c)[..k] == Names(c)[..k - 1] + [Names(c)[k - 1]];
    }
  }

  /** With a DNS entry to come, a lookup step ends only in the hosts file or with every name tried already. */
  lemma {:induction false} NextLookupGoesOn(c: Config, s: State, status: Status)
    requires AllBuildable(c) && TriedInOrder(c, s) && s.remaining == 0 && s.calls == [] && s.nodes == 0
    requires ReachesDns(s.lookups)
    ensures var s' := NextLookup(c, s, status);
      FromFile(c, s') || s'.calls == [] || (s'.nodes == 0 && s.tried == s'.tried == Names(c))
    decreases |s.lookups|
  {
    if s.lookups[0] == 'b' {
      var (s', sent) := NextDns(c, s);
      if sent {
        NextDnsKeeps(c, s);
      } else {
        NotSentIsDone(c, s);
        NothingLeftToTry(c, s'.(lookups := s.lookups[1..]), status);
      }
    } else if c.fileAddresses(|s.lookups|) == 0 {
      var s' := s.(lookups := s.lookups[1..]);
      assert Considered(c, s') == Considered(c, s) && TriedInOrder(c, s');
      NextLookupGoesOn(c, s', status);
    }
  }

  /** When all names can be built, a DNS round sends nothing only after all of them. */
  lemma NotSentIsDone(c: Config, s: State)
    requires AllBuildable(c) && TriedInOrder(c, s) && s.remaining == 0 && !NextDns(c, s).1
    ensures var s' := NextDns(c, s).0;
      && TriedInOrder(c, s') && Considered(c, s') == c.domains + 1 && s'.tried == s.tried == Names(c)
      && s'.calls == s.calls && s'.nodes == s.nodes
  {
    NextDnsKeeps(c, s);
    AllAreBuilt(c, c.domains + 1);
    assert Names(c)[..c.domains + 1] == Names(c);
  }

  /** Once every name has been considered, lookup steps send nothing. */
  lemma {:induction false} NothingLeftToTry(c: Config, s: State, status: Status)
    requires TriedInOrder(c, s) && Considered(c, s) == c.domains + 1 && s.calls == [] && s.nodes == 0
    ensures var s' := NextLookup(c, s, status); FromFile(c, s') || (s'.nodes == 0 && s'.tried == s.tried)
    decreases |s.lookups|
  {
    if s.lookups != [] && s.lookups[0] == 'b' {
      NothingLeftToTry(c, NextDns(c, s).0.(lookups := s.lookups[1..]), status);
    } else if s.lookups != [] && s.lookups[0] == 'f' && c.fileAddresses(|s.lookups|) == 0 {
      NothingLeftToTry(c, s.(lookups := s.lookups[1..]), status);
    }
  }

  /**
   A name is given up only after every form of it: when all can be built, a query that ends on a
   not-found answer without an address from anywhere has tried all names of the list.
   */
  lemma {:induction false} AllNamesTried(c: Config, s: State, answers: seq<Answer>, s': State)
    requires AllBuildable(c) && Inv(c, s) && Waiting(c, s) && NoDestruction(answers) && IsRun(c, s, answers, s')
    requires Finished(s') && s'.nodes == 0 && answers != [] && answers[|answers| - 1].status == NotFound
    ensures s'.tried == Names(c) && s'.calls == [NotFound]
    decreases |answers|
  {
    var a, next := answers[0], OnAnswer(c, s, answers[0]);
    OnAnswerKeeps(c, s, a);
    OnAnswerOutcome(c, s, a);
    if |answers| > 1 {
      AllNamesTried(c, next, answers[1..], s');
    } else {
      assert answers[1..] == [] && s' == next;
      NextLookupGoesOn(c, s.(remaining := 0), NotFound);
    }
  }

  /** The same for a whole query whose lookup string has a DNS entry. */
  lemma QueryTriesAllNames(c: Config, lookups: string, answers: seq<Answer>, s: State)
    requires AllBuildable(c) && ReachesDns(lookups) && NoDestruction(answers) && IsRun(c, Start(c, lookups), answers, s)
    requires Finished(s) && s.nodes == 0 && (answers == [] || answers[|answers| - 1].status == NotFound)
    ensures s.tried == Names(c) && s.calls == [NotFound]
  {
    var s0 := State(lookups, 0, -1, 0, [], []);
    NextLookupKeeps(c, s0, ConnRefused);
    NextLookupOutcome(c, s0, ConnRefused);
    NextLookupGoesOn(c, s0, ConnRefused);
    AllNamesTried(c, Start(c, lookups), answers, s);
  }

  // ---- the lookups behind a finished DNS entry ----------------------------------------------------

  /** The addresses of the first hosts-file entry that has any, if only DNS and file entries come before it. */
  function HitFrom(c: Config, lookups: string): nat {
    if lookups == [] || (lookups[0] != 'b' && lookups[0] != 'f') then 0
    else if lookups[0] == 'f' && c.fileAddresses(|lookups|) > 0 then c.fileAddresses(|lookups|)
    else HitFrom(c, lookups[1..])
  }

  /** A query that ends with the hosts file's last word. */
  ghost predicate EndsInFile(c: Config, lookups: string, status: Status, s: State) {
    s.nodes == HitFrom(c, lookups) && s.calls == [if s.nodes > 0 then Success else status]
  }

  /** A lookup step ends there, or waits for answers with the same entry to come. */
  lemma {:induction false} NextLookupHit(c: Config, s: State, status: Status)
    requires s.calls == [] && s.nodes == 0
    ensures var s' := NextLookup(c, s, status);
      if s'.calls == [] then HitFrom(c, s'.lookups) == HitFrom(c, s.lookups) else EndsInFile(c, s.lookups, status, s')
    decreases |s.lookups|
  {
    if s.lookups != [] && s.lookups[0] == 'b' {
      var (s', sent) := NextDns(c, s);
      if !sent { NextLookupHit(c, s'.(lookups := s.lookups[1..]), status); }
    } else if s.lookups != [] && s.lookups[0] == 'f' && c.fileAddresses(|s.lookups|) == 0 {
      NextLookupHit(c, s.(lookups := s.lookups[1..]), status);
    }
  }

  /** One answer without an address. */
  lemma OnAnswerHit(c: Config, s: State, a: Answer)
    requires Inv(c, s) && Waiting(c, s) && s.nodes + Added([a]) == 0 && a.status != Destruction
    ensures var s' := OnAnswer(c, s, a);
      if s'.calls == [] then HitFrom(c, s'.lookups) == HitFrom(c, s.lookups)
      else a.status == NotFound ==> EndsInFile(c, s.lookups, NotFound, s')
  {
    assert [a][1..] == [];
    NextLookupHit(c, s.(remaining := s.remaining - 1), a.status);
  }

  /**
   After DNS the remaining lookups are tried: a query that ends on a not-found answer, no answer having brought an
   address, reports the hosts-file entry still to come, and not-found exactly when there is none.
   */
  lemma {:induction false} LookupsGoOn(c: Config, s: State, answers: seq<Answer>, s': State)
    requires Inv(c, s) && Waiting(c, s) && NoDestruction(answers) && IsRun(c, s, answers, s')
    requires s'.calls != [] && answers != [] && answers[|answers| - 1].status == NotFound
    requires s.nodes + Added(answers) == 0
    ensures EndsInFile(c, s.lookups, NotFound, s')
    decreases |answers|
  {
    var a, next, rest := answers[0], OnAnswer(c, s, answers[0]), answers[1..];
    assert [a][1..] == [] && Added([a]) + Added(rest) == Added(answers);
    OnAnswerKeeps(c, s, a);
    OnAnswerHit(c, s, a);
    if rest == [] {
      assert s' == next;
    } else {
      assert rest[|rest| - 1] == answers[|answers| - 1];
      OnAnswerOutcome(c, s, a);
      LookupsGoOn(c, next, rest, s');
    }
  }

  /** The same for a whole query; one that needs no answer at all ends at once. */
  lemma QueryLookupsGoOn(c: Config, lookups: string, answers: seq<Answer>, s: State)
    requires NoDestruction(answers) && IsRun(c, Start(c, lookups), answers, s) && s.calls != []
    requires Added(answers) == 0 && (answers == [] || answers[|answers| - 1].status == NotFound)
    ensures EndsInFile(c, lookups, if answers == [] then ConnRefused else NotFound, s)
  {
    var s0 := State(lookups, 0, -1, 0, [], []);
    NextLookupKeeps(c, s0, ConnRefused);
    NextLookupHit(c, s0, ConnRefused);
    NextLookupOutcome(c, s0, ConnRefused);
    if answers != [] { LookupsGoOn(c, Start(c, lookups), answers, s); }
  }

  /** Nothing but a not-found answer without addresses makes the search go on once all answers of a round are in. */
  lemma OnlyNotFoundGoesOn(c: Config, s: State, a: Answer)
    requires Waiting(c, s) && s.remaining == 1 && (a.status != NotFound || s.nodes > 0)
    ensures Finished(OnAnswer(c, s, a)) && OnAnswer(c, s, a).tried == s.tried
  {
  }

  /** The hosts file behind a DNS entry that finds nothing. */
  lemma FileAfterDnsExample() returns (c: Config, s: State)
    ensures IsRun(c, Start(c, "bf"), [Answer(NotFound, Success, 0)], s) && s.calls == [Success] && s.nodes == 1
  {
    c := Config(Inet, 0, true, _ => 1, _ => true);
    s := OnAnswer(c, Start(c, "bf"), Answer(NotFound, Success, 0));
    assert [Answer(NotFound, Success, 0)][1..] == [];
    assert "bf"[1..] == "f";
  }

  /** With a response without records instead, the address is reported. */
  lemma EmptyResponseExample() returns (c: Config, answers: seq<Answer>, s: State)
    ensures answers == [Answer(Success, Success, 1), Answer(NoData, Success, 0)]
    ensures IsRun(c, Start(c, "b"), answers, s) && s.nodes == 1 && s.calls == [Success]
  {
    c := Config(Unspec, 0, true, _ => 0, _ => true);
    var four, six := Answer(Success, Success, 1), Answer(NoData, Success, 0);
    answers := [four, six];
    var s1 := OnAnswer(c, Start(c, "b"), four);
    s := OnAnswer(c, s1, six);
    assert answers[1..] == [six] && [six][1..] == [];
    assert IsRun(c, s1, [six], s);
  }

  /** Channel destruction ends the query on its first answer; nothing is left outstanding only on the last. */
  lemma DestructionEnds(c: Config, s: State, a: Answer)
    requires Inv(c, s) && Waiting(c, s) && a.status == Destruction
    ensures OnAnswer(c, s, a).calls == [Destruction]
    ensures Finished(OnAnswer(c, s, a)) <==> s.remaining == 1
  {
  }

  /** So with two families in flight the destruction callback comes while one answer is still due. */
  lemma DestructionExample() returns (c: Config, s: State)
    ensures s == Start(c, "b") && Waiting(c, s)
    ensures var s' := OnAnswer(c, s, Answer(Destruction, Success, 0)); |s'.calls| == 1 && s'.remaining == 1
  {
    c := Config(Unspec, 0, true, _ => 0, _ => true);
    s := Start(c, "b");
  }
}
