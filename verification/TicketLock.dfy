/** The ticket spin lock (src/sync.rs:27-55) as atomic steps of any number of threads. */
module TicketLock {
  import opened Modular

  /** Tickets are 32-bit and wrap. */
  const WRAP := 0x1_0000_0000

  datatype Thread = Idle | Waiting(ticket: nat) | Holding(ticket: nat)

  datatype Lock = Lock(nextTicket: nat, nowServing: nat, threads: seq<Thread>)

  datatype Event = Take(t: nat) | Enter(t: nat) | Drop(t: nat)

  /** `fetch_add` on the next ticket, the load that ends the spin loop, and the store on drop. */
  ghost predicate Next(s: Lock, e: Event, s': Lock)
  {
    && e.t < |s.threads|
    && match e
       case Take(t) =>
         && s.threads[t].Idle?
         && s' == s.(nextTicket := Mod(s.nextTicket + 1, WRAP), threads := s.threads[t := Waiting(s.nextTicket)])
       case Enter(t) =>
         && s.threads[t].Waiting? && s.threads[t].ticket == s.nowServing
         && s' == s.(threads := s.threads[t := Holding(s.nowServing)])
       case Drop(t) =>
         && s.threads[t].Holding?
         && s' == s.(nowServing := Mod(s.threads[t].ticket + 1, WRAP), threads := s.threads[t := Idle])
  }

  /** The threads with a ticket, in the order in which they took it. */
  type Line = seq<nat>

  ghost function LineNext(line: Line, e: Event): Line
  {
    match e
    case Take(t) => line + [t]
    case Enter(t) => line
    case Drop(t) => if line == [] then [] else line[1..]
  }

  ghost predicate Has(x: Thread, ticket: nat) { x == Waiting(ticket) || x == Holding(ticket) }

  /** The ticket of place `i` of the line. */
  ghost function TicketAt(serving: nat, i: nat): nat { Mod(serving + i, WRAP) }

  /** The threads in the line have consecutive tickets from `nowServing` on. */
  ghost predicate Tickets(s: Lock, line: Line)
  {
    && s.nowServing < WRAP && s.nextTicket == TicketAt(s.nowServing, |line|)
    && (forall i :: 0 <= i < |line| ==> line[i] < |s.threads| && Has(s.threads[line[i]], TicketAt(s.nowServing, i)))
    && (forall i, j :: 0 <= i < j < |line| ==> line[i] != line[j])
    && (forall t :: 0 <= t < |s.threads| && !s.threads[t].Idle? ==> t in line)
  }

  /** Only the first of the line is in. */
  ghost predicate Exclusive(s: Lock, line: Line)
  {
    forall t :: 0 <= t < |s.threads| && s.threads[t].Holding? ==> line != [] && t == line[0]
  }

  /** With at most 2^32 tickets out, only the first of the line can enter. */
  lemma EntersFirst(s: Lock, line: Line, t: nat)
    requires Tickets(s, line) && |line| <= WRAP && t < |s.threads|
    requires s.threads[t].Waiting? && s.threads[t].ticket == s.nowServing
    ensures line != [] && t == line[0]
  {
    hide Mod;
    var i :| 0 <= i < |line| && line[i] == t;
    IsMod(s.nowServing, 0, s.nowServing, WRAP);
    Wraps(s.nowServing + i, s.nowServing, WRAP);
  }

  lemma TakeKeeps(s: Lock, line: Line, t: nat, s': Lock)
    requires Tickets(s, line) && Exclusive(s, line) && Next(s, Take(t), s')
    ensures Tickets(s', line + [t]) && Exclusive(s', line + [t])
  {
    hide Mod;
    After(s.nowServing + |line|, WRAP);
    forall i | 0 <= i < |line| ensures line[i] != t {}
    forall u | 0 <= u < |s'.threads| && !s'.threads[u].Idle? ensures u in line + [t] {}
  }

  lemma DropKeeps(s: Lock, line: Line, t: nat, s': Lock)
    requires Tickets(s, line) && Exclusive(s, line) && Next(s, Drop(t), s')
    ensures line != [] && t == line[0] && Tickets(s', line[1..]) && Exclusive(s', line[1..])
  {
    hide Mod;
    var rest := line[1..];
    IsMod(s.nowServing, 0, s.nowServing, WRAP);
    assert Has(s.threads[t], TicketAt(s.nowServing, 0));
    forall i: nat | i <= |rest| ensures TicketAt(s'.nowServing, i) == TicketAt(s.nowServing, i + 1) {
      ModOfSum(s.nowServing + 1, i);
    }
    forall u | 0 <= u < |s'.threads| && !s'.threads[u].Idle? ensures u in rest {
      assert u in line;
    }
  }

  lemma ModOfSum(a: nat, i: nat)
    ensures Mod(Mod(a, WRAP) + i, WRAP) == Mod(a + i, WRAP)
  {
  }

  /** A step that leaves at most 2^32 tickets out keeps the line and lets in only its first. */
  lemma NextKeeps(s: Lock, line: Line, e: Event, s': Lock)
    requires Tickets(s, line) && Exclusive(s, line) && Next(s, e, s') && |line| <= WRAP
    ensures Tickets(s', LineNext(line, e)) && Exclusive(s', LineNext(line, e))
    ensures e.Enter? || e.Drop? ==> line != [] && e.t == line[0]
  {
    hide Mod;
    match e
    case Take(t) => TakeKeeps(s, line, t, s');
    case Enter(t) => EntersFirst(s, line, t);
    case Drop(t) => DropKeeps(s, line, t, s');
  }

  // ---- runs ----

  ghost function LineAt(events: seq<Event>, j: nat): Line
    requires j <= |events|
  {
    if j == 0 then [] else LineNext(LineAt(events, j - 1), events[j - 1])
  }

  ghost predicate IsRun(run: seq<Lock>, events: seq<Event>)
  {
    && |run| == |events| + 1
    && run[0].nextTicket == 0 && run[0].nowServing == 0 && (forall x <- run[0].threads :: x.Idle?)
    && forall k :: 0 <= k < |events| ==> Next(run[k], events[k], run[k + 1])
  }

  ghost predicate FewEnough(events: seq<Event>) { forall j: nat :: j <= |events| ==> |LineAt(events, j)| <= WRAP }

  lemma {:induction false} RunKeeps(run: seq<Lock>, events: seq<Event>, j: nat)
    requires IsRun(run, events) && FewEnough(events) && j <= |events|
    ensures Tickets(run[j], LineAt(events, j)) && Exclusive(run[j], LineAt(events, j))
  {
    hide Mod, Tickets, Exclusive, Next;
    if j == 0 {
      StartsEmpty(run[0]);
    } else {
      RunKeeps(run, events, j - 1);
      assert |LineAt(events, j - 1)| <= WRAP;
      assert Next(run[j - 1], events[j - 1], run[j]);
      NextKeeps(run[j - 1], LineAt(events, j - 1), events[j - 1], run[j]);
    }
  }

  lemma StartsEmpty(s: Lock)
    requires s.nextTicket == 0 && s.nowServing == 0 && forall x <- s.threads :: x.Idle?
    ensures Tickets(s, []) && Exclusive(s, [])
  {
    IsMod(0, 0, 0, WRAP);
    forall t | 0 <= t < |s.threads| ensures s.threads[t].Idle? { assert s.threads[t] in s.threads; }
  }

  /** Mutual exclusion. */
  lemma MutualExclusion(run: seq<Lock>, events: seq<Event>, j: nat, t: nat, u: nat)
    requires IsRun(run, events) && FewEnough(events) && j <= |events|
    requires t < |run[j].threads| && u < |run[j].threads| && run[j].threads[t].Holding? && run[j].threads[u].Holding?
    ensures t == u
  {
    hide Mod, Tickets;
    RunKeeps(run, events, j);
  }

  /** Where a thread's pending ticket stands in the line. */
  ghost predicate Ahead(events: seq<Event>, j: nat, t: nat, u: nat)
    requires j <= |events|
  {
    var line := LineAt(events, j);
    exists a, b :: 0 <= a < b < |line| && line[a] == t && line[b] == u
  }

  /** First come, first served: while `t` is ahead of `u` in the line, `u` does not enter. */
  lemma FirstComeFirstServed(run: seq<Lock>, events: seq<Event>, j: nat, t: nat, u: nat)
    requires IsRun(run, events) && FewEnough(events) && j < |events| && Ahead(events, j, t, u)
    ensures events[j] != Enter(u)
    ensures events[j] != Drop(t) ==> Ahead(events, j + 1, t, u)
  {
    hide Mod;
    RunKeeps(run, events, j);
    var line := LineAt(events, j);
    assert |line| <= WRAP;
    assert Next(run[j], events[j], run[j + 1]);
    NextKeeps(run[j], line, events[j], run[j + 1]);
    var a, b :| 0 <= a < b < |line| && line[a] == t && line[b] == u;
    var line' := LineAt(events, j + 1);
    match events[j]
    case Take(v) => assert line'[a] == t && line'[b] == u;
    case Enter(v) => assert line' == line;
    case Drop(v) => if v != t { assert a > 0 && line'[a - 1] == t && line'[b - 1] == u; }
  }

  /** The lock is never stuck: the first of the line is in or can enter. */
  lemma FirstCanEnter(run: seq<Lock>, events: seq<Event>, j: nat)
    requires IsRun(run, events) && FewEnough(events) && j <= |events| && LineAt(events, j) != []
    ensures var t := LineAt(events, j)[0];
            && t < |run[j].threads|
            && (run[j].threads[t].Holding? || exists s' :: Next(run[j], Enter(t), s'))
  {
    hide Mod;
    RunKeeps(run, events, j);
    var s, t := run[j], LineAt(events, j)[0];
    IsMod(s.nowServing, 0, s.nowServing, WRAP);
    assert Has(s.threads[t], TicketAt(s.nowServing, 0));
    if s.threads[t].Waiting? {
      assert Next(s, Enter(t), s.(threads := s.threads[t := Holding(s.nowServing)]));
    }
  }

  /** Beyond 2^32 tickets the lock fails: while the first of the line is in, the thread 2^32 places
      behind can enter. */
  lemma TooMany(s: Lock, line: Line)
    requires Tickets(s, line) && Exclusive(s, line) && |line| > WRAP && s.threads[line[0]].Holding?
    ensures var u := line[WRAP]; u != line[0] && exists s' :: Next(s, Enter(u), s') && s'.threads[u].Holding? && s'.threads[line[0]].Holding?
  {
    hide Mod;
    var u := line[WRAP];
    AddTurn(s.nowServing, WRAP);
    IsMod(s.nowServing, 0, s.nowServing, WRAP);
    assert Has(s.threads[u], TicketAt(s.nowServing, WRAP));
    var s' := s.(threads := s.threads[u := Holding(s.nowServing)]);
    assert Next(s, Enter(u), s');
  }

  /** `k` of `n` threads have come to a free lock. */
  ghost function Crowd(n: nat, k: nat): Lock
  {
    Lock(Mod(k, WRAP), 0, seq(n, i requires 0 <= i < n => if i < k then Waiting(Mod(i, WRAP)) else Idle))
  }

  lemma CrowdGrows(n: nat, k: nat)
    requires k < n
    ensures Next(Crowd(n, k), Take(k), Crowd(n, k + 1))
  {
    After(k, WRAP);
    assert Crowd(n, k + 1).threads == Crowd(n, k).threads[k := Waiting(Mod(k, WRAP))];
  }

  /** So 2^32 + 1 threads can break mutual exclusion. */
  lemma OverflowBreaks() returns (run: seq<Lock>, events: seq<Event>, t: nat, u: nat)
    ensures IsRun(run, events) && t < u < |run[|events|].threads|
    ensures run[|events|].threads[t].Holding? && run[|events|].threads[u].Holding?
  {
    hide Mod, Crowd;
    var n := WRAP + 1;
    var crowd := seq(n + 1, k requires 0 <= k <= n => Crowd(n, k));
    var takes := seq(n, k requires 0 <= k < n => Take(k));
    forall k | 0 <= k < n ensures Next(crowd[k], takes[k], crowd[k + 1]) { CrowdGrows(n, k); }
    CrowdEnds(n);
    var s := Crowd(n, n);
    var s1 := s.(threads := s.threads[0 := Holding(0)]);
    var s2 := s1.(threads := s1.threads[WRAP := Holding(0)]);
    run, events, t, u := crowd + [s1, s2], takes + [Enter(0), Enter(WRAP)], 0, WRAP;
    forall k | 0 <= k < |events| ensures Next(run[k], events[k], run[k + 1]) {
      if k < n { assert run[k] == crowd[k] && run[k + 1] == crowd[k + 1] && events[k] == takes[k]; }
    }
    assert run[0] == crowd[0];
  }

  lemma CrowdEnds(n: nat)
    requires n == WRAP + 1
    ensures Crowd(n, 0).nextTicket == 0 && Crowd(n, 0).nowServing == 0 && forall x <- Crowd(n, 0).threads :: x.Idle?
    ensures var s := Crowd(n, n); s.nowServing == 0 && |s.threads| == n && s.threads[0] == Waiting(0) && s.threads[WRAP] == Waiting(0)
  {
  }
}
