/** The single-producer single-consumer rings (src/vswitch.rs:68-104, src/global.rs:478-500), step by
step.  A slot is written and read bit by bit; a load of the other side's index may lag behind, but
never goes back. */
module Ring {
  import opened Modular

  datatype Producer<T> = NoStore | Writing(item: T, tail: nat) | Written(item: T, tail: nat)

  datatype Consumer<T> = NoTake | Reading(head: nat) | HasRead(head: nat, item: T)

  datatype Ring<T> = Ring(slots: seq<T>, head: nat, tail: nat, producer: Producer<T>, consumer: Consumer<T>)

  /** History: the items accepted so far, how many were taken, and the counts that each side has
      seen of the other. */
  datatype History<T> = History(accepted: seq<T>, taken: nat, seenTaken: nat, seenAccepted: nat)

  /** The items in the ring. */
  function Queue<T>(h: History<T>): seq<T>
    requires h.taken <= |h.accepted|
  {
    h.accepted[h.taken..]
  }

  // ---- steps ----

  datatype Event<T> =
    | Full(seen: nat)
    | Begin(item: T, seen: nat)
    | Scribble(junk: T)
    | Copied
    | Publish
    | Empty(seen: nat)
    | Look(seen: nat)
    | Read
    | Release

  /** What the producer does when it has loaded the consumer's index. */
  ghost predicate StoreNext<T>(s: Ring<T>, h: History<T>, e: Event<T>, s': Ring<T>, h': History<T>)
    requires |s.slots| > 0
  {
    var n := |s.slots|;
    match e
    case Full(seen) =>
      && s.producer.NoStore? && h.seenTaken <= seen <= h.taken
      && Mod(s.tail + 1, n) == Mod(seen, n)
      && s' == s && h' == h.(seenTaken := seen)
    case Begin(item, seen) =>
      && s.producer.NoStore? && h.seenTaken <= seen <= h.taken
      && Mod(s.tail + 1, n) != Mod(seen, n)
      && s' == s.(producer := Writing(item, s.tail)) && h' == h.(seenTaken := seen)
    case Scribble(junk) =>
      && s.producer.Writing? && s.producer.tail < n
      && s' == s.(slots := s.slots[s.producer.tail := junk]) && h' == h
    case Copied =>
      && s.producer.Writing? && s.producer.tail < n
      && s' == s.(slots := s.slots[s.producer.tail := s.producer.item], producer := Written(s.producer.item, s.producer.tail)) && h' == h
    case Publish =>
      && s.producer.Written?
      && s' == s.(tail := Mod(s.producer.tail + 1, n), producer := NoStore) && h' == h.(accepted := h.accepted + [s.producer.item])
    case _ => false
  }

  ghost predicate TakeNext<T>(s: Ring<T>, h: History<T>, e: Event<T>, s': Ring<T>, h': History<T>)
    requires |s.slots| > 0
  {
    var n := |s.slots|;
    match e
    case Empty(seen) =>
      && s.consumer.NoTake? && h.seenAccepted <= seen <= |h.accepted|
      && s.head == Mod(seen, n)
      && s' == s && h' == h.(seenAccepted := seen)
    case Look(seen) =>
      && s.consumer.NoTake? && h.seenAccepted <= seen <= |h.accepted|
      && s.head != Mod(seen, n)
      && s' == s.(consumer := Reading(s.head)) && h' == h.(seenAccepted := seen)
    case Read =>
      && s.consumer.Reading? && s.consumer.head < n
      && s' == s.(consumer := HasRead(s.consumer.head, s.slots[s.consumer.head])) && h' == h
    case Release =>
      && s.consumer.HasRead?
      && s' == s.(head := Mod(s.consumer.head + 1, n), consumer := NoTake) && h' == h.(taken := h.taken + 1)
    case _ => false
  }

  ghost predicate Next<T>(s: Ring<T>, h: History<T>, e: Event<T>, s': Ring<T>, h': History<T>)
    requires |s.slots| > 0
  {
    StoreNext(s, h, e, s', h') || TakeNext(s, h, e, s', h')
  }

  // ---- invariant ----

  /** The indices are the counts modulo the size, at most all slots but one are used, and neither
      side has seen more than there is. */
  ghost predicate Counts<T>(s: Ring<T>, h: History<T>)
  {
    var n := |s.slots|;
    && n > 0 && s.tail == Mod(|h.accepted|, n) && s.head == Mod(h.taken, n)
    && h.seenTaken <= h.taken <= h.seenAccepted <= |h.accepted| <= h.seenTaken + n - 1
  }

  ghost predicate Holds<T>(s: Ring<T>, h: History<T>)
    requires |s.slots| > 0
  {
    forall k :: h.taken <= k < |h.accepted| ==> s.slots[Mod(k, |s.slots|)] == h.accepted[k]
  }

  ghost predicate Inv<T>(s: Ring<T>, h: History<T>)
  {
    && Counts(s, h) && Holds(s, h)
    && (match s.producer
        case NoStore => true
        case Writing(item, tail) => tail == s.tail && |h.accepted| < h.seenTaken + |s.slots| - 1
        case Written(item, tail) => tail == s.tail && |h.accepted| < h.seenTaken + |s.slots| - 1 && s.slots[tail] == item)
    && (match s.consumer
        case NoTake => true
        case Reading(head) => head == s.head && h.taken < h.seenAccepted
        case HasRead(head, item) => head == s.head && h.taken < h.seenAccepted && item == h.accepted[h.taken])
  }

  /** The slot that the producer fills holds no item. */
  lemma FreeSlot<T>(s: Ring<T>, h: History<T>, k: nat)
    requires Counts(s, h) && h.taken <= k < |h.accepted| < h.seenTaken + |s.slots| - 1
    ensures Mod(k, |s.slots|) != s.tail
  {
    hide Mod;
    Wraps(|h.accepted|, k, |s.slots|);
  }

  /** The producer never writes the slot that the consumer reads. */
  lemma NoRace<T>(s: Ring<T>, h: History<T>)
    requires Inv(s, h) && s.producer.Writing? && !s.consumer.NoTake?
    ensures s.producer.tail != s.consumer.head
  {
    hide Mod;
    FreeSlot(s, h, h.taken);
  }

  // ---- refinement of a bounded queue ----

  /** The step as an operation on the queue of capacity `n - 1`. */
  ghost predicate QueueStep<T>(q: seq<T>, e: Event<T>, q': seq<T>, s: Ring<T>, h: History<T>)
    requires h.taken <= |h.accepted|
  {
    match e
    case Publish => s.producer.Written? && |q| < |s.slots| - 1 && q' == q + [s.producer.item]
    case Release => s.consumer.HasRead? && |q| > 0 && s.consumer.item == q[0] && q' == q[1..]
    case Full(seen) => q' == q && (seen == h.taken ==> |q| == |s.slots| - 1)
    case Empty(seen) => q' == q && (seen == |h.accepted| ==> q == [])
    case _ => q' == q
  }

  /** Whether the producer sees a full ring. */
  lemma FullMeans<T>(s: Ring<T>, h: History<T>, seen: nat)
    requires Counts(s, h) && h.seenTaken <= seen <= h.taken
    ensures Mod(s.tail + 1, |s.slots|) == Mod(seen, |s.slots|) <==> |h.accepted| == seen + |s.slots| - 1
  {
    hide Mod;
    var n := |s.slots|;
    After(|h.accepted|, n);
    AddTurn(seen, n);
    Wraps(seen + n, |h.accepted| + 1, n);
  }

  lemma EmptyMeans<T>(s: Ring<T>, h: History<T>, seen: nat)
    requires Counts(s, h) && h.seenAccepted <= seen <= |h.accepted|
    ensures s.head == Mod(seen, |s.slots|) <==> seen == h.taken
  {
    hide Mod;
    Wraps(seen, h.taken, |s.slots|);
  }

  /** The consumer's slot holds the oldest item. */
  lemma OldestIn<T>(s: Ring<T>, h: History<T>)
    requires Counts(s, h) && Holds(s, h) && h.taken < |h.accepted|
    ensures s.slots[s.head] == h.accepted[h.taken]
  {
  }

  /** Writing the producer's slot changes no item. */
  lemma WriteKeeps<T>(s: Ring<T>, h: History<T>, item: T)
    requires Counts(s, h) && Holds(s, h) && |h.accepted| < h.seenTaken + |s.slots| - 1
    ensures Counts(s.(slots := s.slots[s.tail := item]), h) && Holds(s.(slots := s.slots[s.tail := item]), h)
  {
    hide Mod;
    forall k | h.taken <= k < |h.accepted| ensures Mod(k, |s.slots|) != s.tail { FreeSlot(s, h, k); }
  }

  lemma StoreKeeps<T>(s: Ring<T>, h: History<T>, e: Event<T>, s': Ring<T>, h': History<T>)
    requires Inv(s, h) && StoreNext(s, h, e, s', h')
    ensures Inv(s', h') && QueueStep(Queue(h), e, Queue(h'), s, h)
  {
    hide Mod;
    match e
    case Full(seen) => FullMeans(s, h, seen);
    case Begin(item, seen) => FullMeans(s, h, seen);
    case Scribble(junk) =>
      WriteKeeps(s, h, junk);
      if !s.consumer.NoTake? { NoRace(s, h); }
    case Copied =>
      WriteKeeps(s, h, s.producer.item);
      if !s.consumer.NoTake? { NoRace(s, h); }
    case Publish => After(|h.accepted|, |s.slots|);
  }

  lemma TakeKeeps<T>(s: Ring<T>, h: History<T>, e: Event<T>, s': Ring<T>, h': History<T>)
    requires Inv(s, h) && TakeNext(s, h, e, s', h')
    ensures Inv(s', h') && QueueStep(Queue(h), e, Queue(h'), s, h)
  {
    hide Mod;
    match e
    case Empty(seen) => EmptyMeans(s, h, seen);
    case Look(seen) => EmptyMeans(s, h, seen);
    case Read => OldestIn(s, h);
    case Release => After(h.taken, |s.slots|);
  }

  // ---- runs ----

  ghost predicate IsRun<T>(run: seq<(Ring<T>, History<T>)>, events: seq<Event<T>>)
  {
    && |run| == |events| + 1
    && forall k :: 0 <= k < |events| ==>
         |run[k].0.slots| > 0 && Next(run[k].0, run[k].1, events[k], run[k + 1].0, run[k + 1].1)
  }

  ghost predicate Fresh<T>(s: Ring<T>, h: History<T>)
  {
    |s.slots| > 0 && s == Ring(s.slots, 0, 0, NoStore, NoTake) && h == History([], 0, 0, 0)
  }

  /** The item that a step makes available, and the one that it hands out. */
  ghost function StoredBy<T>(s: Ring<T>, e: Event<T>): seq<T> { if e.Publish? && s.producer.Written? then [s.producer.item] else [] }

  ghost function TakenBy<T>(s: Ring<T>, e: Event<T>): seq<T> { if e.Release? && s.consumer.HasRead? then [s.consumer.item] else [] }

  lemma NextKeeps<T>(s: Ring<T>, h: History<T>, e: Event<T>, s': Ring<T>, h': History<T>)
    requires Inv(s, h) && Next(s, h, e, s', h')
    ensures Inv(s', h') && |s'.slots| == |s.slots|
    ensures h'.accepted == h.accepted + StoredBy(s, e)
    ensures h'.accepted[..h'.taken] == h.accepted[..h.taken] + TakenBy(s, e)
  {
    hide Mod, Holds;
    if StoreNext(s, h, e, s', h') { StoreKeeps(s, h, e, s', h'); } else { TakeKeeps(s, h, e, s', h'); }
    assert h.accepted + [] == h.accepted;
  }

  ghost function Stored<T>(run: seq<(Ring<T>, History<T>)>, events: seq<Event<T>>, j: nat): seq<T>
    requires j <= |events| <= |run|
  {
    if j == 0 then [] else Stored(run, events, j - 1) + StoredBy(run[j - 1].0, events[j - 1])
  }

  ghost function Taken<T>(run: seq<(Ring<T>, History<T>)>, events: seq<Event<T>>, j: nat): seq<T>
    requires j <= |events| <= |run|
  {
    if j == 0 then [] else Taken(run, events, j - 1) + TakenBy(run[j - 1].0, events[j - 1])
  }

  lemma FreshInv<T>(s: Ring<T>, h: History<T>)
    requires Fresh(s, h)
    ensures Inv(s, h)
  {
    IsMod(0, 0, 0, |s.slots|);
  }

  /** In every run the consumer gets the accepted items, each once and in order, and the ring never
      holds more than all slots but one. */
  lemma {:induction false} FirstInFirstOut<T>(run: seq<(Ring<T>, History<T>)>, events: seq<Event<T>>, j: nat)
    requires IsRun(run, events) && Fresh(run[0].0, run[0].1) && j <= |events|
    ensures Inv(run[j].0, run[j].1) && |run[j].0.slots| == |run[0].0.slots|
    ensures Stored(run, events, j) == Taken(run, events, j) + Queue(run[j].1) && |Queue(run[j].1)| < |run[0].0.slots|
    ensures Stored(run, events, j) == run[j].1.accepted
    ensures Taken(run, events, j) == run[j].1.accepted[..run[j].1.taken]
  {
    hide Mod, Holds, StoredBy, TakenBy, Next;
    if j == 0 {
      FreshInv(run[0].0, run[0].1);
    } else {
      FirstInFirstOut(run, events, j - 1);
      assert Next(run[j - 1].0, run[j - 1].1, events[j - 1], run[j].0, run[j].1);
      NextKeeps(run[j - 1].0, run[j - 1].1, events[j - 1], run[j].0, run[j].1);
    }
    var h := run[j].1;
    assert h.accepted == h.accepted[..h.taken] + Queue(h);
  }
}
