/** FF-A notifications (src/ffa/notifications.rs): per endpoint a bitmap of pending bits, as the set
of its bits, and up to eight bindings of senders to bits. */
module Notifications {
  import opened Descriptor

  const MAX_ENDPOINTS := 8
  const MAX_BINDS := 8
  const MAX_VMS := 4

  datatype Bind = Bind(sender: nat, bits: set<nat>, active: bool)

  const UNBOUND := Bind(0, {}, false)

  datatype Endpoint = Endpoint(enabled: bool, pending: set<nat>, binds: seq<Bind>)

  datatype Reply = Done | Bits(bits: set<nat>) | InvalidParameters | Denied | NoMemory

  datatype Call =
    | Create(receiver: nat)
    | Destroy(receiver: nat)
    | BindTo(receiver: nat, sender: nat, bits: set<nat>)
    | Unbind(receiver: nat, sender: nat, bits: set<nat>)
    | Set(receiver: nat, sender: nat, bits: set<nat>)
    | Get(receiver: nat)

  /** VMs 1 to 4 and two secure partitions. */
  function EndpointIndex(id: nat): (r: Option<nat>)
    ensures r.Some? ==> r.value < MAX_ENDPOINTS
  {
    if 1 <= id <= MAX_VMS then Some(id - 1)
    else if id == 0x8001 then Some(MAX_VMS)
    else if id == 0x8002 then Some(MAX_VMS + 1)
    else None
  }

  /** Exactly these identifiers have an endpoint, and no two of them the same. */
  lemma EndpointsApart(id: nat, other: nat)
    ensures EndpointIndex(id).Some? <==> 1 <= id <= 4 || id == 0x8001 || id == 0x8002
    ensures EndpointIndex(id).Some? && EndpointIndex(id) == EndpointIndex(other) ==> id == other
  {
  }

  // ---- one endpoint ----

  predicate Overlaps(b: Bind, bits: set<nat>) { b.active && !(b.bits !! bits) }

  predicate Owns(b: Bind, sender: nat, bits: set<nat>) { Overlaps(b, bits) && b.sender == sender }

  predicate IsFree(b: Bind) { !b.active }

  /** The first binding from `i` on with a property. */
  function FirstOf(binds: seq<Bind>, p: Bind -> bool, i: nat): (r: Option<nat>)
    requires i <= |binds|
    ensures r.Some? ==> i <= r.value < |binds| && p(binds[r.value]) && forall k :: i <= k < r.value ==> !p(binds[k])
    ensures r.None? ==> forall k :: i <= k < |binds| ==> !p(binds[k])
    decreases |binds| - i
  {
    if i == |binds| then None else if p(binds[i]) then Some(i) else FirstOf(binds, p, i + 1)
  }

  /** The bits that a sender may set. */
  ghost function Allowed(binds: seq<Bind>, sender: nat): set<nat>
  {
    set i, b | 0 <= i < |binds| && binds[i].active && binds[i].sender == sender && b in binds[i].bits :: b
  }

  function Cleared(b: Bind, bits: set<nat>): Bind { b.(bits := b.bits - bits, active := b.bits - bits != {}) }

  /** The effect of a call on the endpoint of its receiver. */
  ghost function Effect(e: Endpoint, c: Call): (Endpoint, Reply)
  {
    match c
    case Create(_) => if e.enabled then (e, Denied) else (e.(enabled := true), Done)
    case Destroy(_) =>
      if !e.enabled then (e, Denied) else (Endpoint(false, {}, seq(|e.binds|, _ => UNBOUND)), Done)
    case BindTo(_, sender, bits) =>
      if bits == {} then (e, InvalidParameters)
      else if !e.enabled || (exists b <- e.binds :: Overlaps(b, bits)) then (e, Denied)
      else
        var i := FirstOf(e.binds, IsFree, 0);
        if i.None? then (e, NoMemory) else (e.(binds := e.binds[i.value := Bind(sender, bits, true)]), Done)
    case Unbind(_, sender, bits) =>
      var i := FirstOf(e.binds, b => Owns(b, sender, bits), 0);
      if i.None? then (e, Denied) else (e.(binds := e.binds[i.value := Cleared(e.binds[i.value], bits)]), Done)
    case Set(_, sender, bits) =>
      if !e.enabled || !(bits <= Allowed(e.binds, sender)) then (e, Denied) else (e.(pending := e.pending + bits), Done)
    case Get(_) => if !e.enabled then (e, Denied) else (e.(pending := {}), Bits(e.pending))
  }

  /** Active bindings are nonempty and share no bit; a disabled endpoint has neither bindings nor
      pending bits. */
  ghost predicate Sound(e: Endpoint)
  {
    && |e.binds| == MAX_BINDS
    && (forall b <- e.binds :: b.active ==> b.bits != {})
    && (forall i, j :: 0 <= i < j < |e.binds| && e.binds[i].active && e.binds[j].active ==> e.binds[i].bits !! e.binds[j].bits)
    && (!e.enabled ==> e.pending == {} && forall b <- e.binds :: !b.active)
  }

  lemma EffectKeeps(e: Endpoint, c: Call)
    requires Sound(e)
    ensures Sound(Effect(e, c).0)
  {
    hide Allowed;
    var e' := Effect(e, c).0;
    match c
    case BindTo(_, sender, bits) =>
      if Effect(e, c).1 == Done {
        forall k | 0 <= k < |e.binds| && e.binds[k].active ensures e.binds[k].bits !! bits { assert !Overlaps(e.binds[k], bits); }
      }
    case Unbind(_, sender, bits) =>
      if Effect(e, c).1 == Done {
        var i := FirstOf(e.binds, b => Owns(b, sender, bits), 0).value;
        assert e.binds[i] in e.binds;
        forall b <- e'.binds | b.active ensures b.bits != {} {}
      }
    case _ =>
  }

  /** A bit has at most one bound sender. */
  lemma OneSender(e: Endpoint, s: nat, t: nat, b: nat)
    requires Sound(e) && b in Allowed(e.binds, s) && b in Allowed(e.binds, t)
    ensures s == t
  {
  }

  /** Unbinding clears all the bits that it names exactly when they belong to one binding of the
      sender: only the first that meets them is changed. */
  lemma UnbindExactly(e: Endpoint, receiver: nat, sender: nat, bits: set<nat>)
    requires Sound(e) && Effect(e, Unbind(receiver, sender, bits)).1 == Done
    ensures Allowed(Effect(e, Unbind(receiver, sender, bits)).0.binds, sender) !! bits <==>
            forall i, j :: 0 <= i < |e.binds| && 0 <= j < |e.binds| && Owns(e.binds[i], sender, bits) && Owns(e.binds[j], sender, bits) ==> i == j
  {
    var k := FirstOf(e.binds, b => Owns(b, sender, bits), 0).value;
    var binds' := e.binds[k := Cleared(e.binds[k], bits)];
    if j :| 0 <= j < |e.binds| && j != k && Owns(e.binds[j], sender, bits) {
      var b :| b in e.binds[j].bits && b in bits;
      assert binds'[j] == e.binds[j];
      assert b in Allowed(binds', sender);
    } else {
      forall b | b in Allowed(binds', sender) ensures b !in bits {
        var j :| 0 <= j < |binds'| && binds'[j].active && binds'[j].sender == sender && b in binds'[j].bits;
        if j != k { assert !Owns(e.binds[j], sender, bits); }
      }
    }
  }

  /** Two bindings of one sender, made from a fresh endpoint. */
  ghost function BoundTwice(receiver: nat, sender: nat): Endpoint
  {
    var e0 := Endpoint(false, {}, seq(MAX_BINDS, _ => UNBOUND));
    var e1 := Effect(e0, Create(receiver)).0;
    Effect(Effect(e1, BindTo(receiver, sender, {0})).0, BindTo(receiver, sender, {1})).0
  }

  lemma TwoBinds(receiver: nat, sender: nat)
    ensures BoundTwice(receiver, sender) ==
              Endpoint(true, {}, [Bind(sender, {0}, true), Bind(sender, {1}, true)] + seq(MAX_BINDS - 2, _ => UNBOUND))
  {
    var e0 := Endpoint(true, {}, seq(MAX_BINDS, _ => UNBOUND));
    var e1 := Effect(e0, BindTo(receiver, sender, {0})).0;
    assert e1.binds == [Bind(sender, {0}, true)] + seq(MAX_BINDS - 1, _ => UNBOUND);
    assert FirstOf(e1.binds, IsFree, 0) == Some(1);
    var e2 := Effect(e1, BindTo(receiver, sender, {1})).0;
    assert e2.binds == [Bind(sender, {0}, true), Bind(sender, {1}, true)] + seq(MAX_BINDS - 2, _ => UNBOUND);
  }

  /** Unbinding both succeeds, and leaves the second bound. */
  lemma UnbindMisses(receiver: nat, sender: nat)
    ensures Sound(BoundTwice(receiver, sender))
    ensures var (e, reply) := Effect(BoundTwice(receiver, sender), Unbind(receiver, sender, {0, 1}));
            reply == Done && 1 in Allowed(e.binds, sender)
  {
    var e := BoundTwice(receiver, sender);
    var binds := [Bind(sender, {0}, true), Bind(sender, {1}, true)] + seq(MAX_BINDS - 2, _ => UNBOUND);
    TwoBinds(receiver, sender);
    assert Owns(e.binds[0], sender, {0, 1}) by { assert 0 in {0, 1} * {0}; }
    assert FirstOf(e.binds, b => Owns(b, sender, {0, 1}), 0) == Some(0);
    var e' := Effect(e, Unbind(receiver, sender, {0, 1})).0;
    assert e'.binds[1] == binds[1] == Bind(sender, {1}, true);
  }

  // ---- all endpoints ----

  type Table = seq<Endpoint>

  ghost function Apply(t: Table, c: Call): (Table, Reply)
    requires |t| == MAX_ENDPOINTS
  {
    match EndpointIndex(c.receiver)
    case None => (t, InvalidParameters)
    case Some(i) => (t[i := Effect(t[i], c).0], Effect(t[i], c).1)
  }

  class NotificationState {
    const endpoints: array<Endpoint>

    ghost predicate Valid()
      reads endpoints
    {
      endpoints.Length == MAX_ENDPOINTS && forall k :: 0 <= k < MAX_ENDPOINTS ==> Sound(endpoints[k])
    }

    constructor ()
      ensures Valid() && fresh(endpoints) && forall e <- endpoints[..] :: e == Endpoint(false, {}, seq(MAX_BINDS, _ => UNBOUND))
    {
      endpoints := new Endpoint[MAX_ENDPOINTS](_ => Endpoint(false, {}, seq(MAX_BINDS, _ => UNBOUND)));
    }

    method BitmapCreate(receiver: nat) returns (r: Reply)
      requires Valid()
      modifies endpoints
      ensures Valid() && (endpoints[..], r) == Apply(old(endpoints[..]), Create(receiver))
    {
      var i := EndpointIndex(receiver);
      if i.None? { return InvalidParameters; }
      SameEntry(endpoints[..], i.value);
      EffectKeeps(endpoints[i.value], Create(receiver));
      if endpoints[i.value].enabled { return Denied; }
      endpoints[i.value] := endpoints[i.value].(enabled := true);
      return Done;
    }

    method BitmapDestroy(receiver: nat) returns (r: Reply)
      requires Valid()
      modifies endpoints
      ensures Valid() && (endpoints[..], r) == Apply(old(endpoints[..]), Destroy(receiver))
    {
      var i := EndpointIndex(receiver);
      if i.None? { return InvalidParameters; }
      var e := endpoints[i.value];
      SameEntry(endpoints[..], i.value);
      EffectKeeps(e, Destroy(receiver));
      if !e.enabled { return Denied; }
      var binds := e.binds;
      for k := 0 to |e.binds|
        invariant |binds| == |e.binds| && forall j :: 0 <= j < k ==> binds[j] == UNBOUND
      {
        binds := binds[k := UNBOUND];
      }
      assert binds == seq(|e.binds|, _ => UNBOUND);
      endpoints[i.value] := Endpoint(false, {}, binds);
      return Done;
    }

    method BindSender(sender: nat, receiver: nat, bits: set<nat>) returns (r: Reply)
      requires Valid()
      modifies endpoints
      ensures Valid() && (endpoints[..], r) == Apply(old(endpoints[..]), BindTo(receiver, sender, bits))
    {
      var i := EndpointIndex(receiver);
      if i.Some? { SameEntry(endpoints[..], i.value); }
      if bits == {} || i.None? { return InvalidParameters; }
      var e := endpoints[i.value];
      EffectKeeps(e, BindTo(receiver, sender, bits));
      if !e.enabled { return Denied; }
      for k := 0 to |e.binds|
        invariant forall j :: 0 <= j < k ==> !Overlaps(e.binds[j], bits)
      {
        if Overlaps(e.binds[k], bits) { return Denied; }
      }
      for k := 0 to |e.binds|
        invariant FirstOf(e.binds, IsFree, 0) == FirstOf(e.binds, IsFree, k)
        invariant endpoints[..] == old(endpoints[..])
      {
        if IsFree(e.binds[k]) {
          endpoints[i.value] := e.(binds := e.binds[k := Bind(sender, bits, true)]);
          return Done;
        }
      }
      return NoMemory;
    }

    method UnbindSender(sender: nat, receiver: nat, bits: set<nat>) returns (r: Reply)
      requires Valid()
      modifies endpoints
      ensures Valid() && (endpoints[..], r) == Apply(old(endpoints[..]), Unbind(receiver, sender, bits))
    {
      var i := EndpointIndex(receiver);
      if i.None? { return InvalidParameters; }
      var e := endpoints[i.value];
      SameEntry(endpoints[..], i.value);
      EffectKeeps(e, Unbind(receiver, sender, bits));
      var owns := b => Owns(b, sender, bits);
      for k := 0 to |e.binds|
        invariant FirstOf(e.binds, owns, 0) == FirstOf(e.binds, owns, k)
        invariant endpoints[..] == old(endpoints[..])
      {
        if owns(e.binds[k]) {
          endpoints[i.value] := e.(binds := e.binds[k := Cleared(e.binds[k], bits)]);
          return Done;
        }
      }
      return Denied;
    }

    method SetBits(sender: nat, receiver: nat, bits: set<nat>) returns (r: Reply)
      requires Valid()
      modifies endpoints
      ensures Valid() && (endpoints[..], r) == Apply(old(endpoints[..]), Set(receiver, sender, bits))
    {
      var i := EndpointIndex(receiver);
      if i.None? { return InvalidParameters; }
      var e := endpoints[i.value];
      SameEntry(endpoints[..], i.value);
      EffectKeeps(e, Set(receiver, sender, bits));
      if !e.enabled { return Denied; }
      var allowed: set<nat> := {};
      for k := 0 to |e.binds|
        invariant allowed == Allowed(e.binds[..k], sender) && endpoints[..] == old(endpoints[..])
      {
        AllowedStep(e.binds, k, sender);
        if e.binds[k].active && e.binds[k].sender == sender { allowed := allowed + e.binds[k].bits; }
      }
      assert e.binds[..|e.binds|] == e.binds;
      if !(bits <= allowed) { return Denied; }
      assert Effect(e, Set(receiver, sender, bits)).0 == e.(pending := e.pending + bits);
      endpoints[i.value] := e.(pending := e.pending + bits);
      return Done;
    }

    method GetBits(receiver: nat) returns (r: Reply)
      requires Valid()
      modifies endpoints
      ensures Valid() && (endpoints[..], r) == Apply(old(endpoints[..]), Get(receiver))
    {
      var i := EndpointIndex(receiver);
      if i.None? { return InvalidParameters; }
      var e := endpoints[i.value];
      SameEntry(endpoints[..], i.value);
      EffectKeeps(e, Get(receiver));
      if !e.enabled { return Denied; }
      endpoints[i.value] := e.(pending := {});
      return Bits(e.pending);
    }
  }

  lemma SameEntry(t: Table, i: nat)
    requires i < |t|
    ensures t[i := t[i]] == t
  {
  }

  lemma AllowedStep(binds: seq<Bind>, k: nat, sender: nat)
    requires k < |binds|
    ensures Allowed(binds[..k + 1], sender) ==
            Allowed(binds[..k], sender) + if binds[k].active && binds[k].sender == sender then binds[k].bits else {}
  {
    var a, c := binds[..k], binds[..k + 1];
    forall b <- Allowed(a, sender) ensures b in Allowed(c, sender) {
      var i :| 0 <= i < |a| && a[i].active && a[i].sender == sender && b in a[i].bits;
      assert c[i] == a[i];
    }
    assert c[k] == binds[k];
    assert forall i :: 0 <= i < k ==> c[i] == a[i];
  }

  // ---- runs ----

  ghost predicate IsRun(run: seq<Table>, calls: seq<Call>)
  {
    && |run| == |calls| + 1 && (forall t <- run :: |t| == MAX_ENDPOINTS)
    && (forall e <- run[0] :: Sound(e) && !e.enabled)
    && forall k :: 0 <= k < |calls| ==> run[k + 1] == Apply(run[k], calls[k]).0
  }

  ghost function ReplyOf(run: seq<Table>, calls: seq<Call>, k: nat): Reply
    requires IsRun(run, calls) && k < |calls|
  {
    Apply(run[k], calls[k]).1
  }

  /** Call `k` set bit `b` of endpoint `i`. */
  ghost predicate Raises(run: seq<Table>, calls: seq<Call>, k: nat, i: nat, b: nat)
    requires IsRun(run, calls) && k < |calls|
  {
    calls[k].Set? && EndpointIndex(calls[k].receiver) == Some(i) && b in calls[k].bits && ReplyOf(run, calls, k) == Done
  }

  /** Call `k` fetched the bits of endpoint `i`, or destroyed them. */
  ghost predicate Drains(run: seq<Table>, calls: seq<Call>, k: nat, i: nat)
    requires IsRun(run, calls) && k < |calls|
  {
    && (calls[k].Get? || calls[k].Destroy?) && EndpointIndex(calls[k].receiver) == Some(i)
    && (ReplyOf(run, calls, k).Bits? || ReplyOf(run, calls, k) == Done)
  }

  ghost predicate RaisedSince(run: seq<Table>, calls: seq<Call>, j: nat, i: nat, b: nat)
    requires IsRun(run, calls) && j <= |calls|
  {
    exists k: nat :: k < j && Raises(run, calls, k, i, b) && forall m :: k < m < j ==> !Drains(run, calls, m, i)
  }

  /** A bit is pending exactly when it was set after the bits were last fetched. */
  lemma {:induction false} PendingExactly(run: seq<Table>, calls: seq<Call>, j: nat, i: nat, b: nat)
    requires IsRun(run, calls) && j <= |calls| && i < MAX_ENDPOINTS
    ensures Sound(run[j][i])
    ensures b in run[j][i].pending <==> RaisedSince(run, calls, j, i, b)
  {
    hide Sound;
    assert run[j] in run;
    if j == 0 {
      assert run[0][i] in run[0];
      DisabledHasNone(run[0][i]);
    } else {
      PendingExactly(run, calls, j - 1, i, b);
      assert run[j - 1] in run;
      assert run[j] == Apply(run[j - 1], calls[j - 1]).0;
      EffectKeeps(run[j - 1][i], calls[j - 1]);
      PendingStep(run, calls, j, i, b);
    }
  }

  lemma DisabledHasNone(e: Endpoint)
    requires Sound(e) && !e.enabled
    ensures e.pending == {}
  {
  }

  lemma PendingStep(run: seq<Table>, calls: seq<Call>, j: nat, i: nat, b: nat)
    requires IsRun(run, calls) && 0 < j <= |calls| && i < MAX_ENDPOINTS && |run[j]| == |run[j - 1]| == MAX_ENDPOINTS
    requires b in run[j - 1][i].pending <==> RaisedSince(run, calls, j - 1, i, b)
    ensures b in run[j][i].pending <==> RaisedSince(run, calls, j, i, b)
  {
    hide Sound, Effect;
    var k := j - 1;
    assert run[j] == Apply(run[k], calls[k]).0;
    if EndpointIndex(calls[k].receiver) == Some(i) { EffectOnPending(run[k][i], calls[k], b); }
    if RaisedSince(run, calls, k, i, b) && !Drains(run, calls, k, i) {
      var m: nat :| m < k && Raises(run, calls, m, i, b) && forall n :: m < n < k ==> !Drains(run, calls, n, i);
      assert m < j && Raises(run, calls, m, i, b) && forall n :: m < n < j ==> !Drains(run, calls, n, i);
    }
    if Raises(run, calls, k, i, b) { assert RaisedSince(run, calls, j, i, b); }
    if RaisedSince(run, calls, j, i, b) {
      var m: nat :| m < j && Raises(run, calls, m, i, b) && forall n :: m < n < j ==> !Drains(run, calls, n, i);
      if m < k { assert RaisedSince(run, calls, k, i, b) && !Drains(run, calls, k, i); }
    }
  }

  lemma EffectOnPending(e: Endpoint, c: Call, b: nat)
    ensures var (e', r) := Effect(e, c);
            b in e'.pending <==>
              (c.Set? && r == Done && b in c.bits) || (b in e.pending && !((c.Get? || c.Destroy?) && (r.Bits? || r == Done)))
  {
    hide Allowed;
  }

  /** Each GET returns exactly the bits set since the previous GET, or since the bitmap was made. */
  lemma GetsWhatWasSet(run: seq<Table>, calls: seq<Call>, j: nat, b: nat)
    requires IsRun(run, calls) && j < |calls| && calls[j].Get? && ReplyOf(run, calls, j).Bits?
    ensures EndpointIndex(calls[j].receiver).Some?
    ensures b in ReplyOf(run, calls, j).bits <==> RaisedSince(run, calls, j, EndpointIndex(calls[j].receiver).value, b)
  {
    PendingExactly(run, calls, j, EndpointIndex(calls[j].receiver).value, b);
  }

  // ---- who may set what ----

  /** Each reply, by the bits that senders may set. */
  lemma RepliesExactly(e: Endpoint, c: Call)
    requires Sound(e)
    ensures match c
            case Create(_) => Effect(e, c).1 == if e.enabled then Denied else Done
            case Destroy(_) => Effect(e, c).1 == if e.enabled then Done else Denied
            case BindTo(_, sender, bits) =>
              Effect(e, c).1 == if bits == {} then InvalidParameters
                                else if !e.enabled || !(forall s :: Allowed(e.binds, s) !! bits) then Denied
                                else if forall b <- e.binds :: b.active then NoMemory else Done
            case Unbind(_, sender, bits) => Effect(e, c).1 == if Allowed(e.binds, sender) !! bits then Denied else Done
            case Set(_, sender, bits) => Effect(e, c).1 == if e.enabled && (forall b <- bits :: b in Allowed(e.binds, sender)) then Done else Denied
            case Get(_) => Effect(e, c).1 == if e.enabled then Bits(e.pending) else Denied
  {
    match c
    case BindTo(_, sender, bits) =>
      BoundAnywhere(e.binds, bits);
      var i := FirstOf(e.binds, IsFree, 0);
      assert i.Some? ==> e.binds[i.value] in e.binds;
    case Unbind(_, sender, bits) => BoundBy(e.binds, sender, bits);
    case _ =>
  }

  lemma BoundAnywhere(binds: seq<Bind>, bits: set<nat>)
    ensures (exists b <- binds :: Overlaps(b, bits)) <==> !(forall s :: Allowed(binds, s) !! bits)
  {
    if b :| b in binds && Overlaps(b, bits) {
      var i :| 0 <= i < |binds| && binds[i] == b;
      var x :| x in b.bits && x in bits;
      assert x in Allowed(binds, b.sender);
    }
    forall s, x | x in Allowed(binds, s) && x in bits ensures exists b <- binds :: Overlaps(b, bits) {
      var i :| 0 <= i < |binds| && binds[i].active && binds[i].sender == s && x in binds[i].bits;
      assert Overlaps(binds[i], bits);
    }
  }

  lemma BoundBy(binds: seq<Bind>, sender: nat, bits: set<nat>)
    ensures FirstOf(binds, b => Owns(b, sender, bits), 0).Some? <==> !(Allowed(binds, sender) !! bits)
  {
    var f := FirstOf(binds, b => Owns(b, sender, bits), 0);
    if f.Some? {
      var x :| x in binds[f.value].bits && x in bits;
      assert x in Allowed(binds, sender);
    }
    forall x | x in Allowed(binds, sender) && x in bits ensures f.Some? {
      var i :| 0 <= i < |binds| && binds[i].active && binds[i].sender == sender && x in binds[i].bits;
      assert Owns(binds[i], sender, bits);
    }
  }

  /** Call `k` bound bit `b` of endpoint `i` to the sender. */
  ghost predicate BindsBit(run: seq<Table>, calls: seq<Call>, k: nat, i: nat, sender: nat, b: nat)
    requires IsRun(run, calls) && k < |calls|
  {
    && calls[k].BindTo? && EndpointIndex(calls[k].receiver) == Some(i) && calls[k].sender == sender && b in calls[k].bits
    && ReplyOf(run, calls, k) == Done
  }

  /** The binding of the sender that holds `b` is the first one that meets `bits`. */
  ghost predicate FirstMet(binds: seq<Bind>, sender: nat, bits: set<nat>, b: nat)
  {
    exists j :: 0 <= j < |binds| && binds[j].active && binds[j].sender == sender && b in binds[j].bits
                && forall k :: 0 <= k < j ==> !(binds[k].active && binds[k].sender == sender && !(binds[k].bits !! bits))
  }

  /** Call `k` took bit `b` of endpoint `i` away from the sender. */
  ghost predicate UnbindsBit(run: seq<Table>, calls: seq<Call>, k: nat, i: nat, sender: nat, b: nat)
    requires IsRun(run, calls) && k < |calls| && i < MAX_ENDPOINTS && |run[k]| == MAX_ENDPOINTS
  {
    && EndpointIndex(calls[k].receiver) == Some(i) && ReplyOf(run, calls, k) == Done
    && (calls[k].Destroy?
        || (calls[k].Unbind? && calls[k].sender == sender && b in calls[k].bits && FirstMet(run[k][i].binds, sender, calls[k].bits, b)))
  }

  ghost predicate BoundSince(run: seq<Table>, calls: seq<Call>, j: nat, i: nat, sender: nat, b: nat)
    requires IsRun(run, calls) && j <= |calls| && i < MAX_ENDPOINTS
  {
    exists k: nat :: k < j && BindsBit(run, calls, k, i, sender, b) && forall m: nat :: k < m < j ==> InRun(run, m) && !UnbindsBit(run, calls, m, i, sender, b)
  }

  ghost predicate InRun(run: seq<Table>, m: nat) { m < |run| && |run[m]| == MAX_ENDPOINTS }

  /** What one call does to the bits that a sender may set. */
  lemma AllowedAfter(e: Endpoint, c: Call, sender: nat, b: nat)
    requires Sound(e)
    ensures b in Allowed(Effect(e, c).0.binds, sender) <==>
              || (c.BindTo? && c.sender == sender && b in c.bits && Effect(e, c).1 == Done)
              || (b in Allowed(e.binds, sender) && !(Effect(e, c).1 == Done &&
                   (c.Destroy? || (c.Unbind? && c.sender == sender && b in c.bits && FirstMet(e.binds, sender, c.bits, b)))))
  {
    match c
    case BindTo(_, s, bits) => if Effect(e, c).1 == Done { AllowedBind(e, s, bits, sender, b); }
    case Unbind(_, s, bits) => if Effect(e, c).1 == Done { AllowedUnbind(e, s, bits, sender, b); }
    case Destroy(_) =>
    case _ =>
  }

  lemma AllowedBind(e: Endpoint, s: nat, bits: set<nat>, sender: nat, b: nat)
    requires Sound(e) && FirstOf(e.binds, IsFree, 0).Some?
    ensures var binds := e.binds[FirstOf(e.binds, IsFree, 0).value := Bind(s, bits, true)];
            b in Allowed(binds, sender) <==> (s == sender && b in bits) || b in Allowed(e.binds, sender)
  {
    var f := FirstOf(e.binds, IsFree, 0).value;
    var binds := e.binds[f := Bind(s, bits, true)];
    assert binds[f] == Bind(s, bits, true);
    if b in Allowed(e.binds, sender) {
      var i :| 0 <= i < |e.binds| && e.binds[i].active && e.binds[i].sender == sender && b in e.binds[i].bits;
      assert binds[i] == e.binds[i];
    }
  }

  lemma AllowedUnbind(e: Endpoint, s: nat, bits: set<nat>, sender: nat, b: nat)
    requires Sound(e) && FirstOf(e.binds, x => Owns(x, s, bits), 0).Some?
    ensures var f := FirstOf(e.binds, x => Owns(x, s, bits), 0).value;
            b in Allowed(e.binds[f := Cleared(e.binds[f], bits)], sender) <==>
            b in Allowed(e.binds, sender) && !(s == sender && b in bits && FirstMet(e.binds, sender, bits, b))
  {
    var f := FirstOf(e.binds, x => Owns(x, s, bits), 0).value;
    var binds := e.binds[f := Cleared(e.binds[f], bits)];
    assert binds[f] == Cleared(e.binds[f], bits);
    if b in Allowed(e.binds, sender) {
      var i :| 0 <= i < |e.binds| && e.binds[i].active && e.binds[i].sender == sender && b in e.binds[i].bits;
      MetFirst(e, s, bits, i, b);
      OnlyHolder(e, i, b);
      assert forall j :: 0 <= j < |binds| && binds[j].active && b in binds[j].bits ==> j == i;
      if i != f {
        assert binds[i] == e.binds[i];
      } else {
        assert b !in bits ==> b in binds[f].bits && binds[f].active;
      }
    }
  }

  /** Of the binding that holds `b`: it is the first one met exactly if it is the one found. */
  lemma MetFirst(e: Endpoint, s: nat, bits: set<nat>, i: nat, b: nat)
    requires Sound(e) && FirstOf(e.binds, x => Owns(x, s, bits), 0).Some?
    requires i < |e.binds| && e.binds[i].active && b in e.binds[i].bits
    ensures e.binds[i].sender == s && b in bits ==>
              (FirstMet(e.binds, s, bits, b) <==> i == FirstOf(e.binds, x => Owns(x, s, bits), 0).value)
  {
    hide Sound;
    var f := FirstOf(e.binds, x => Owns(x, s, bits), 0).value;
    OnlyHolder(e, i, b);
    if e.binds[i].sender == s && b in bits {
      assert Owns(e.binds[i], s, bits);
      if i == f {
        assert forall k :: 0 <= k < i ==> !Owns(e.binds[k], s, bits);
      } else {
        assert f < i && Owns(e.binds[f], s, bits);
      }
    }
  }

  lemma OnlyHolder(e: Endpoint, i: nat, b: nat)
    requires Sound(e) && i < |e.binds| && e.binds[i].active && b in e.binds[i].bits
    ensures forall j :: 0 <= j < |e.binds| && e.binds[j].active && b in e.binds[j].bits ==> j == i
  {
  }

  /** A sender may set a bit exactly if the bit was bound to it and has not been taken away since. */
  lemma {:induction false} AllowedExactly(run: seq<Table>, calls: seq<Call>, j: nat, i: nat, sender: nat, b: nat)
    requires IsRun(run, calls) && j <= |calls| && i < MAX_ENDPOINTS
    ensures InRun(run, j) && (b in Allowed(run[j][i].binds, sender) <==> BoundSince(run, calls, j, i, sender, b))
  {
    hide Sound, Effect, Allowed, FirstMet;
    assert run[j] in run;
    if j == 0 {
      assert run[0][i] in run[0];
      DisabledAllows(run[0][i], sender);
    } else {
      AllowedExactly(run, calls, j - 1, i, sender, b);
      PendingExactly(run, calls, j - 1, i, b);
      var k, c := j - 1, calls[j - 1];
      assert run[j] == Apply(run[k], c).0;
      AllowedAfter(run[k][i], c, sender, b);
      BoundStep(run, calls, j, i, sender, b);
    }
  }

  lemma DisabledAllows(e: Endpoint, sender: nat)
    requires Sound(e) && !e.enabled
    ensures Allowed(e.binds, sender) == {}
  {
    assert forall i :: 0 <= i < |e.binds| ==> e.binds[i] in e.binds;
  }

  lemma BoundStep(run: seq<Table>, calls: seq<Call>, j: nat, i: nat, sender: nat, b: nat)
    requires IsRun(run, calls) && 0 < j <= |calls| && i < MAX_ENDPOINTS && InRun(run, j - 1)
    ensures BoundSince(run, calls, j, i, sender, b) <==>
              BindsBit(run, calls, j - 1, i, sender, b) || (BoundSince(run, calls, j - 1, i, sender, b) && !UnbindsBit(run, calls, j - 1, i, sender, b))
  {
    hide BindsBit, UnbindsBit;
    var n := j - 1;
    if BindsBit(run, calls, n, i, sender, b) {
      assert BoundSince(run, calls, j, i, sender, b);
    } else if BoundSince(run, calls, n, i, sender, b) && !UnbindsBit(run, calls, n, i, sender, b) {
      var k: nat :| k < n && BindsBit(run, calls, k, i, sender, b) && forall m: nat :: k < m < n ==> InRun(run, m) && !UnbindsBit(run, calls, m, i, sender, b);
      assert BoundSince(run, calls, j, i, sender, b);
    }
  }

  /** Endpoint `i` was created and has not been destroyed since. */
  ghost predicate CreatedSince(run: seq<Table>, calls: seq<Call>, j: nat, i: nat)
    requires IsRun(run, calls) && j <= |calls|
  {
    exists k: nat :: k < j && Answers(run, calls, k, i) && calls[k].Create? && forall m: nat :: k < m < j ==> !(Answers(run, calls, m, i) && calls[m].Destroy?)
  }

  ghost predicate Answers(run: seq<Table>, calls: seq<Call>, k: nat, i: nat)
    requires IsRun(run, calls) && k < |calls|
  {
    EndpointIndex(calls[k].receiver) == Some(i) && ReplyOf(run, calls, k) == Done
  }

  lemma {:induction false} EnabledExactly(run: seq<Table>, calls: seq<Call>, j: nat, i: nat)
    requires IsRun(run, calls) && j <= |calls| && i < MAX_ENDPOINTS
    ensures InRun(run, j) && (run[j][i].enabled <==> CreatedSince(run, calls, j, i))
  {
    hide Sound, Effect;
    assert run[j] in run;
    if j == 0 {
      assert run[0][i] in run[0];
    } else {
      EnabledExactly(run, calls, j - 1, i);
      assert run[j] == Apply(run[j - 1], calls[j - 1]).0;
      EnabledAfter(run[j - 1][i], calls[j - 1]);
      CreatedStep(run, calls, j, i);
    }
  }

  lemma EnabledAfter(e: Endpoint, c: Call)
    ensures Effect(e, c).0.enabled <==> (c.Create? && Effect(e, c).1 == Done) || (e.enabled && !(c.Destroy? && Effect(e, c).1 == Done))
  {
    hide Allowed, FirstOf;
  }

  lemma CreatedStep(run: seq<Table>, calls: seq<Call>, j: nat, i: nat)
    requires IsRun(run, calls) && 0 < j <= |calls|
    ensures CreatedSince(run, calls, j, i) <==>
              || (Answers(run, calls, j - 1, i) && calls[j - 1].Create?)
              || (CreatedSince(run, calls, j - 1, i) && !(Answers(run, calls, j - 1, i) && calls[j - 1].Destroy?))
  {
    hide Answers;
    var n := j - 1;
    if Answers(run, calls, n, i) && calls[n].Create? {
      assert CreatedSince(run, calls, j, i);
    } else if CreatedSince(run, calls, n, i) && !(Answers(run, calls, n, i) && calls[n].Destroy?) {
      var k: nat :| k < n && Answers(run, calls, k, i) && calls[k].Create? && forall m: nat :: k < m < n ==> !(Answers(run, calls, m, i) && calls[m].Destroy?);
      assert CreatedSince(run, calls, j, i);
    }
  }

  /** A SET goes through exactly on an endpoint that was created and not destroyed since, if each of its
      bits was bound to the sender and has not been taken away since; otherwise it is denied. */
  lemma SetExactly(run: seq<Table>, calls: seq<Call>, k: nat, i: nat)
    requires IsRun(run, calls) && k < |calls| && calls[k].Set? && EndpointIndex(calls[k].receiver) == Some(i)
    ensures ReplyOf(run, calls, k) ==
              if CreatedSince(run, calls, k, i) && (forall b <- calls[k].bits :: BoundSince(run, calls, k, i, calls[k].sender, b)) then Done else Denied
  {
    hide Sound, Effect, Allowed, BoundSince, CreatedSince;
    EnabledExactly(run, calls, k, i);
    PendingExactly(run, calls, k, i, 0);
    forall b ensures b in Allowed(run[k][i].binds, calls[k].sender) <==> BoundSince(run, calls, k, i, calls[k].sender, b) {
      AllowedExactly(run, calls, k, i, calls[k].sender, b);
    }
    RepliesExactly(run[k][i], calls[k]);
  }

  /** So every pending bit was set by a sender to which it was bound at the time. */
  lemma PendingWasBound(run: seq<Table>, calls: seq<Call>, j: nat, i: nat, b: nat)
    requires IsRun(run, calls) && j <= |calls| && i < MAX_ENDPOINTS && InRun(run, j) && b in run[j][i].pending
    ensures exists k: nat :: k < j && Raises(run, calls, k, i, b) && BoundSince(run, calls, k, i, calls[k].sender, b)
  {
    hide BoundSince, CreatedSince, Apply;
    PendingExactly(run, calls, j, i, b);
    var k: nat :| k < j && Raises(run, calls, k, i, b);
    SetExactly(run, calls, k, i);
  }
}
