/** Dispatch, preemption and resumption of secure partitions (src/spmc_handler.rs:69-221,
src/sp_context.rs).  What a partition does while it runs, and whether a physical interrupt cuts it
short, is arbitrary. */
module Spmc {
  import opened Descriptor

  const MAX_SPS := 4

  datatype SpState = Reset | Idle | Running | Blocked | Preempted

  /** The registers x0 to x7, and all others. */
  datatype Context = Context(args: seq<nat>, rest: nat)

  datatype Sp = Sp(id: nat, state: SpState, ctx: Context)

  type Store = seq<Option<Sp>>

  datatype Request = DirectReq(dest: nat, args: seq<nat>) | Run(id: nat) | Other

  /** How a partition comes back: with which registers, and whether an interrupt preempted it. */
  datatype Exit = Exit(ctx: Context, irq: bool)

  datatype Response = Busy | Denied | InvalidParameters | Interrupt | DirectResp(args: seq<nat>) | Local

  // ---- the specification ----

  predicate Allowed(a: SpState, b: SpState)
  {
    (a, b) in {(Reset, Idle), (Idle, Running), (Running, Idle), (Running, Blocked), (Blocked, Running),
               (Running, Preempted), (Preempted, Running)}
  }

  /** The first slot with the identifier. */
  function Find(store: Store, id: nat, i: nat): (r: Option<nat>)
    requires i <= |store|
    ensures r.Some? ==> i <= r.value < |store| && store[r.value].Some? && store[r.value].value.id == id
    ensures r.Some? ==> forall k :: i <= k < r.value ==> !(store[k].Some? && store[k].value.id == id)
    ensures r.None? ==> forall k :: i <= k < |store| ==> !(store[k].Some? && store[k].value.id == id)
    decreases |store| - i
  {
    if i == |store| then None
    else if store[i].Some? && store[i].value.id == id then Some(i)
    else Find(store, id, i + 1)
  }

  /** The slot and the registers with which the request enters a partition, if it does: a message
      enters an idle partition with new arguments, FFA_RUN a preempted one with what was saved. */
  function Entered(store: Store, req: Request): (r: Option<(nat, Context)>)
    ensures r.Some? ==> r.value.0 < |store| && store[r.value.0].Some?
  {
    match req
    case DirectReq(dest, args) =>
      var i := Find(store, dest, 0);
      if i.Some? && store[i.value].value.state == Idle then Some((i.value, store[i.value].value.ctx.(args := args))) else None
    case Run(id) =>
      var i := Find(store, id, 0);
      if i.Some? && store[i.value].value.state == Preempted then Some((i.value, store[i.value].value.ctx)) else None
    case Other => None
  }

  /** Preempted with the registers as they are, or idle again. */
  function After(sp: Sp, exit: Exit): Sp { Sp(sp.id, if exit.irq then Preempted else Idle, exit.ctx) }

  function Refusal(store: Store, req: Request): Response
  {
    match req
    case DirectReq(dest, args) => if Find(store, dest, 0).None? then Local else Busy
    case Run(id) => if Find(store, id, 0).None? then InvalidParameters else Denied
    case Other => Local
  }

  function Step(store: Store, req: Request, exit: Exit): (Store, Response)
  {
    match Entered(store, req)
    case None => (store, Refusal(store, req))
    case Some(e) => (store[e.0 := Some(After(store[e.0].value, exit))], if exit.irq then Interrupt else DirectResp(exit.ctx.args))
  }

  /** Between requests no partition runs. */
  ghost predicate Quiet(store: Store)
  {
    forall i :: 0 <= i < |store| && store[i].Some? ==> store[i].value.state in {Reset, Idle, Preempted}
  }

  class SpmcHandler {
    const store: array<Option<Sp>>
    /** SP_IRQ_PREEMPTED. */
    var irqPreempted: bool

    ghost predicate Valid() { store.Length == MAX_SPS }

    constructor ()
      ensures Valid() && fresh(store) && Quiet(store[..])
    {
      store := new Option<Sp>[MAX_SPS](_ => None);
      irqPreempted := false;
    }

    /** `register_sp` of a booted partition; without a free slot the source panics. */
    method RegisterSp(sp: Sp)
      requires Valid() && None in store[..]
      modifies store
      ensures exists i :: 0 <= i < MAX_SPS && old(store[i]).None? && (forall k :: 0 <= k < i ==> old(store[k]).Some?) && store[..] == old(store[..])[i := Some(sp)]
      ensures Quiet(old(store[..])) && sp.state in {Reset, Idle} ==> Quiet(store[..])
    {
      for i := 0 to store.Length
        invariant store[..] == old(store[..])
        invariant forall k :: 0 <= k < i ==> store[k].Some?
      {
        if store[i].None? {
          store[i] := Some(sp);
          return;
        }
      }
    }

    method GetSp(id: nat) returns (r: Option<nat>)
      requires Valid()
      ensures r == Find(store[..], id, 0)
    {
      for i := 0 to store.Length
        invariant Find(store[..], id, 0) == Find(store[..], id, i)
      {
        if store[i].Some? && store[i].value.id == id { return Some(i); }
      }
      return None;
    }

    /** `transition_to`. */
    method TransitionTo(i: nat, state: SpState) returns (ok: bool)
      requires Valid() && i < MAX_SPS && store[i].Some?
      modifies store
      ensures ok == Allowed(old(store[i]).value.state, state)
      ensures store[..] == if ok then old(store[..])[i := Some(old(store[i]).value.(state := state))] else old(store[..])
    {
      var valid := match (store[i].value.state, state)
        case (Reset, Idle) => true
        case (Idle, Running) => true
        case (Running, Idle) => true
        case (Running, Blocked) => true
        case (Blocked, Running) => true
        case (Running, Preempted) => true
        case (Preempted, Running) => true
        case _ => false;
      if valid { store[i] := Some(store[i].value.(state := state)); }
      return valid;
    }

    /** The common part of `dispatch_to_sp` and `resume_preempted_sp`, from the transition to Running
        on; each `expect` is an assertion. */
    method Enter(i: nat, exit: Exit) returns (r: Response, ghost entered: Context)
      requires Valid() && i < MAX_SPS && store[i].Some? && store[i].value.state in {Idle, Preempted}
      modifies this, store
      ensures store[..] == old(store[..])[i := Some(After(old(store[i]).value, exit))]
      ensures r == if exit.irq then Interrupt else DirectResp(exit.ctx.args)
      ensures entered == old(store[i]).value.ctx
    {
      var running := TransitionTo(i, Running);
      assert running;
      irqPreempted := false;
      entered := store[i].value.ctx;
      store[i] := Some(store[i].value.(ctx := exit.ctx));
      irqPreempted := exit.irq;
      var preempted := irqPreempted;
      irqPreempted := false;
      if preempted {
        var saved := TransitionTo(i, Preempted);
        assert saved;
        return Interrupt, entered;
      }
      var idle := TransitionTo(i, Idle);
      assert idle;
      return DirectResp(store[i].value.ctx.args), entered;
    }

    /** `dispatch_request`; `entered` is the partition that ran and the registers it started with. */
    method DispatchRequest(req: Request, exit: Exit) returns (r: Response, ghost entered: Option<(nat, Context)>)
      requires Valid() && Quiet(store[..])
      modifies this, store
      ensures (store[..], r) == Step(old(store[..]), req, exit) && Quiet(store[..])
      ensures entered == Entered(old(store[..]), req)
    {
      ghost var ctx;
      entered := None;
      match req
      case DirectReq(dest, args) =>
        var found := GetSp(dest);
        if found.None? { return Local, None; }
        var i := found.value;
        if store[i].value.state != Idle { return Busy, None; }
        store[i] := Some(store[i].value.(ctx := store[i].value.ctx.(args := args)));
        r, ctx := Enter(i, exit);
        entered := Some((i, ctx));
        assert store[..] == old(store[..])[i := Some(After(old(store[i]).value, exit))];
      case Run(id) =>
        var found := GetSp(id);
        if found.None? { return InvalidParameters, None; }
        var i := found.value;
        if store[i].value.state != Preempted { return Denied, None; }
        r, ctx := Enter(i, exit);
        entered := Some((i, ctx));
      case Other =>
        r := Local;
    }
  }

  /** The partition that a request names: the first slot with the identifier. */
  ghost predicate Named(store: Store, id: nat, i: int)
  {
    && 0 <= i < |store| && store[i].Some? && store[i].value.id == id
    && forall k :: 0 <= k < i ==> !(store[k].Some? && store[k].value.id == id)
  }

  /** A message enters an idle partition with exactly the arguments of the message in x0 to x7 and the
      other registers as they were; it is refused as busy in any other state. */
  lemma MessageExactly(store: Store, dest: nat, args: seq<nat>, exit: Exit, i: int)
    ensures Named(store, dest, i) ==>
              var sp := store[i].value;
              if sp.state == Idle
              then && Entered(store, DirectReq(dest, args)) == Some((i, Context(args, sp.ctx.rest)))
                   && Step(store, DirectReq(dest, args), exit) == Ran(store, i, exit)
              else Step(store, DirectReq(dest, args), exit) == (store, Busy)
    ensures (forall j :: !Named(store, dest, j)) ==> Step(store, DirectReq(dest, args), exit) == (store, Local)
  {
    hide Find;
    assert Find(store, dest, 0).Some? ==> Named(store, dest, Find(store, dest, 0).value);
  }

  /** FFA_RUN enters a preempted partition with what was saved; it is denied in any other state. */
  lemma RunExactly(store: Store, id: nat, exit: Exit, i: int)
    ensures Named(store, id, i) ==>
              var sp := store[i].value;
              if sp.state == Preempted
              then Entered(store, Run(id)) == Some((i, sp.ctx)) && Step(store, Run(id), exit) == Ran(store, i, exit)
              else Step(store, Run(id), exit) == (store, Denied)
    ensures (forall j :: !Named(store, id, j)) ==> Step(store, Run(id), exit) == (store, InvalidParameters)
  {
    hide Find;
    assert Find(store, id, 0).Some? ==> Named(store, id, Find(store, id, 0).value);
  }

  /** The partition ran: an interrupt leaves it preempted and is reported, otherwise it is idle and what it
      left in x0 to x7 is the response; its registers are as it left them. */
  ghost function Ran(store: Store, i: int, exit: Exit): (Store, Response)
    requires 0 <= i < |store| && store[i].Some?
  {
    if exit.irq then (store[i := Some(Sp(store[i].value.id, Preempted, exit.ctx))], Interrupt)
    else (store[i := Some(Sp(store[i].value.id, Idle, exit.ctx))], DirectResp(exit.ctx.args))
  }

  // ---- runs ----

  ghost predicate IsRun(run: seq<Store>, reqs: seq<Request>, exits: seq<Exit>)
  {
    && |run| == |reqs| + 1 && |exits| == |reqs|
    && forall k :: 0 <= k < |reqs| ==> run[k + 1] == Step(run[k], reqs[k], exits[k]).0
  }

  /** A message that a partition takes. */
  predicate Accepts(store: Store, req: Request, i: nat)
  {
    req.DirectReq? && Entered(store, req).Some? && Entered(store, req).value.0 == i
  }

  /** A partition that answers. */
  predicate Completes(store: Store, req: Request, exit: Exit, i: nat)
  {
    Entered(store, req).Some? && Entered(store, req).value.0 == i && !exit.irq
  }

  ghost function Accepted(run: seq<Store>, reqs: seq<Request>, i: nat, j: nat): nat
    requires j <= |reqs| <= |run|
  {
    if j == 0 then 0 else Accepted(run, reqs, i, j - 1) + if Accepts(run[j - 1], reqs[j - 1], i) then 1 else 0
  }

  ghost function Completed(run: seq<Store>, reqs: seq<Request>, exits: seq<Exit>, i: nat, j: nat): nat
    requires j <= |reqs| <= |run| && |reqs| == |exits|
  {
    if j == 0 then 0 else Completed(run, reqs, exits, i, j - 1) + if Completes(run[j - 1], reqs[j - 1], exits[j - 1], i) then 1 else 0
  }

  predicate IsPreempted(store: Store, i: nat) { i < |store| && store[i].Some? && store[i].value.state == Preempted }

  ghost predicate Started(store: Store) { Quiet(store) && forall i: nat :: !IsPreempted(store, i) }

  /** In every run no partition runs between requests, and a partition owes exactly one answer if it
      is preempted, else none. */
  lemma {:induction false} OwesOneAnswer(run: seq<Store>, reqs: seq<Request>, exits: seq<Exit>, i: nat, j: nat)
    requires IsRun(run, reqs, exits) && Started(run[0]) && j <= |reqs|
    ensures Quiet(run[j]) && |run[j]| == |run[0]|
    ensures Accepted(run, reqs, i, j) - Completed(run, reqs, exits, i, j) == if IsPreempted(run[j], i) then 1 else 0
  {
    if j > 0 {
      OwesOneAnswer(run, reqs, exits, i, j - 1);
      assert run[j] == Step(run[j - 1], reqs[j - 1], exits[j - 1]).0;
    }
  }

  /** What a preempted partition has saved stays until FFA_RUN resumes it. */
  lemma SavedStays(store: Store, req: Request, exit: Exit, i: nat)
    requires IsPreempted(store, i)
    ensures !(req.Run? && Find(store, req.id, 0) == Some(i)) ==> Step(store, req, exit).0[i] == store[i]
    ensures req.Run? && Find(store, req.id, 0) == Some(i) ==> Entered(store, req) == Some((i, store[i].value.ctx))
  {
  }

  /** So a partition is resumed with exactly the registers with which it was preempted. */
  lemma {:induction false} ResumesAsSaved(run: seq<Store>, reqs: seq<Request>, exits: seq<Exit>, i: nat, k: nat, j: nat)
    requires IsRun(run, reqs, exits) && k < j < |reqs|
    requires Entered(run[k], reqs[k]).Some? && Entered(run[k], reqs[k]).value.0 == i && exits[k].irq
    requires forall m :: k < m < j ==> !(reqs[m].Run? && Find(run[m], reqs[m].id, 0) == Some(i))
    ensures IsPreempted(run[j], i) && run[j][i].value.ctx == exits[k].ctx
    ensures reqs[j].Run? && Find(run[j], reqs[j].id, 0) == Some(i) ==> Entered(run[j], reqs[j]) == Some((i, exits[k].ctx))
  {
    if j == k + 1 {
      assert run[j] == Step(run[k], reqs[k], exits[k]).0;
    } else {
      ResumesAsSaved(run, reqs, exits, i, k, j - 1);
      assert run[j] == Step(run[j - 1], reqs[j - 1], exits[j - 1]).0;
      SavedStays(run[j - 1], reqs[j - 1], exits[j - 1], i);
    }
  }
}
