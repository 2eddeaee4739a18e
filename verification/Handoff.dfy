/**
 The hand-off between producers and shard workers, and the shutdown protocol,
 as an interleaved step system: one program counter per producer call, per
 worker and per Shutdown call. Every atomic operation, channel operation and
 buffer write is a step of its own.
 */
module Handoff {
  const QUEUE_DEPTH: nat := 64

  /** Who may touch a recycled buffer. */
  datatype Owner = InFree | InWork | InHand | By(call: nat)

  datatype Hand = Nothing | Buffer(b: nat)

  datatype Phase = Looping | Draining | Done

  /**
   One shard. `slots[b]` is the event written into buffer `b`, named by the call
   that wrote it. `owner`, `handled` and `sends` record who holds each buffer,
   what the worker has handled, and what was sent, in order.
   */
  datatype Shard = Shard(
    free: seq<nat>,
    work: seq<nat>,
    hand: Hand,
    slots: seq<nat>,
    owner: seq<Owner>,
    handled: seq<nat>,
    sends: seq<nat>,
    stop: bool,
    phase: Phase)

  /** Where a producer call is: it holds its in-flight token from `Entered` until it has returned. */
  datatype Pc = Entered | Passed | Holding(b: nat) | Filled(b: nat) | Sent | Refused | Returned(ok: bool)

  datatype Call = Call(shard: nat, pc: Pc)

  /** Where a Shutdown call is. */
  datatype Shutter = Quiescing | AtOnce | Closing(next: nat) | Waiting(next: nat) | TimedOut | Finished

  datatype Once = NotRun | Running(x: nat) | Ran

  datatype State = State(
    shards: seq<Shard>,
    calls: map<nat, Call>,
    inflight: int,
    intake: bool,
    shutters: map<nat, Shutter>,
    once: Once,
    quiesced: bool)

  datatype Event =
    | Enter(c: nat, k: nat) | Check(c: nat) | Shed(c: nat) | TakeBuffer(c: nat) | Fill(c: nat) | Send(c: nat) | Return(c: nat)
    | Grab(k: nat) | Recycle(k: nat) | SeeStop(k: nat) | Finish(k: nat)
    | Begin(x: nat) | Quiesce(x: nat) | RunOnce(x: nat) | CloseNext(x: nat) | Await(x: nat) | TimeOut(x: nat)

  // -------------------------------------------------------- shard operations

  function TakeFree(sh: Shard, c: nat): (sh': Shard)
    requires sh.free != []
  {
    var b := sh.free[0];
    sh.(free := sh.free[1..], owner := if b < |sh.owner| then sh.owner[b := By(c)] else sh.owner)
  }

  function Write(sh: Shard, b: nat, c: nat): (sh': Shard) {
    sh.(slots := if b < |sh.slots| then sh.slots[b := c] else sh.slots)
  }

  function Push(sh: Shard, b: nat, c: nat): (sh': Shard) {
    sh.(work := sh.work + [b], owner := if b < |sh.owner| then sh.owner[b := InWork] else sh.owner, sends := sh.sends + [c])
  }

  function Pull(sh: Shard): (sh': Shard)
    requires sh.work != []
  {
    var b := sh.work[0];
    sh.(work := sh.work[1..], hand := Buffer(b), owner := if b < |sh.owner| then sh.owner[b := InHand] else sh.owner)
  }

  function PutBack(sh: Shard): (sh': Shard)
    requires sh.hand.Buffer? && sh.hand.b < |sh.slots|
  {
    var b := sh.hand.b;
    sh.(free := sh.free + [b], hand := Nothing, handled := sh.handled + [sh.slots[b]],
        owner := if b < |sh.owner| then sh.owner[b := InFree] else sh.owner)
  }

  // ------------------------------------------------------------------ steps

  predicate At(s: State, c: nat) {
    c in s.calls && s.calls[c].shard < |s.shards|
  }

  function ShardOf(s: State, c: nat): (sh: Shard)
    requires At(s, c)
  {
    s.shards[s.calls[c].shard]
  }

  function Go(s: State, c: nat, pc: Pc): (s': State)
    requires c in s.calls
  {
    s.(calls := s.calls[c := s.calls[c].(pc := pc)])
  }

  function SetShard(s: State, k: nat, sh: Shard): (s': State)
    requires k < |s.shards|
  {
    s.(shards := s.shards[k := sh])
  }

  /** A producer call takes one step; a step that is not enabled changes nothing. */
  function Produce(s: State, e: Event): (s': State) {
    match e
    case Enter(c, k) =>
      if c in s.calls || k >= |s.shards| then s
      else s.(inflight := s.inflight + 1, calls := s.calls[c := Call(k, Entered)])
    case Check(c) =>
      if At(s, c) && s.calls[c].pc.Entered? then Go(s, c, if s.intake then Passed else Refused) else s
    case Shed(c) =>
      if At(s, c) && s.calls[c].pc.Passed? then Go(s, c, Refused) else s
    case TakeBuffer(c) =>
      if At(s, c) && s.calls[c].pc.Passed? && ShardOf(s, c).free != [] then
        Go(SetShard(s, s.calls[c].shard, TakeFree(ShardOf(s, c), c)), c, Holding(ShardOf(s, c).free[0]))
      else s
    case Fill(c) =>
      if At(s, c) && s.calls[c].pc.Holding? then
        Go(SetShard(s, s.calls[c].shard, Write(ShardOf(s, c), s.calls[c].pc.b, c)), c, Filled(s.calls[c].pc.b))
      else s
    case Send(c) =>
      if At(s, c) && s.calls[c].pc.Filled? && |ShardOf(s, c).work| < QUEUE_DEPTH then
        Go(SetShard(s, s.calls[c].shard, Push(ShardOf(s, c), s.calls[c].pc.b, c)), c, Sent)
      else s
    case Return(c) =>
      if At(s, c) && (s.calls[c].pc.Sent? || s.calls[c].pc.Refused?) then
        Go(s, c, Returned(s.calls[c].pc.Sent?)).(inflight := s.inflight - 1)
      else s
    case _ => s
  }

  /** A worker takes one step of its loop or of its final drain. */
  function Work(s: State, e: Event): (s': State) {
    match e
    case Grab(k) =>
      if k < |s.shards| && !s.shards[k].phase.Done? && s.shards[k].hand.Nothing? && s.shards[k].work != [] then
        SetShard(s, k, Pull(s.shards[k]))
      else s
    case Recycle(k) =>
      if k < |s.shards| && s.shards[k].hand.Buffer? && s.shards[k].hand.b < |s.shards[k].slots| && |s.shards[k].free| < QUEUE_DEPTH then
        SetShard(s, k, PutBack(s.shards[k]))
      else s
    case SeeStop(k) =>
      if k < |s.shards| && s.shards[k].phase.Looping? && s.shards[k].hand.Nothing? && s.shards[k].stop then
        SetShard(s, k, s.shards[k].(phase := Draining))
      else s
    case Finish(k) =>
      if k < |s.shards| && s.shards[k].phase.Draining? && s.shards[k].hand.Nothing? && s.shards[k].work == [] then
        SetShard(s, k, s.shards[k].(phase := Done))
      else s
    case _ => s
  }

  function Move(s: State, x: nat, to: Shutter): (s': State) {
    s.(shutters := s.shutters[x := to])
  }

  /** A Shutdown call takes one step. A timed-out call may be retried under a new name. */
  function Shut(s: State, e: Event): (s': State) {
    match e
    case Begin(x) =>
      if x in s.shutters then s else Move(s, x, Quiescing).(intake := false)
    case Quiesce(x) =>
      if x in s.shutters && s.shutters[x].Quiescing? && s.inflight == 0 then Move(s, x, AtOnce).(quiesced := true) else s
    case RunOnce(x) =>
      if x in s.shutters && s.shutters[x].AtOnce? then
        match s.once
        case NotRun => Move(s, x, Closing(0)).(once := Running(x))
        case Running(_) => s
        case Ran => Move(s, x, Waiting(0))
      else s
    case CloseNext(x) =>
      if x in s.shutters && s.shutters[x].Closing? then
        var k := s.shutters[x].next;
        if k < |s.shards| then Move(SetShard(s, k, s.shards[k].(stop := true)), x, Closing(k + 1))
        else Move(s, x, Waiting(0)).(once := Ran)
      else s
    case Await(x) =>
      if x in s.shutters && s.shutters[x].Waiting? then
        var k := s.shutters[x].next;
        if k >= |s.shards| then Move(s, x, Finished)
        else if s.shards[k].phase.Done? then Move(s, x, Waiting(k + 1))
        else s
      else s
    case TimeOut(x) =>
      if x in s.shutters && (s.shutters[x].Quiescing? || s.shutters[x].Waiting?) then Move(s, x, TimedOut) else s
    case _ => s
  }

  function Step(s: State, e: Event): (s': State) {
    match e
    case Enter(_, _) => Produce(s, e)
    case Check(_) => Produce(s, e)
    case Shed(_) => Produce(s, e)
    case TakeBuffer(_) => Produce(s, e)
    case Fill(_) => Produce(s, e)
    case Send(_) => Produce(s, e)
    case Return(_) => Produce(s, e)
    case Grab(_) => Work(s, e)
    case Recycle(_) => Work(s, e)
    case SeeStop(_) => Work(s, e)
    case Finish(_) => Work(s, e)
    case _ => Shut(s, e)
  }

  function NewShard(): (sh: Shard) {
    Shard(seq(QUEUE_DEPTH, i => i), [], Nothing, seq(QUEUE_DEPTH, i => 0), seq(QUEUE_DEPTH, i => InFree), [], [], false, Looping)
  }

  function Start(shards: nat): (s: State) {
    State(seq(shards, i => NewShard()), map[], 0, true, map[], NotRun, false)
  }

  function Run(shards: nat, events: seq<Event>): (s: State) {
    if events == [] then Start(shards) else Step(Run(shards, events[..|events| - 1]), events[|events| - 1])
  }
}
