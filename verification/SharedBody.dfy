/** The blocking response body of `client.rs`: a worker thread runs the asynchronous request and
    hands pieces of the body through a one-slot channel to the thread that owns the response.

    `Execute` runs the two threads in any interleaving of their steps; the properties hold of
    every state it reaches. `SharedResponse` is the owner's object, with the read loop. */
module SharedBody {
  import opened Common

  const PIECE: nat := 64 * 1024

  /** What travels through the chunk channel. */
  datatype Item = Data(bytes: seq<byte>) | Fault

  /** `chunk.chunks(64 * 1024)`. */
  function Pieces(chunk: seq<byte>): seq<seq<byte>>
    decreases |chunk|
  {
    if chunk == [] then []
    else
      var n := if |chunk| < PIECE then |chunk| else PIECE;
      [chunk[..n]] + Pieces(chunk[n..])
  }

  lemma {:induction false} PiecesCover(chunk: seq<byte>)
    ensures Flatten(Pieces(chunk)) == chunk
    ensures forall p :: p in Pieces(chunk) ==> 0 < |p| <= 65_536
    ensures forall i :: 0 <= i < |Pieces(chunk)| - 1 ==> |Pieces(chunk)[i]| == 65_536
    decreases |chunk|
  {
    if chunk != [] {
      var n := if |chunk| < PIECE then |chunk| else PIECE;
      PiecesCover(chunk[n..]);
      assert chunk == chunk[..n] + chunk[n..];
    }
  }

  // ---------- The two threads ----------

  datatype Worker =
    | Connecting                        // no start message sent yet
    | Waiting                           // at the select over the token and the next chunk
    | Sending(pieces: seq<seq<byte>>)   // blocked in, or about to enter, a send
    | SendingFault
    | Exited

  datatype Owner =
    | AwaitingStart
    | Reading       // holds the response
    | Cancelled     // token cancelled, receiver still open
    | Joining       // receiver dropped, waiting for the worker
    | Joined

  /** What the network will still deliver: chunks, then the end or a fault. */
  datatype Source = Source(chunks: seq<seq<byte>>, broken: bool)

  datatype State = State(
    owner: Owner,
    worker: Worker,
    start: Option<bool>,        // the one-slot start channel
    startsSent: nat,
    panicked: bool,
    dropped: seq<byte>,         // what a worker that panicked had received but not sent
    channel: Option<Item>,      // the one-slot chunk channel
    source: Source,
    pending: seq<byte>,         // the owner's cursor
    delivered: seq<byte>,       // bytes returned by reads so far
    sawFault: bool)

  function Init(source: Source): State {
    State(AwaitingStart, Connecting, None, 0, false, [], None, source, [], [], false)
  }

  predicate TokenCancelled(s: State) {
    s.owner in {Cancelled, Joining, Joined}
  }

  predicate ReceiverOpen(s: State) {
    s.owner in {AwaitingStart, Reading, Cancelled}
  }

  datatype Step =
    // worker
    | StartFails | StartSucceeds | Panic
    | SeeCancel | ReceiveChunk | SourceEnds | SourceBreaks
    | SendPiece | SendFault | SendRefused
    // owner
    | RecvStart | RecvNoStart
    | ReadPending(size: nat) | RecvPiece | RecvFault | RecvClosed
    | Drop | CloseReceiver | Join

  predicate Enabled(step: Step, s: State) {
    match step
    case StartFails => s.worker.Connecting?
    case StartSucceeds => s.worker.Connecting?
    case Panic => !s.worker.Exited?
    case SeeCancel => s.worker.Waiting? && TokenCancelled(s)
    // the select is biased: a cancelled token wins over a chunk
    case ReceiveChunk => s.worker.Waiting? && !TokenCancelled(s) && s.source.chunks != []
    case SourceEnds => s.worker.Waiting? && !TokenCancelled(s) && s.source == Source([], false)
    case SourceBreaks => s.worker.Waiting? && !TokenCancelled(s) && s.source == Source([], true)
    case SendPiece => s.worker.Sending? && s.worker.pieces != [] && ReceiverOpen(s) && s.channel.None?
    case SendFault => s.worker.SendingFault? && ReceiverOpen(s) && s.channel.None?
    case SendRefused => (s.worker.Sending? || s.worker.SendingFault?) && !ReceiverOpen(s)
    case RecvStart => s.owner.AwaitingStart? && s.start.Some?
    case RecvNoStart => s.owner.AwaitingStart? && s.start.None? && s.worker.Exited?
    case ReadPending(size) => s.owner.Reading? && size > 0 && s.pending != []
    case RecvPiece => s.owner.Reading? && s.pending == [] && s.channel.Some? && s.channel.value.Data?
    case RecvFault => s.owner.Reading? && s.pending == [] && s.channel == Some(Fault)
    case RecvClosed => s.owner.Reading? && s.pending == [] && s.channel.None? && s.worker.Exited?
    case Drop => s.owner.Reading?
    case CloseReceiver => s.owner.Cancelled?
    case Join => s.owner.Joining? && s.worker.Exited?
  }

  function SendOrWait(pieces: seq<seq<byte>>): Worker {
    if pieces == [] then Waiting else Sending(pieces)
  }

  function Apply(step: Step, s: State): State
    requires Enabled(step, s)
  {
    match step
    case StartFails => s.(worker := Exited, start := Some(false), startsSent := s.startsSent + 1)
    case StartSucceeds => s.(worker := Waiting, start := Some(true), startsSent := s.startsSent + 1)
    case Panic => s.(worker := Exited, panicked := true, dropped := Unsent(s.worker))
    case SeeCancel => s.(worker := Exited)
    case ReceiveChunk =>
      s.(worker := SendOrWait(Pieces(s.source.chunks[0])), source := s.source.(chunks := s.source.chunks[1..]))
    case SourceEnds => s.(worker := Exited)
    case SourceBreaks => s.(worker := SendingFault)
    case SendPiece => s.(worker := SendOrWait(s.worker.pieces[1..]), channel := Some(Data(s.worker.pieces[0])))
    case SendFault => s.(worker := Exited, channel := Some(Fault))
    case SendRefused => s.(worker := Exited)
    case RecvStart => s.(owner := if s.start.value then Reading else Cancelled, start := None)
    case RecvNoStart => s.(owner := Cancelled)
    case ReadPending(size) =>
      var n := if size < |s.pending| then size else |s.pending|;
      s.(delivered := s.delivered + s.pending[..n], pending := s.pending[n..])
    case RecvPiece => s.(pending := s.channel.value.bytes, channel := None)
    case RecvFault => s.(channel := None, sawFault := true)
    case RecvClosed => s
    case Drop => s.(owner := Cancelled)
    case CloseReceiver => s.(owner := Joining, channel := None)
    case Join => s.(owner := Joined)
  }

  /** The state after the steps, if each was possible when taken. */
  function Execute(s: State, steps: seq<Step>): Option<State>
    decreases |steps|
  {
    if steps == [] then Some(s)
    else if !Enabled(steps[0], s) then None
    else Execute(Apply(steps[0], s), steps[1..])
  }

  // ---------- What every reachable state keeps ----------

  function InChannel(channel: Option<Item>): seq<byte> {
    if channel.Some? && channel.value.Data? then channel.value.bytes else []
  }

  function Unsent(worker: Worker): seq<byte> {
    if worker.Sending? then Flatten(worker.pieces) else []
  }

  /** Every place a byte of the body can be, in delivery order. */
  function Conserved(s: State): seq<byte> {
    s.delivered + s.pending + InChannel(s.channel) + (Unsent(s.worker) + s.dropped) + Flatten(s.source.chunks)
  }

  ghost predicate GoodPieces(pieces: seq<seq<byte>>) {
    forall p :: p in pieces ==> 0 < |p| <= PIECE
  }

  /** Exactly one start message on a path without a panic, and the owner acts on it. */
  ghost predicate StartInv(s: State) {
    && (s.worker.Connecting? ==> s.startsSent == 0 && s.start.None? && s.owner.AwaitingStart? && !s.panicked)
    && (!s.worker.Connecting? ==> s.startsSent <= 1 && (s.startsSent == 1 || s.panicked))
    && (s.owner.AwaitingStart? ==> (s.start.Some? <==> s.startsSent == 1))
    && (s.start == Some(false) ==> s.worker.Exited?)
    && (s.worker.Waiting? || s.worker.Sending? || s.worker.SendingFault? ==>
      s.startsSent == 1 && s.start != Some(false) && !s.panicked)
    && (s.owner.Reading? ==> s.startsSent == 1)
  }

  ghost predicate ShapeInv(s: State) {
    && (s.worker.Sending? ==> s.worker.pieces != [] && GoodPieces(s.worker.pieces))
    && (s.channel.Some? && s.channel.value.Data? ==> 0 < |s.channel.value.bytes| <= PIECE)
    && (s.worker.SendingFault? ==> s.source == Source([], true))
    && (s.channel == Some(Fault) ==> s.source == Source([], true) && s.worker.Exited? && !s.sawFault)
    && (s.sawFault ==> s.source == Source([], true) && s.channel.None? && s.worker.Exited?)
  }

  /** While the owner can still read: every byte of `body` is in its place, and a worker that is
      gone without a panic left nothing behind. */
  ghost predicate DeliveryInv(s: State, body: seq<byte>, broken: bool) {
    && s.source.broken == broken
    && (!s.panicked ==> s.dropped == [])
    && (s.owner.Reading? || (s.owner.AwaitingStart? && s.start != Some(false)) ==> Conserved(s) == body)
    && EndInv(s, broken)
  }

  ghost predicate EndInv(s: State, broken: bool) {
    (s.owner.Reading? || (s.owner.AwaitingStart? && s.start == Some(true))) && s.worker.Exited? && !s.panicked ==>
      && s.source.chunks == []
      && (broken <==> s.sawFault || s.channel == Some(Fault))
  }

  ghost predicate Inv(s: State, body: seq<byte>, broken: bool) {
    StartInv(s) && ShapeInv(s) && DeliveryInv(s, body, broken)
  }

  lemma StepKeepsStart(step: Step, s: State)
    requires Enabled(step, s) && StartInv(s)
    ensures StartInv(Apply(step, s))
  {
  }

  lemma StepKeepsShape(step: Step, s: State)
    requires Enabled(step, s) && StartInv(s) && ShapeInv(s)
    ensures ShapeInv(Apply(step, s))
  {
    if step.ReceiveChunk? { PiecesCover(s.source.chunks[0]); }
  }

  lemma ReceiveConserves(s: State)
    requires Enabled(ReceiveChunk, s) && s.dropped == []
    ensures Conserved(Apply(ReceiveChunk, s)) == Conserved(s)
  {
    var t := Apply(ReceiveChunk, s);
    PiecesCover(s.source.chunks[0]);
    assert Unsent(t.worker) == s.source.chunks[0] && Unsent(t.worker) + [] == Unsent(t.worker);
    Regrouped(s.delivered + s.pending + InChannel(s.channel), [] + [], Unsent(t.worker), Flatten(t.source.chunks));
  }

  lemma SendConserves(s: State)
    requires Enabled(SendPiece, s) && s.dropped == []
    ensures Conserved(Apply(SendPiece, s)) == Conserved(s)
  {
    var t := Apply(SendPiece, s);
    var rest := s.worker.pieces[1..];
    assert Unsent(t.worker) == Flatten(rest) && Unsent(t.worker) + [] == Unsent(t.worker);
    assert Unsent(s.worker) == InChannel(t.channel) + Unsent(t.worker) && Unsent(s.worker) + [] == Unsent(s.worker);
    Regrouped(s.delivered + s.pending, InChannel(s.channel), InChannel(t.channel), Unsent(t.worker));
  }

  lemma Regrouped(a: seq<byte>, b: seq<byte>, c: seq<byte>, d: seq<byte>)
    requires b == []
    ensures a + b + (c + d) == a + c + d
  {
  }

  lemma PanicConserves(s: State)
    requires Enabled(Panic, s) && s.dropped == []
    ensures Conserved(Apply(Panic, s)) == Conserved(s)
  {
    assert Unsent(s.worker) + [] == [] + Unsent(s.worker);
  }

  lemma ReadConserves(s: State, size: nat)
    requires Enabled(ReadPending(size), s)
    ensures var t := Apply(ReadPending(size), s);
      t.delivered + t.pending == s.delivered + s.pending && 0 < |t.delivered| - |s.delivered| <= size
  {
  }

  lemma PickConserves(s: State)
    requires Enabled(RecvPiece, s)
    ensures var t := Apply(RecvPiece, s);
      t.delivered + t.pending + InChannel(t.channel) == s.delivered + s.pending + InChannel(s.channel)
  {
  }

  /** A step moves bytes from one place to the next and changes none. */
  lemma StepConserves(step: Step, s: State)
    requires Enabled(step, s) && !step.SendRefused? && !step.CloseReceiver?
    requires !s.worker.Exited? ==> s.dropped == []
    ensures Conserved(Apply(step, s)) == Conserved(s)
  {
    if step.Panic? { PanicConserves(s); }
    if step.ReceiveChunk? { ReceiveConserves(s); }
    if step.SendPiece? { SendConserves(s); }
    if step.ReadPending? { ReadConserves(s, step.size); }
    if step.RecvPiece? { PickConserves(s); }
  }

  lemma StepKeepsEnd(step: Step, s: State, body: seq<byte>, broken: bool)
    requires Enabled(step, s) && Inv(s, body, broken)
    ensures EndInv(Apply(step, s), broken)
  {
    hide Conserved;
  }

  lemma StepKeepsDelivery(step: Step, s: State, body: seq<byte>, broken: bool)
    requires Enabled(step, s) && Inv(s, body, broken)
    ensures DeliveryInv(Apply(step, s), body, broken)
  {
    hide EndInv, Conserved;
    StepKeepsEnd(step, s, body, broken);
    if !step.SendRefused? && !step.CloseReceiver? { StepConserves(step, s); }
  }

  /** The invariant holds after any steps of the two threads. */
  lemma {:induction false} ExecuteKeepsInv(s: State, steps: seq<Step>, body: seq<byte>, broken: bool)
    requires Inv(s, body, broken)
    ensures var t := Execute(s, steps); t.Some? ==> Inv(t.value, body, broken)
    decreases |steps|
  {
    if steps != [] && Enabled(steps[0], s) {
      StepKeepsInv(steps[0], s, body, broken);
      ExecuteKeepsInv(Apply(steps[0], s), steps[1..], body, broken);
    }
  }

  lemma ReachableInv(source: Source, steps: seq<Step>, s: State)
    requires Execute(Init(source), steps) == Some(s)
    ensures Inv(s, Flatten(source.chunks), source.broken)
  {
    var body := Flatten(source.chunks);
    assert Conserved(Init(source)) == body;
    ExecuteKeepsInv(Init(source), steps, body, source.broken);
  }

  /** Conservation: as long as the response is held, what was read, what the cursor holds, the
      channel, the unsent pieces, what a panic dropped and the network together are the body, in
      order. */
  lemma NothingLost(source: Source, steps: seq<Step>, s: State)
    requires Execute(Init(source), steps) == Some(s) && s.owner.Reading?
    ensures s.delivered + s.pending + InChannel(s.channel) + (Unsent(s.worker) + s.dropped) + Flatten(s.source.chunks)
            == Flatten(source.chunks)
    ensures !s.panicked ==> s.dropped == []
  {
    ReachableInv(source, steps, s);
  }

  /** When a read returns no bytes, the whole body was delivered exactly if the worker left nothing
      behind, in its hands or in the network. That is so whenever it did not panic, and then the
      network had failed exactly when an earlier read reported it. */
  lemma EndOfBodyIsComplete(source: Source, steps: seq<Step>, s: State)
    requires Execute(Init(source), steps) == Some(s) && Enabled(RecvClosed, s)
    ensures s.delivered + (s.dropped + Flatten(s.source.chunks)) == Flatten(source.chunks)
    ensures s.delivered == Flatten(source.chunks) <==> s.dropped == [] && Flatten(s.source.chunks) == []
    ensures !s.panicked ==> s.dropped == [] && s.source.chunks == [] && (s.sawFault <==> source.broken)
  {
    ReachableInv(source, steps, s);
    assert Conserved(s) == s.delivered + (s.dropped + Flatten(s.source.chunks));
    var left := s.dropped + Flatten(s.source.chunks);
    assert |s.delivered + left| == |s.delivered| + |left|;
    assert left == [] ==> s.delivered + left == s.delivered;
  }

  /** A worker that panics ends the body early, and no read says so: for any body there is a run in
      which the first read finds its end. */
  lemma PanicEndsBody(source: Source)
    ensures exists steps, s ::
      && Execute(Init(source), steps) == Some(s) && Enabled(RecvClosed, s)
      && s.delivered == [] && !s.sawFault && s.source == source
  {
    var s0 := Init(source);
    var s1 := Apply(StartSucceeds, s0);
    var s2 := Apply(RecvStart, s1);
    var s3 := Apply(Panic, s2);
    assert Execute(s3, []) == Some(s3);
    assert [Panic][1..] == [] && Execute(s2, [Panic]) == Some(s3);
    assert [RecvStart, Panic][1..] == [Panic] && Execute(s1, [RecvStart, Panic]) == Some(s3);
    assert [StartSucceeds, RecvStart, Panic][1..] == [RecvStart, Panic];
    assert Execute(s0, [StartSucceeds, RecvStart, Panic]) == Some(s3);
  }

  /** In every reachable state the bytes read are a prefix of the body. */
  lemma ReadsArePrefix(source: Source, steps: seq<Step>, s: State)
    requires Execute(Init(source), steps) == Some(s) && s.owner.Reading?
    ensures s.delivered <= Flatten(source.chunks)
  {
    hide Execute, Init, InChannel, Unsent, Flatten;
    NothingLost(source, steps, s);
    FiveParts(s.delivered, s.pending, InChannel(s.channel), Unsent(s.worker) + s.dropped, Flatten(s.source.chunks));
  }

  lemma FiveParts(a: seq<byte>, b: seq<byte>, c: seq<byte>, d: seq<byte>, e: seq<byte>)
    ensures a <= a + b + c + d + e
  {
    assert a + b + c + d + e == a + (b + c + d + e);
  }

  /** A worker past its connection attempt has sent exactly one start message, or panicked before
      sending it; never two. */
  lemma OneStartMessage(source: Source, steps: seq<Step>, s: State)
    requires Execute(Init(source), steps) == Some(s)
    ensures s.startsSent <= 1
    ensures s.worker.Exited? && !s.panicked ==> s.startsSent == 1
  {
    ReachableInv(source, steps, s);
  }

  // ---------- Drop ----------

  function WorkerRank(worker: Worker): nat {
    match worker
    case Exited => 0
    case Waiting => 1
    case SendingFault => 1
    case Sending(pieces) => 1 + |pieces|
    case Connecting => 2
  }

  function OwnerRank(owner: Owner): nat {
    match owner
    case Joined => 0
    case Joining => 1
    case Cancelled => 2
    case Reading => 3
    case AwaitingStart => 4
  }

  /** How many steps can still be taken once the token is cancelled. */
  function DropRank(s: State): nat {
    WorkerRank(s.worker) + OwnerRank(s.owner)
  }

  ghost predicate Stuck(s: State) {
    forall step :: !Enabled(step, s)
  }

  lemma DropStep(step: Step, s: State)
    requires Enabled(step, s) && StartInv(s) && ShapeInv(s) && TokenCancelled(s)
    ensures DropRank(Apply(step, s)) < DropRank(s)
    ensures TokenCancelled(Apply(step, s))
  {
  }

  /** Until the owner has joined a worker that exited, some thread can move. */
  lemma DropProgress(s: State)
    requires StartInv(s) && ShapeInv(s) && TokenCancelled(s) && Stuck(s)
    ensures s.owner.Joined?
  {
    assert !Enabled(CloseReceiver, s) && !Enabled(Join, s);
    assert !Enabled(SeeCancel, s) && !Enabled(SendRefused, s);
  }

  /** After a drop or a refused start, from every reachable state and in every interleaving: at
      most `DropRank` further steps are possible, and a run that cannot continue has joined a
      worker that exited. */
  lemma DropTerminates(source: Source, before: seq<Step>, s: State, after: seq<Step>, t: State)
    requires Execute(Init(source), before) == Some(s) && TokenCancelled(s)
    requires Execute(s, after) == Some(t)
    ensures |after| <= DropRank(s)
    ensures Stuck(t) ==> t.owner.Joined? && t.worker.Exited?
  {
    ReachableInv(source, before, s);
    JoinedInvHolds(Init(source), before);
    BoundedAfterCancel(s, after);
    JoinedInvHolds(s, after);
    if Stuck(t) {
      DropProgress(t);
    }
  }

  lemma {:induction false} BoundedAfterCancel(s: State, after: seq<Step>)
    requires StartInv(s) && ShapeInv(s) && TokenCancelled(s)
    requires Execute(s, after).Some?
    ensures var t := Execute(s, after).value;
      |after| + DropRank(t) <= DropRank(s) && StartInv(t) && ShapeInv(t) && TokenCancelled(t)
    decreases |after|
  {
    if after != [] {
      StepKeepsStart(after[0], s);
      StepKeepsShape(after[0], s);
      DropStep(after[0], s);
      BoundedAfterCancel(Apply(after[0], s), after[1..]);
    }
  }

  lemma {:induction false} JoinedInvHolds(s: State, steps: seq<Step>)
    requires s.owner.Joined? ==> s.worker.Exited?
    ensures var t := Execute(s, steps); t.Some? && t.value.owner.Joined? ==> t.value.worker.Exited?
    decreases |steps|
  {
    if steps != [] && Enabled(steps[0], s) {
      JoinedInvHolds(Apply(steps[0], s), steps[1..]);
    }
  }

  // ---------- Until the drop ----------

  /** Sending each piece, receiving it, and reading it a byte at a time. */
  function PiecesWork(pieces: seq<seq<byte>>): nat {
    if pieces == [] then 0 else 2 + |pieces[0]| + PiecesWork(pieces[1..])
  }

  function ChunksWork(chunks: seq<seq<byte>>): nat {
    if chunks == [] then 0 else 1 + PiecesWork(Pieces(chunks[0])) + ChunksWork(chunks[1..])
  }

  function WorkerWork(s: State): nat {
    var rest := ChunksWork(s.source.chunks) + 3;
    match s.worker
    case Connecting => 1 + rest
    case Waiting => rest
    case Sending(pieces) => PiecesWork(pieces) + rest
    case SendingFault => 2
    case Exited => 0
  }

  function ChannelWork(channel: Option<Item>): nat {
    match channel
    case None => 0
    case Some(Data(bytes)) => 1 + |bytes|
    case Some(Fault) => 1
  }

  /** How many steps can still be taken before a drop, reads at the end of the body aside. */
  function HeldRank(s: State): nat {
    (if s.owner.AwaitingStart? then 1 else 0) + |s.pending| + ChannelWork(s.channel) + WorkerWork(s)
  }

  lemma HeldStep(step: Step, s: State)
    requires Enabled(step, s) && !TokenCancelled(s) && !step.Drop? && !step.RecvClosed?
    ensures TokenCancelled(Apply(step, s)) || HeldRank(Apply(step, s)) < HeldRank(s)
  {
    if step.ReceiveChunk? {
      assert ChunksWork(s.source.chunks) ==
        1 + PiecesWork(Pieces(s.source.chunks[0])) + ChunksWork(s.source.chunks[1..]);
    }
  }

  /** Nothing but a drop, a read at the end of the body and a panic is possible. */
  ghost predicate Quiet(s: State) {
    forall step :: Enabled(step, s) ==> step.Drop? || step.RecvClosed? || step.Panic?
  }

  /** No deadlock before the drop: if nothing else can happen, the owner holds the response and its
      read returns the end of the body. */
  lemma HeldProgress(s: State)
    requires StartInv(s) && ShapeInv(s) && !TokenCancelled(s) && Quiet(s)
    ensures s.owner.Reading? && Enabled(RecvClosed, s)
  {
    StartIsReceived(s);
    assert !Enabled(ReadPending(1), s) && !Enabled(RecvPiece, s) && !Enabled(RecvFault, s);
    WorkerCanMove(s);
  }

  lemma StartIsReceived(s: State)
    requires StartInv(s) && Quiet(s)
    ensures !s.owner.AwaitingStart?
  {
    assert !Enabled(StartSucceeds, s) && !Enabled(RecvStart, s) && !Enabled(RecvNoStart, s);
  }

  /** A worker past the start that has not exited can move, unless the channel is full. */
  lemma WorkerCanMove(s: State)
    requires StartInv(s) && ShapeInv(s) && !TokenCancelled(s) && Quiet(s)
    requires s.channel.None? && !s.worker.Connecting?
    ensures s.worker.Exited?
  {
    assert !Enabled(SendPiece, s) && !Enabled(SendFault, s);
    assert !Enabled(ReceiveChunk, s) && !Enabled(SourceEnds, s) && !Enabled(SourceBreaks, s);
  }

  lemma {:induction false} HeldBounded(s: State, after: seq<Step>, body: seq<byte>, broken: bool)
    requires Inv(s, body, broken) && !TokenCancelled(s) && RecvClosed !in after
    requires Execute(s, after).Some? && !TokenCancelled(Execute(s, after).value)
    ensures |after| + HeldRank(Execute(s, after).value) <= HeldRank(s)
    decreases |after|
  {
    hide Inv, HeldRank;
    if after != [] {
      var step, next := after[0], Apply(after[0], s);
      StepKeepsInv(step, s, body, broken);
      if TokenCancelled(next) { StaysCancelled(next, after[1..], body, broken); }
      HeldStep(step, s);
      HeldBounded(next, after[1..], body, broken);
    }
  }

  lemma StepKeepsInv(step: Step, s: State, body: seq<byte>, broken: bool)
    requires Enabled(step, s) && Inv(s, body, broken)
    ensures Inv(Apply(step, s), body, broken)
  {
    StepKeepsStart(step, s);
    StepKeepsShape(step, s);
    StepKeepsDelivery(step, s, body, broken);
  }

  lemma StaysCancelled(s: State, after: seq<Step>, body: seq<byte>, broken: bool)
    requires Inv(s, body, broken) && TokenCancelled(s) && Execute(s, after).Some?
    ensures TokenCancelled(Execute(s, after).value)
  {
    BoundedAfterCancel(s, after);
  }

  /** As long as the response is not dropped, from every reachable state and in every interleaving:
      at most `HeldRank` steps are possible before a read finds the end of the body, and a run that
      cannot continue otherwise has a worker that exited and, unless it panicked, has delivered the
      whole body and reported the network's failure if there was one. */
  lemma HeldDelivers(source: Source, before: seq<Step>, s: State, after: seq<Step>, t: State)
    requires Execute(Init(source), before) == Some(s) && !TokenCancelled(s)
    requires Execute(s, after) == Some(t) && !TokenCancelled(t) && RecvClosed !in after
    ensures |after| <= HeldRank(s)
    ensures Quiet(t) ==> t.owner.Reading? && t.worker.Exited? && Enabled(RecvClosed, t)
    ensures Quiet(t) && !t.panicked ==> t.delivered == Flatten(source.chunks) && (t.sawFault <==> source.broken)
  {
    hide Inv, HeldRank, Quiet, Enabled, Apply;
    var body := Flatten(source.chunks);
    ReachableInv(source, before, s);
    HeldBounded(s, after, body, source.broken);
    ExecuteKeepsInv(s, after, body, source.broken);
    if Quiet(t) {
      ShapesOf(t, body, source.broken);
      HeldProgress(t);
      ClosedOnlyAtEnd(t);
      AtTheEnd(t, body, source.broken);
    }
  }

  lemma ShapesOf(s: State, body: seq<byte>, broken: bool)
    requires Inv(s, body, broken)
    ensures StartInv(s) && ShapeInv(s)
  {
  }

  lemma ClosedOnlyAtEnd(s: State)
    requires Enabled(RecvClosed, s)
    ensures s.owner.Reading? && s.pending == [] && s.channel.None? && s.worker.Exited?
  {
  }

  lemma AtTheEnd(s: State, body: seq<byte>, broken: bool)
    requires Inv(s, body, broken)
    requires s.owner.Reading? && s.pending == [] && s.channel.None? && s.worker.Exited?
    ensures !s.panicked ==> s.delivered == body && (s.sawFault <==> broken)
  {
    if !s.panicked {
      assert Conserved(s) == s.delivered;
    }
  }

  /** Why the receiver is closed before the join: with the token cancelled but the receiver open,
      a worker blocked on a full channel cannot move. */
  lemma CancelAloneBlocks(big: seq<byte>)
    requires |big| == PIECE + 1
    ensures exists steps, s ::
      && Execute(Init(Source([big], false)), steps) == Some(s)
      && TokenCancelled(s) && s.worker.Sending?
      && (forall step :: Enabled(step, s) ==> step in {CloseReceiver, Panic})
  {
    var s0 := Init(Source([big], false));
    var s1 := Apply(StartSucceeds, s0);
    var s2 := Apply(RecvStart, s1);
    var s3 := Apply(ReceiveChunk, s2);
    assert Pieces(big) == [big[..PIECE]] + Pieces(big[PIECE..]);
    assert Pieces(big[PIECE..]) != [];
    var s4 := Apply(SendPiece, s3);
    var s5 := Apply(Drop, s4);
    var steps := [StartSucceeds, RecvStart, ReceiveChunk, SendPiece, Drop];
    RunFive(s0, steps);
    assert Execute(s0, steps) == Some(s5);
  }

  lemma RunFive(s: State, steps: seq<Step>)
    requires |steps| == 5
    requires Enabled(steps[0], s)
    requires Enabled(steps[1], Apply(steps[0], s))
    requires Enabled(steps[2], Apply(steps[1], Apply(steps[0], s)))
    requires Enabled(steps[3], Apply(steps[2], Apply(steps[1], Apply(steps[0], s))))
    requires Enabled(steps[4], Apply(steps[3], Apply(steps[2], Apply(steps[1], Apply(steps[0], s)))))
    ensures Execute(s, steps) ==
      Some(Apply(steps[4], Apply(steps[3], Apply(steps[2], Apply(steps[1], Apply(steps[0], s))))))
  {
    var a := Apply(steps[0], s);
    var b := Apply(steps[1], a);
    var c := Apply(steps[2], b);
    var d := Apply(steps[3], c);
    var e := Apply(steps[4], d);
    assert Execute(e, steps[5..]) == Some(e);
    assert steps[4..][1..] == steps[5..];
    assert Execute(d, steps[4..]) == Some(e);
    assert steps[3..][1..] == steps[4..];
    assert Execute(c, steps[3..]) == Some(e);
    assert steps[2..][1..] == steps[3..];
    assert Execute(b, steps[2..]) == Some(e);
    assert steps[1..][1..] == steps[2..];
    assert Execute(a, steps[1..]) == Some(e);
  }

  // ---------- The owner's object ----------

  datatype ReadResult = Bytes(bytes: seq<byte>) | ReadFault

  /** The response as its owner sees it: what the channel will still yield before it closes, and
      the cursor. `chunks` is `None` once the receiver has been taken. */
  class SharedResponse {
    var chunks: Option<seq<Item>>
    var pending: seq<byte>

    constructor (chunks: seq<Item>)
      requires forall i :: 0 <= i < |chunks| ==> chunks[i].Data? ==> chunks[i].bytes != []
      ensures Valid() && this.chunks == Some(chunks) && pending == []
    {
      this.chunks, pending := Some(chunks), [];
    }

    /** A piece is never empty (`PiecesCover`). */
    ghost predicate Valid()
      reads this
    {
      chunks.Some? ==> forall i :: 0 <= i < |chunks.value| ==> chunks.value[i].Data? ==> chunks.value[i].bytes != []
    }

    ghost function Ahead(): seq<Item>
      reads this
    {
      if chunks.Some? then chunks.value else []
    }

    /** Reads into a buffer of `size` bytes. No bytes for a non-empty buffer means that nothing is
        left; otherwise the bytes are the next ones, at most `size`, and none is skipped. */
    method Read(size: nat) returns (r: ReadResult)
      requires Valid()
      modifies this
      ensures Valid()
      ensures size == 0 ==> r == Bytes([]) && pending == old(pending) && chunks == old(chunks)
      ensures size > 0 && r == Bytes([]) ==> old(pending) == [] && old(Ahead()) == [] && pending == [] && Ahead() == []
      ensures r.Bytes? ==> |r.bytes| <= size && r.bytes + pending + Payload(Ahead()) == old(pending + Payload(Ahead()))
      ensures r.ReadFault? <==> size > 0 && old(pending) == [] && old(Ahead()) != [] && old(Ahead())[0].Fault?
      ensures r.ReadFault? ==> pending == [] && Ahead() == old(Ahead())[1..]
    {
      if size == 0 { return Bytes([]); }
      while true
        invariant Valid()
        invariant pending + Payload(Ahead()) == old(pending + Payload(Ahead()))
        invariant (pending == old(pending) && Ahead() == old(Ahead()))
          || (old(pending) == [] && old(Ahead()) != [] && old(Ahead())[0].Data? && pending != [])
        decreases |Ahead()|
      {
        var n := if size < |pending| then size else |pending|;
        if n != 0 {
          Regroup(pending, n, Payload(Ahead()));
          r := Bytes(pending[..n]);
          pending := pending[n..];
          return;
        }
        if chunks.None? || chunks.value == [] { return Bytes([]); }
        var item := chunks.value[0];
        chunks := Some(chunks.value[1..]);
        if item.Fault? { return ReadFault; }
        pending := item.bytes;
      }
    }
  }

  lemma Regroup(a: seq<byte>, n: nat, b: seq<byte>)
    requires n <= |a|
    ensures a[..n] + a[n..] + b == a + b
  {
    assert a[..n] + a[n..] == a;
  }

  /** The bytes of the pieces, faults aside. */
  function Payload(items: seq<Item>): seq<byte> {
    if items == [] then []
    else (if items[0].Data? then items[0].bytes else []) + Payload(items[1..])
  }
}
