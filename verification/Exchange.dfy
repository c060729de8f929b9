/** The lockstep exchange with a fixture process (`bounded_fixture_process.py`): two capturing
    threads, a writing thread and the caller share their state under one condition variable, while
    the child produces output, closes its streams and exits as it likes.

    A step is what a thread does between two points at which another may run: a system call, or a
    stretch under the lock. `Execute` runs any interleaving. */
module Exchange {
  import opened Common
  import opened StreamFraming

  const READ_SIZE: nat := 65536

  function Newlines(s: seq<byte>): nat {
    if s == [] then 0 else Newlines(s[..|s| - 1]) + (if s[|s| - 1] == NEWLINE then 1 else 0)
  }

  lemma {:induction false} NewlinesIs(s: seq<byte>)
    ensures Newlines(s) == multiset(s)['\n' as int]
  {
    if s != [] {
      NewlinesIs(s[..|s| - 1]);
      assert s == s[..|s| - 1] + [s[|s| - 1]];
    }
  }

  lemma {:induction false} NewlinesGrow(a: seq<byte>, b: seq<byte>)
    ensures Newlines(a) <= Newlines(a + b)
  {
    if b == [] {
      assert a + b == a;
    } else {
      assert (a + b)[..|a + b| - 1] == a + b[..|b| - 1];
      NewlinesGrow(a, b[..|b| - 1]);
    }
  }

  // ---------- The parts of the input ----------

  /** `stdin.split(b"\n")`. */
  function SplitLines(s: seq<byte>): (lines: seq<seq<byte>>)
    ensures lines != []
    decreases |s|
  {
    match Position(s)
    case None => [s]
    case Some(i) => [s[..i]] + SplitLines(s[i + 1..])
  }

  function WithNewlines(lines: seq<seq<byte>>): seq<seq<byte>> {
    if lines == [] then [] else [lines[0] + [NEWLINE]] + WithNewlines(lines[1..])
  }

  function Parts(stdin: seq<byte>, serial: bool): seq<seq<byte>> {
    if !serial then [stdin]
    else
      var lines := SplitLines(stdin);
      var last := lines[|lines| - 1];
      WithNewlines(lines[..|lines| - 1]) + (if last != [] then [last] else [])
  }

  lemma PartsOfFirst(stdin: seq<byte>, i: nat)
    requires Position(stdin) == Some(i)
    ensures Parts(stdin, true) == [stdin[..i] + [NEWLINE]] + Parts(stdin[i + 1..], true)
  {
    hide Position;
    var lines, others := SplitLines(stdin), SplitLines(stdin[i + 1..]);
    assert lines == [stdin[..i]] + others;
    assert lines[..|lines| - 1] == [stdin[..i]] + others[..|others| - 1];
    assert lines[..|lines| - 1][1..] == others[..|others| - 1];
    assert lines[|lines| - 1] == others[|others| - 1];
  }

  lemma PartsOfTail(stdin: seq<byte>)
    requires Position(stdin) == None
    ensures Parts(stdin, true) == if stdin == [] then [] else [stdin]
  {
    var lines := SplitLines(stdin);
    assert lines == [stdin] && lines[..|lines| - 1] == [];
  }

  /** In serial mode the parts are the lines of the input, newlines kept. */
  lemma {:induction false} PartsAreLines(stdin: seq<byte>)
    ensures IsSplit(Parts(stdin, true), stdin)
    decreases |stdin|
  {
    hide Parts, SplitLines;
    match Position(stdin) {
      case None =>
        PartsOfTail(stdin);
        if stdin != [] {
          assert Flatten([stdin]) == stdin + Flatten([]);
          assert forall c :: c in stdin[..|stdin| - 1] ==> c in stdin;
        }
      case Some(i) =>
        var first, rest := stdin[..i] + [NEWLINE], stdin[i + 1..];
        PartsAreLines(rest);
        PartsOfFirst(stdin, i);
        assert first[..|first| - 1] == stdin[..i];
        SplitCons(first, Parts(rest, true), rest);
        assert stdin == first + rest;
    }
  }

  lemma SplitCons(first: seq<byte>, others: seq<seq<byte>>, rest: seq<byte>)
    requires IsSplit(others, rest)
    requires first != [] && first[|first| - 1] == NEWLINE && NEWLINE !in first[..|first| - 1]
    ensures IsSplit([first] + others, first + rest)
  {
    var all := [first] + others;
    assert all[1..] == others;
    assert forall i :: 0 < i < |all| ==> all[i] == others[i - 1];
  }

  // ---------- State ----------

  datatype ReaderAt =
    | Reading
    | Holding(chunk: seq<byte>)   // read, not yet under the lock
    | Raised                      // failed, failure not yet recorded
    | Leaving                     // in the final block, not yet marked ended
    | Gone                        // marked ended

  /** One captured stream: the pipe, the reader and its output. */
  datatype Stream = Stream(
    produced: seq<byte>,    // all the child ever wrote to it
    unread: seq<byte>,      // still in the pipe
    closed: bool,           // the child's end is closed
    captured: seq<byte>,
    reader: ReaderAt,
    failed: bool)           // the reader raised

  datatype WriterAt =
    | Writing(index: nat, offset: nat)
    | Waiting(index: nat)
    | WriterRaised
    | WriterLeaving
    | WriterGone

  datatype CallerAt = Polling | Returned(stdout: seq<byte>, stderr: seq<byte>) | CallerRaised

  datatype Setup = Setup(stdin: seq<byte>, serial: bool, limit: nat)

  datatype State = State(
    out: Stream, err: Stream,
    writer: WriterAt,
    written: seq<byte>,     // all bytes ever accepted by the child's input pipe
    failures: nat,
    exited: bool,
    caller: CallerAt)

  const FRESH_STREAM := Stream([], [], false, [], Reading, false)

  function Init(setup: Setup): State {
    State(FRESH_STREAM, FRESH_STREAM, Next(setup, 0), [], 0, false, Polling)
  }

  /** The writer about to take up part `index`. */
  function Next(setup: Setup, index: nat): WriterAt {
    if index < |Parts(setup.stdin, setup.serial)| then Writing(index, 0) else WriterLeaving
  }

  // ---------- Steps ----------

  datatype ReaderStep =
    | Read(n: nat)        // the read returns `n` bytes; 0 is the end of the stream
    | ReadRaises
    | Capture             // under the lock: check the bound, extend the output
    | RecordFailure
    | MarkEnded

  datatype Step =
    // the child
    | Produce(toOut: bool, bytes: seq<byte>) | CloseStream(ofOut: bool) | Exit
    | ReaderStep(onOut: bool, step: ReaderStep)
    // the writer
    | WriteBytes(n: nat) | WriteBroken | WriteRaises
    | SeeResponse | SeeFailure | SeeEnded | WaitTimesOut
    | WriterRecords | WriterEnds
    // the caller
    | Return | RaiseFailure | CallerTimesOut

  function Which(s: State, isOut: bool): Stream { if isOut then s.out else s.err }

  function With(s: State, isOut: bool, stream: Stream): State {
    if isOut then s.(out := stream) else s.(err := stream)
  }

  predicate CanRead(step: ReaderStep, stream: Stream, limit: nat) {
    match step
    case Read(n) =>
      stream.reader.Reading?
      && (if n == 0 then stream.unread == [] && stream.closed
          else n <= |stream.unread| && n <= READ_SIZE && n + |stream.captured| <= limit + 1)
    case ReadRaises => stream.reader.Reading?
    case Capture => stream.reader.Holding?
    case RecordFailure => stream.reader.Raised?
    case MarkEnded => stream.reader.Leaving?
  }

  function DoRead(step: ReaderStep, stream: Stream, limit: nat): Stream
    requires CanRead(step, stream, limit)
  {
    match step
    case Read(n) =>
      if n == 0 then stream.(reader := Leaving)
      else stream.(reader := Holding(stream.unread[..n]), unread := stream.unread[n..])
    case ReadRaises => stream.(reader := Raised, failed := true)
    case Capture =>
      if |stream.reader.chunk| + |stream.captured| > limit then stream.(reader := Raised, failed := true)
      else stream.(captured := stream.captured + stream.reader.chunk, reader := Reading)
    case RecordFailure => stream.(reader := Leaving)
    case MarkEnded => stream.(reader := Gone)
  }

  predicate Enabled(step: Step, s: State, setup: Setup) {
    var parts := Parts(setup.stdin, setup.serial);
    match step
    case Produce(toOut, bytes) => !s.exited && !Which(s, toOut).closed
    case CloseStream(ofOut) => true
    case Exit => true
    case ReaderStep(onOut, step) => CanRead(step, Which(s, onOut), setup.limit)
    case WriteBytes(n) =>
      s.writer.Writing? && s.writer.index < |parts| && s.writer.offset <= |parts[s.writer.index]|
      && (if s.writer.offset == |parts[s.writer.index]| then n == 0
          else 0 < n <= |parts[s.writer.index]| - s.writer.offset)
    case WriteBroken => s.writer.Writing?
    case WriteRaises => s.writer.Writing?
    case SeeResponse => s.writer.Waiting? && Newlines(s.out.captured) > s.writer.index
    case SeeFailure => s.writer.Waiting? && Newlines(s.out.captured) <= s.writer.index && s.failures > 0
    case SeeEnded =>
      s.writer.Waiting? && Newlines(s.out.captured) <= s.writer.index && s.failures == 0 && s.out.reader.Gone?
    case WaitTimesOut =>
      s.writer.Waiting? && Newlines(s.out.captured) <= s.writer.index && s.failures == 0 && !s.out.reader.Gone?
    case WriterRecords => s.writer.WriterRaised?
    case WriterEnds => s.writer.WriterLeaving?
    case Return =>
      && s.caller.Polling? && s.failures == 0 && s.exited
      && s.out.reader.Gone? && s.err.reader.Gone? && s.writer.WriterGone?
    case RaiseFailure => s.caller.Polling? && s.failures > 0
    case CallerTimesOut => s.caller.Polling? && s.failures == 0
  }

  /** The part is finished: wait for its response in serial mode, otherwise go on. */
  function AfterPart(setup: Setup, index: nat): WriterAt {
    if setup.serial then Waiting(index) else Next(setup, index + 1)
  }

  function Apply(step: Step, s: State, setup: Setup): State
    requires Enabled(step, s, setup)
  {
    match step
    case Produce(toOut, bytes) =>
      var stream := Which(s, toOut);
      With(s, toOut, stream.(produced := stream.produced + bytes, unread := stream.unread + bytes))
    case CloseStream(ofOut) => With(s, ofOut, Which(s, ofOut).(closed := true))
    case Exit => s.(exited := true, out := s.out.(closed := true), err := s.err.(closed := true))
    case ReaderStep(onOut, step) =>
      var stream := DoRead(step, Which(s, onOut), setup.limit);
      With(s, onOut, stream).(failures := s.failures + (if step.RecordFailure? then 1 else 0))
    case WriteBytes(n) =>
      var i, o := s.writer.index, s.writer.offset;
      var part := Parts(setup.stdin, setup.serial)[i];
      s.(written := s.written + part[o..o + n],
         writer := if o + n == |part| then AfterPart(setup, i) else Writing(i, o + n))
    case WriteBroken => s.(writer := if setup.serial then WriterRaised else WriterLeaving)
    case WriteRaises => s.(writer := WriterRaised)
    case SeeResponse => s.(writer := Next(setup, s.writer.index + 1))
    case SeeFailure => s.(writer := WriterLeaving)
    case SeeEnded => s.(writer := WriterRaised)
    case WaitTimesOut => s.(writer := WriterRaised)
    case WriterRecords => s.(writer := WriterLeaving, failures := s.failures + 1)
    case WriterEnds => s.(writer := WriterGone)
    case Return => s.(caller := Returned(s.out.captured, s.err.captured))
    case RaiseFailure => s.(caller := CallerRaised)
    case CallerTimesOut => s.(caller := CallerRaised)
  }

  function Execute(s: State, steps: seq<Step>, setup: Setup): Option<State>
    decreases |steps|
  {
    if steps == [] then Some(s)
    else if !Enabled(steps[0], s, setup) then None
    else Execute(Apply(steps[0], s, setup), steps[1..], setup)
  }

  // ---------- Invariants ----------

  function Held(reader: ReaderAt): seq<byte> { if reader.Holding? then reader.chunk else [] }

  /** Nothing of a stream is lost before its reader fails; a reader that left without failing met
      the end of the stream; one that failed recorded it before it can be marked ended. */
  ghost predicate StreamInv(stream: Stream, failures: nat, limit: nat) {
    && |stream.captured| <= limit && |stream.captured| + |Held(stream.reader)| <= limit + 1
    && |Held(stream.reader)| <= READ_SIZE
    && (!stream.failed ==> stream.captured + Held(stream.reader) + stream.unread == stream.produced)
    && ((stream.reader.Leaving? || stream.reader.Gone?) && !stream.failed ==> stream.closed && stream.unread == [])
    && (stream.failed <==> stream.reader.Raised? || ((stream.reader.Leaving? || stream.reader.Gone?) && stream.failed))
    && (stream.failed && !stream.reader.Raised? ==> failures > 0)
  }

  /** How far the writer is, as a number of parts begun. */
  function Begun(writer: WriterAt): nat {
    match writer
    case Writing(index, _) => index
    case Waiting(index) => index
    case _ => 0
  }

  ghost predicate WrittenUpTo(s: State, setup: Setup, parts: seq<seq<byte>>) {
    match s.writer
    case Writing(index, offset) =>
      index < |parts| && offset <= |parts[index]| && s.written == Flatten(parts[..index]) + parts[index][..offset]
    case Waiting(index) => index < |parts| && s.written == Flatten(parts[..index + 1])
    case _ => true
  }

  /** Every part taken up was answered: part `index` is begun only after `index` newlines. */
  ghost predicate WriterInv(s: State, setup: Setup) {
    var parts := Parts(setup.stdin, setup.serial);
    && WrittenUpTo(s, setup, parts)
    && (s.writer.Waiting? ==> setup.serial)
    && (setup.serial ==> Newlines(s.out.captured) >= Begun(s.writer))
  }

  /** In serial mode, input beyond the first `k` parts has been written only after `k` newlines
      were captured; and a writer that left without a failure has written everything and seen a
      newline for each part. */
  ghost predicate LockstepInv(s: State, setup: Setup) {
    var parts := Parts(setup.stdin, setup.serial);
    setup.serial ==>
      && (forall k :: 0 <= k < |parts| && |s.written| > |Flatten(parts[..k])| ==> Newlines(s.out.captured) >= k)
      && ((s.writer.WriterLeaving? || s.writer.WriterGone?) && s.failures == 0 ==>
            s.written == setup.stdin && Newlines(s.out.captured) >= |parts|)
  }

  ghost predicate CallerInv(s: State) {
    s.caller.Returned? ==>
      s.exited && s.caller.stdout == s.out.produced && s.caller.stderr == s.err.produced
  }

  ghost predicate Inv(s: State, setup: Setup) {
    && StreamInv(s.out, s.failures, setup.limit) && StreamInv(s.err, s.failures, setup.limit)
    && (s.exited ==> s.out.closed && s.err.closed)
    && WriterInv(s, setup) && LockstepInv(s, setup) && CallerInv(s)
  }

  lemma ReadKeepsStream(step: ReaderStep, stream: Stream, failures: nat, limit: nat)
    requires CanRead(step, stream, limit) && StreamInv(stream, failures, limit)
    ensures StreamInv(DoRead(step, stream, limit), failures + (if step.RecordFailure? then 1 else 0), limit)
    ensures stream.captured <= DoRead(step, stream, limit).captured
  {
    var next := DoRead(step, stream, limit);
    if step.Read? && step.n > 0 && !stream.failed {
      assert stream.unread == stream.unread[..step.n] + stream.unread[step.n..];
      assert stream.captured + Held(next.reader) + next.unread == stream.captured + [] + stream.unread;
    }
  }

  lemma StepKeepsStreams(step: Step, s: State, setup: Setup)
    requires Enabled(step, s, setup)
    requires StreamInv(s.out, s.failures, setup.limit) && StreamInv(s.err, s.failures, setup.limit)
    ensures var t := Apply(step, s, setup);
      StreamInv(t.out, t.failures, setup.limit) && StreamInv(t.err, t.failures, setup.limit)
    ensures var t := Apply(step, s, setup); s.out.captured <= t.out.captured && s.failures <= t.failures
  {
    hide Parts, Newlines;
    if step.ReaderStep? {
      hide DoRead, CanRead;
      ReadKeepsStream(step.step, Which(s, step.onOut), s.failures, setup.limit);
    } else if step.Produce? {
      var stream := Which(s, step.toOut);
      assert stream.captured + Held(stream.reader) + (stream.unread + step.bytes)
          == stream.captured + Held(stream.reader) + stream.unread + step.bytes;
    }
  }

  lemma FlattenUpTo(parts: seq<seq<byte>>, k: nat)
    requires k < |parts|
    ensures Flatten(parts[..k + 1]) == Flatten(parts[..k]) + parts[k]
  {
    assert parts[..k + 1] == parts[..k] + [parts[k]];
    FlattenConcat(parts[..k], [parts[k]]);
    assert Flatten([parts[k]]) == parts[k] + Flatten([]);
  }

  lemma NextIsWritten(s: State, setup: Setup, index: nat)
    requires var parts := Parts(setup.stdin, setup.serial);
      index < |parts| && s.written == Flatten(parts[..index + 1])
    ensures WrittenUpTo(s.(writer := Next(setup, index + 1)), setup, Parts(setup.stdin, setup.serial))
  {
    hide Parts;
    var parts := Parts(setup.stdin, setup.serial);
    if index + 1 < |parts| {
      assert parts[index + 1][..0] == [];
      assert Flatten(parts[..index + 1]) + [] == s.written;
    }
  }

  lemma WriteKeepsWritten(n: nat, s: State, setup: Setup)
    requires Enabled(WriteBytes(n), s, setup) && WrittenUpTo(s, setup, Parts(setup.stdin, setup.serial))
    ensures var t := Apply(WriteBytes(n), s, setup); WrittenUpTo(t, setup, Parts(setup.stdin, setup.serial))
  {
    hide Parts;
    var parts := Parts(setup.stdin, setup.serial);
    var i, o := s.writer.index, s.writer.offset;
    var t := Apply(WriteBytes(n), s, setup);
    assert parts[i][..o] + parts[i][o..o + n] == parts[i][..o + n];
    assert t.written == Flatten(parts[..i]) + parts[i][..o + n];
    if o + n == |parts[i]| {
      assert parts[i][..o + n] == parts[i];
      FlattenUpTo(parts, i);
      NextIsWritten(t, setup, i);
    }
  }

  lemma StepKeepsWriter(step: Step, s: State, setup: Setup)
    requires Enabled(step, s, setup) && WriterInv(s, setup)
    requires s.out.captured <= Apply(step, s, setup).out.captured
    ensures WriterInv(Apply(step, s, setup), setup)
  {
    hide Parts, Newlines, DoRead, CanRead;
    var t := Apply(step, s, setup);
    CapturedGrows(s.out.captured, t.out.captured);
    if step.WriteBytes? {
      WriteKeepsWritten(step.n, s, setup);
    } else if step.SeeResponse? {
      NextIsWritten(s, setup, s.writer.index);
    }
  }

  lemma CapturedGrows(a: seq<byte>, b: seq<byte>)
    requires a <= b
    ensures Newlines(a) <= Newlines(b)
  {
    assert b == a + b[|a|..];
    NewlinesGrow(a, b[|a|..]);
  }

  lemma {:induction false} FlattenLonger(parts: seq<seq<byte>>, j: nat, k: nat)
    requires j <= k <= |parts|
    ensures |Flatten(parts[..j])| <= |Flatten(parts[..k])|
    decreases k
  {
    if j < k {
      FlattenUpTo(parts, k - 1);
      FlattenLonger(parts, j, k - 1);
    }
  }

  lemma WriteKeepsLockstep(n: nat, s: State, setup: Setup)
    requires Enabled(WriteBytes(n), s, setup) && WriterInv(s, setup) && setup.serial
    ensures LockstepInv(Apply(WriteBytes(n), s, setup), setup)
  {
    hide Parts, Newlines;
    var parts := Parts(setup.stdin, setup.serial);
    var t := Apply(WriteBytes(n), s, setup);
    var i, o := s.writer.index, s.writer.offset;
    FlattenUpTo(parts, i);
    assert |t.written| <= |Flatten(parts[..i + 1])|;
    forall k | 0 <= k < |parts| && |t.written| > |Flatten(parts[..k])|
      ensures Newlines(t.out.captured) >= k
    {
      if k > i { FlattenLonger(parts, i + 1, k); }
    }
  }

  lemma StepKeepsLockstep(step: Step, s: State, setup: Setup)
    requires Enabled(step, s, setup) && WriterInv(s, setup) && LockstepInv(s, setup)
    requires s.out.captured <= Apply(step, s, setup).out.captured && s.failures <= Apply(step, s, setup).failures
    ensures LockstepInv(Apply(step, s, setup), setup)
  {
    hide Parts, Newlines;
    var t := Apply(step, s, setup);
    var parts := Parts(setup.stdin, setup.serial);
    if setup.serial {
      CapturedGrows(s.out.captured, t.out.captured);
      if step.WriteBytes? {
        WriteKeepsLockstep(step.n, s, setup);
      } else if step.SeeResponse? && t.writer.WriterLeaving? {
        PartsAreLines(setup.stdin);
        assert parts[..|parts|] == parts;
      }
    }
  }

  lemma StepKeepsCaller(step: Step, s: State, setup: Setup)
    requires Enabled(step, s, setup) && CallerInv(s)
    requires StreamInv(s.out, s.failures, setup.limit) && StreamInv(s.err, s.failures, setup.limit)
    ensures CallerInv(Apply(step, s, setup))
  {
    hide Parts, Newlines;
    if step.Return? {
      assert s.out.captured + [] + [] == s.out.captured && s.err.captured + [] + [] == s.err.captured;
    }
  }

  lemma {:induction false} ExecuteKeepsInv(s: State, steps: seq<Step>, setup: Setup)
    requires Inv(s, setup)
    ensures var t := Execute(s, steps, setup); t.Some? ==> Inv(t.value, setup)
    decreases |steps|
  {
    hide Parts, Newlines, WriterInv, LockstepInv, CallerInv, StreamInv;
    if steps != [] && Enabled(steps[0], s, setup) {
      StepKeepsStreams(steps[0], s, setup);
      StepKeepsWriter(steps[0], s, setup);
      StepKeepsLockstep(steps[0], s, setup);
      StepKeepsCaller(steps[0], s, setup);
      StepKeepsExit(steps[0], s, setup);
      ExecuteKeepsInv(Apply(steps[0], s, setup), steps[1..], setup);
    }
  }

  lemma StepKeepsExit(step: Step, s: State, setup: Setup)
    requires Enabled(step, s, setup) && (s.exited ==> s.out.closed && s.err.closed)
    ensures var t := Apply(step, s, setup); t.exited ==> t.out.closed && t.err.closed
  {
    hide Parts, Newlines;
  }

  lemma InitInv(setup: Setup)
    ensures Inv(Init(setup), setup)
  {
    hide Parts;
    var parts := Parts(setup.stdin, setup.serial);
    assert Flatten(parts[..0]) == [];
    if parts != [] {
      assert parts[0][..0] == [];
    } else if setup.serial {
      PartsAreLines(setup.stdin);
    }
  }

  lemma ReachableInv(setup: Setup, steps: seq<Step>, s: State)
    requires Execute(Init(setup), steps, setup) == Some(s)
    ensures Inv(s, setup)
  {
    hide Inv, Init;
    InitInv(setup);
    ExecuteKeepsInv(Init(setup), steps, setup);
  }

  // ---------- Results ----------

  /** Lockstep: in every interleaving of a serial exchange, no byte of line `k` (counted from zero)
      has been written unless `k` newlines were already captured from the child's output. */
  lemma Lockstep(setup: Setup, steps: seq<Step>, s: State, k: nat)
    requires setup.serial && Execute(Init(setup), steps, setup) == Some(s)
    requires k < |Parts(setup.stdin, true)| && |s.written| > |Flatten(Parts(setup.stdin, true)[..k])|
    ensures Newlines(s.out.captured) >= k
  {
    hide Parts, Newlines, Execute;
    ReachableInv(setup, steps, s);
  }

  /** No capture ever exceeds its bound, and a reader holds at most one byte beyond it. */
  lemma CapturesBounded(setup: Setup, steps: seq<Step>, s: State)
    requires Execute(Init(setup), steps, setup) == Some(s)
    ensures |s.out.captured| <= setup.limit && |s.err.captured| <= setup.limit
    ensures |s.out.captured| + |Held(s.out.reader)| <= setup.limit + 1 && |Held(s.out.reader)| <= 65_536
    ensures |s.err.captured| + |Held(s.err.reader)| <= setup.limit + 1 && |Held(s.err.reader)| <= 65_536
  {
    hide Parts, Newlines, Execute;
    ReachableInv(setup, steps, s);
  }

  /** A normal return means that the child exited and that both captures are all it ever wrote; in
      a serial exchange also that the whole input was written and answered line by line. */
  lemma ReturnIsComplete(setup: Setup, steps: seq<Step>, s: State)
    requires Execute(Init(setup), steps, setup) == Some(s) && Enabled(Return, s, setup)
    ensures var t := Apply(Return, s, setup);
      && t.exited && t.caller == Returned(t.out.produced, t.err.produced)
      && (setup.serial ==> t.written == setup.stdin && Newlines(t.out.produced) >= |Parts(setup.stdin, true)|)
  {
    hide Parts, Newlines, Execute;
    ReachableInv(setup, steps, s);
    StepKeepsCaller(Return, s, setup);
  }

  /** And the result cannot be overtaken: whatever the threads still do, it stays complete. */
  lemma ReturnedStaysComplete(setup: Setup, steps: seq<Step>, s: State)
    requires Execute(Init(setup), steps, setup) == Some(s) && s.caller.Returned?
    ensures s.exited && s.caller == Returned(s.out.produced, s.err.produced)
  {
    hide Parts, Newlines, Execute;
    ReachableInv(setup, steps, s);
  }

  // ---------- Input ----------

  /** The writer has nothing left to do and no failure: unless a pipe broke, it wrote everything. */
  ghost predicate InputInv(s: State, setup: Setup) {
    && s.written <= setup.stdin
    && ((s.writer.WriterLeaving? || s.writer.WriterGone?) && s.failures == 0 ==> s.written == setup.stdin)
  }

  lemma PartsAreInput(setup: Setup)
    ensures Flatten(Parts(setup.stdin, setup.serial)) == setup.stdin
  {
    if setup.serial {
      PartsAreLines(setup.stdin);
    } else {
      assert [setup.stdin][1..] == [];
    }
  }

  lemma UpToIsPrefix(parts: seq<seq<byte>>, index: nat, offset: nat)
    requires index < |parts| && offset <= |parts[index]|
    ensures Flatten(parts[..index]) + parts[index][..offset] <= Flatten(parts)
  {
    var rest := parts[index..];
    assert parts == parts[..index] + rest;
    FlattenConcat(parts[..index], rest);
    assert Flatten(rest) == parts[index] + Flatten(rest[1..]);
    assert parts[index][..offset] <= Flatten(rest);
    PrefixBehind(Flatten(parts[..index]), parts[index][..offset], Flatten(rest));
  }

  lemma PrefixBehind(a: seq<byte>, b: seq<byte>, c: seq<byte>)
    requires b <= c
    ensures a + b <= a + c
  {
  }

  lemma WriteKeepsInput(n: nat, s: State, setup: Setup)
    requires Enabled(WriteBytes(n), s, setup) && WriterInv(s, setup) && InputInv(s, setup)
    ensures InputInv(Apply(WriteBytes(n), s, setup), setup)
  {
    hide Parts, Newlines, Flatten;
    var parts := Parts(setup.stdin, setup.serial);
    var t := Apply(WriteBytes(n), s, setup);
    var i, o := s.writer.index, s.writer.offset;
    PartsAreInput(setup);
    WrittenMore(Flatten(parts[..i]), parts[i], o, n);
    assert t.written == Flatten(parts[..i]) + parts[i][..o + n];
    UpToIsPrefix(parts, i, o + n);
    if t.writer.WriterLeaving? {
      assert i + 1 == |parts| && o + n == |parts[i]|;
      LastPart(parts);
    }
  }

  lemma WrittenMore(before: seq<byte>, part: seq<byte>, offset: nat, n: nat)
    requires offset + n <= |part|
    ensures before + part[..offset] + part[offset..offset + n] == before + part[..offset + n]
  {
    assert part[..offset] + part[offset..offset + n] == part[..offset + n];
  }

  lemma LastPart(parts: seq<seq<byte>>)
    requires parts != []
    ensures var i := |parts| - 1; Flatten(parts[..i]) + parts[i][..|parts[i]|] == Flatten(parts)
  {
    var i := |parts| - 1;
    FlattenUpTo(parts, i);
    assert parts[..i + 1] == parts && parts[i][..|parts[i]|] == parts[i];
  }

  lemma StepKeepsInput(step: Step, s: State, setup: Setup)
    requires Enabled(step, s, setup) && !step.WriteBroken? && WriterInv(s, setup) && InputInv(s, setup)
    ensures InputInv(Apply(step, s, setup), setup)
  {
    hide Parts, Newlines;
    if step.WriteBytes? {
      WriteKeepsInput(step.n, s, setup);
    } else if step.SeeResponse? && Apply(step, s, setup).writer.WriterLeaving? {
      var parts := Parts(setup.stdin, setup.serial);
      PartsAreInput(setup);
      assert parts[..s.writer.index + 1] == parts;
    }
  }

  lemma {:induction false} ExecuteKeepsInput(s: State, steps: seq<Step>, setup: Setup)
    requires Inv(s, setup) && InputInv(s, setup) && Execute(s, steps, setup).Some? && WriteBroken !in steps
    ensures InputInv(Execute(s, steps, setup).value, setup)
    decreases |steps|
  {
    hide Parts, Newlines, WriterInv, LockstepInv, CallerInv, StreamInv, InputInv;
    if steps != [] {
      var next := Apply(steps[0], s, setup);
      StepKeepsInput(steps[0], s, setup);
      assert [steps[0]][1..] == [] && Execute(next, [], setup) == Some(next);
      assert Execute(s, [steps[0]], setup) == Some(next);
      ExecuteKeepsInv(s, [steps[0]], setup);
      ExecuteKeepsInput(next, steps[1..], setup);
    }
  }

  /** A normal return with a pipe that never broke has written the whole input, in either mode. */
  lemma WholeInputWritten(setup: Setup, steps: seq<Step>, s: State)
    requires Execute(Init(setup), steps, setup) == Some(s) && Enabled(Return, s, setup) && WriteBroken !in steps
    ensures s.written == setup.stdin
  {
    hide Execute, Newlines, Inv;
    InitInv(setup);
    InitInput(setup);
    ExecuteKeepsInput(Init(setup), steps, setup);
  }

  lemma InitInput(setup: Setup)
    ensures InputInv(Init(setup), setup)
  {
    hide Parts;
    PartsAreInput(setup);
    if Parts(setup.stdin, setup.serial) == [] { assert setup.stdin == []; }
  }

  // ---------- Termination ----------

  predicate ByChild(step: Step) { step.Produce? || step.CloseStream? || step.Exit? }

  /** Two for each unread byte, and what the reader has still to do. */
  function StreamRank(stream: Stream): nat {
    2 * |stream.unread| + match stream.reader
      case Gone => 0
      case Leaving => 1
      case Raised => 2
      case Reading => 3
      case Holding(_) => 4
  }

  function PartsRank(parts: seq<seq<byte>>): nat {
    if parts == [] then 0 else |parts[0]| + 3 + PartsRank(parts[1..])
  }

  function WriterRank(writer: WriterAt, parts: seq<seq<byte>>): nat {
    match writer
    case WriterGone => 0
    case WriterLeaving => 1
    case WriterRaised => 2
    case Waiting(index) => if index < |parts| then PartsRank(parts[index + 1..]) + 3 else 0
    case Writing(index, offset) =>
      if index < |parts| && offset <= |parts[index]| then PartsRank(parts[index + 1..]) + |parts[index]| - offset + 4
      else 0
  }

  /** How many more steps the three threads and the caller can take if the child does nothing. */
  function Rank(s: State, setup: Setup): nat {
    StreamRank(s.out) + StreamRank(s.err) + WriterRank(s.writer, Parts(setup.stdin, setup.serial))
    + if s.caller.Polling? then 1 else 0
  }

  function ProducedBy(step: Step): nat { if step.Produce? then |step.bytes| else 0 }

  lemma StreamStep(step: ReaderStep, stream: Stream, limit: nat)
    requires CanRead(step, stream, limit)
    ensures StreamRank(DoRead(step, stream, limit)) < StreamRank(stream)
  {
  }

  lemma NextRank(setup: Setup, index: nat)
    requires index < |Parts(setup.stdin, setup.serial)|
    ensures var parts := Parts(setup.stdin, setup.serial);
      WriterRank(Next(setup, index + 1), parts) < PartsRank(parts[index + 1..]) + 3
  {
    hide Parts;
    var parts := Parts(setup.stdin, setup.serial);
    if index + 1 < |parts| { assert parts[index + 1..][1..] == parts[index + 2..]; }
  }

  lemma WriterStep(step: Step, s: State, setup: Setup)
    requires Enabled(step, s, setup) && WriterInv(s, setup)
    requires Apply(step, s, setup).writer != s.writer || step.WriteBytes?
    ensures var parts := Parts(setup.stdin, setup.serial);
      WriterRank(Apply(step, s, setup).writer, parts) < WriterRank(s.writer, parts)
  {
    hide Parts, Newlines;
    if step.SeeResponse? || step.WriteBytes? { NextRank(setup, s.writer.index); }
  }

  lemma StepRank(step: Step, s: State, setup: Setup)
    requires Enabled(step, s, setup) && WriterInv(s, setup)
    ensures var counted := if ByChild(step) then 0 else 1;
      Rank(Apply(step, s, setup), setup) + counted <= Rank(s, setup) + 2 * ProducedBy(step)
  {
    hide Parts, Newlines, WriterRank, WriterInv, CanRead, DoRead;
    var t := Apply(step, s, setup);
    if step.ReaderStep? {
      StreamStep(step.step, Which(s, step.onOut), setup.limit);
    } else if !ByChild(step) && !step.Return? && !step.RaiseFailure? && !step.CallerTimesOut? {
      WriterMoves(step, s, setup);
      WriterStep(step, s, setup);
    }
  }

  lemma WriterMoves(step: Step, s: State, setup: Setup)
    requires Enabled(step, s, setup) && !ByChild(step) && !step.ReaderStep?
    requires !step.Return? && !step.RaiseFailure? && !step.CallerTimesOut?
    ensures Apply(step, s, setup).writer != s.writer || step.WriteBytes?
  {
    hide Parts, Newlines;
  }

  ghost function ThreadSteps(steps: seq<Step>): nat {
    if steps == [] then 0 else (if ByChild(steps[0]) then 0 else 1) + ThreadSteps(steps[1..])
  }

  ghost function AllProduced(steps: seq<Step>): nat {
    if steps == [] then 0 else ProducedBy(steps[0]) + AllProduced(steps[1..])
  }

  /** No thread runs forever: in every interleaving the steps of the threads and the caller are
      bounded by what was to do at first and twice what the child produces meanwhile. */
  lemma {:induction false} ThreadsBounded(s: State, steps: seq<Step>, setup: Setup)
    requires Inv(s, setup) && Execute(s, steps, setup).Some?
    ensures ThreadSteps(steps) + Rank(Execute(s, steps, setup).value, setup) <= Rank(s, setup) + 2 * AllProduced(steps)
    decreases |steps|
  {
    hide Parts, Newlines, Rank, WriterInv, LockstepInv, CallerInv, StreamInv;
    if steps != [] {
      var next := Apply(steps[0], s, setup);
      StepRank(steps[0], s, setup);
      assert [steps[0]][1..] == [] && Execute(next, [], setup) == Some(next);
      assert Execute(s, [steps[0]], setup) == Some(next);
      ExecuteKeepsInv(s, [steps[0]], setup);
      ThreadsBounded(next, steps[1..], setup);
    }
  }

  /** Steps that need nothing but the threads themselves: no time-out, no error that is not the
      pipe's, no write that the child accepts. */
  predicate Forced(step: Step) {
    match step
    case ReaderStep(_, step) => !step.ReadRaises?
    case WriteBroken | SeeResponse | SeeFailure | SeeEnded | WriterRecords | WriterEnds | Return | RaiseFailure => true
    case _ => false
  }

  lemma ReaderMoves(s: State, setup: Setup, isOut: bool)
    requires StreamInv(Which(s, isOut), s.failures, setup.limit) && !Which(s, isOut).reader.Gone?
    requires Which(s, isOut).closed
    ensures exists step :: Forced(step) && Enabled(step, s, setup)
  {
    hide Parts, Newlines;
    var stream := Which(s, isOut);
    var step := match stream.reader
      case Reading => Read(if stream.unread == [] then 0 else 1)
      case Holding(_) => Capture
      case Raised => RecordFailure
      case _ => MarkEnded;
    assert CanRead(step, stream, setup.limit);
    assert Enabled(ReaderStep(isOut, step), s, setup) && Forced(ReaderStep(isOut, step));
  }

  lemma WriterCanMove(s: State, setup: Setup)
    requires !s.writer.WriterGone? && s.out.reader.Gone?
    ensures exists step :: Forced(step) && Enabled(step, s, setup)
  {
    hide Parts, Newlines;
    var step := match s.writer
      case Writing(_, _) => WriteBroken
      case Waiting(index) =>
        if Newlines(s.out.captured) > index then SeeResponse else if s.failures > 0 then SeeFailure else SeeEnded
      case WriterRaised => WriterRecords
      case _ => WriterEnds;
    assert Enabled(step, s, setup) && Forced(step);
  }

  /** Once the child has exited no time-out is needed: as long as the caller polls, the threads or
      the caller can go on by themselves, so after boundedly many steps the caller has its result or
      a failure. */
  lemma ExitSuffices(setup: Setup, before: seq<Step>, s: State, after: seq<Step>, t: State)
    requires Execute(Init(setup), before, setup) == Some(s) && s.exited
    requires Execute(s, after, setup) == Some(t)
    ensures ThreadSteps(after) <= Rank(s, setup)
    ensures t.caller.Polling? ==> exists step :: Forced(step) && Enabled(step, t, setup)
  {
    hide Execute, Init, Parts, Newlines, Forced, Rank, LockstepInv, CallerInv, StreamInv, WriterInv;
    ReachableInv(setup, before, s);
    ThreadsBounded(s, after, setup);
    ExitedProducesNothing(s, after, setup);
    ExecuteKeepsInv(s, after, setup);
    if t.caller.Polling? {
      if !t.out.reader.Gone? {
        ReaderMoves(t, setup, true);
      } else if !t.err.reader.Gone? {
        ReaderMoves(t, setup, false);
      } else if !t.writer.WriterGone? {
        WriterCanMove(t, setup);
      } else {
        CallerCanMove(t, setup);
      }
    }
  }

  lemma CallerCanMove(s: State, setup: Setup)
    requires s.caller.Polling? && s.exited && s.out.reader.Gone? && s.err.reader.Gone? && s.writer.WriterGone?
    ensures exists step :: Forced(step) && Enabled(step, s, setup)
  {
    var step := if s.failures > 0 then RaiseFailure else Return;
    assert Enabled(step, s, setup) && Forced(step);
  }

  lemma {:induction false} ExitedProducesNothing(s: State, steps: seq<Step>, setup: Setup)
    requires s.exited && Execute(s, steps, setup).Some?
    ensures AllProduced(steps) == 0 && Execute(s, steps, setup).value.exited
    decreases |steps|
  {
    hide Parts, Newlines;
    if steps != [] { ExitedProducesNothing(Apply(steps[0], s, setup), steps[1..], setup); }
  }

  /** And whether or not it has, the deadline alone ends the wait of the caller and of the writer. */
  lemma DeadlineSuffices(s: State, setup: Setup)
    ensures s.caller.Polling? ==> Enabled(RaiseFailure, s, setup) || Enabled(CallerTimesOut, s, setup)
    ensures s.writer.Waiting? ==>
      exists step :: step in {SeeResponse, SeeFailure, SeeEnded, WaitTimesOut} && Enabled(step, s, setup)
  {
    hide Parts, Newlines;
    if s.writer.Waiting? {
      var step := if Newlines(s.out.captured) > s.writer.index then SeeResponse else if s.failures > 0 then SeeFailure
        else if s.out.reader.Gone? then SeeEnded else WaitTimesOut;
      assert Enabled(step, s, setup);
    }
  }

  // ---------- Why an exchange fails ----------

  ghost predicate TooMuch(stream: Stream, limit: nat) { |stream.produced| > limit }

  /** A stream over its bound, or an output that ended with fewer lines than the serial input. */
  ghost predicate ChildAtFault(s: State, setup: Setup) {
    || TooMuch(s.out, setup.limit) || TooMuch(s.err, setup.limit)
    || (setup.serial && s.out.closed && Newlines(s.out.produced) < |Parts(setup.stdin, true)|)
  }

  ghost predicate BlameInv(s: State, setup: Setup) {
    && (s.out.failed ==> TooMuch(s.out, setup.limit)) && (s.err.failed ==> TooMuch(s.err, setup.limit))
    && (s.failures > 0 || s.writer.WriterRaised? || s.caller.CallerRaised? ==> ChildAtFault(s, setup))
  }

  /** Steps that are no one's fault but the system's: an error of a pipe, or a time-out. In a serial
      exchange a broken pipe is one too; otherwise the child may close its input early. */
  predicate Mishap(step: Step, serial: bool) {
    match step
    case ReaderStep(_, ReadRaises) | WriteRaises | WaitTimesOut | CallerTimesOut => true
    case WriteBroken => serial
    case _ => false
  }

  lemma ReadKeepsBlame(step: ReaderStep, stream: Stream, failures: nat, limit: nat)
    requires CanRead(step, stream, limit) && StreamInv(stream, failures, limit) && !step.ReadRaises?
    requires stream.failed ==> TooMuch(stream, limit)
    ensures var t := DoRead(step, stream, limit);
      t.produced == stream.produced && t.closed == stream.closed && (t.failed ==> TooMuch(t, limit))
  {
  }

  lemma EndedEarly(s: State, setup: Setup)
    requires Enabled(SeeEnded, s, setup) && Inv(s, setup) && BlameInv(s, setup)
    ensures ChildAtFault(s, setup)
  {
    hide Parts, Newlines;
    assert s.out.captured + [] + [] == s.out.captured;
  }

  lemma StepKeepsBlame(step: Step, s: State, setup: Setup)
    requires Enabled(step, s, setup) && Inv(s, setup) && BlameInv(s, setup) && !Mishap(step, setup.serial)
    ensures BlameInv(Apply(step, s, setup), setup)
  {
    hide Parts, Newlines, WriterInv, LockstepInv, CallerInv, StreamInv, CanRead, DoRead;
    if step.ReaderStep? {
      var stream := Which(s, step.onOut);
      ReadKeepsBlame(step.step, stream, s.failures, setup.limit);
      RecordedFailed(step.step, stream, s.failures, setup.limit);
    } else if step.SeeEnded? {
      EndedEarly(s, setup);
    }
  }

  lemma RecordedFailed(step: ReaderStep, stream: Stream, failures: nat, limit: nat)
    requires CanRead(step, stream, limit) && StreamInv(stream, failures, limit)
    ensures step.RecordFailure? ==> stream.failed
  {
  }

  lemma {:induction false} ExecuteKeepsBlame(s: State, steps: seq<Step>, setup: Setup)
    requires Inv(s, setup) && BlameInv(s, setup) && Execute(s, steps, setup).Some?
    requires forall step :: step in steps ==> !Mishap(step, setup.serial)
    ensures BlameInv(Execute(s, steps, setup).value, setup)
    decreases |steps|
  {
    hide Parts, Newlines, Inv, BlameInv;
    if steps != [] {
      var next := Apply(steps[0], s, setup);
      StepKeepsBlame(steps[0], s, setup);
      assert [steps[0]][1..] == [] && Execute(next, [], setup) == Some(next);
      assert Execute(s, [steps[0]], setup) == Some(next);
      ExecuteKeepsInv(s, [steps[0]], setup);
      ExecuteKeepsBlame(next, steps[1..], setup);
    }
  }

  /** Unless a pipe or the clock fails it, an exchange fails only through the child: for a stream
      that exceeds the bound, or for output that ends before every line of a serial input has been
      answered. */
  lemma FailureIsTheChilds(setup: Setup, steps: seq<Step>, s: State)
    requires Execute(Init(setup), steps, setup) == Some(s) && s.caller.CallerRaised?
    requires forall step :: step in steps ==> !Mishap(step, setup.serial)
    ensures || |s.out.produced| > setup.limit || |s.err.produced| > setup.limit
            || (setup.serial && s.out.closed
                && multiset(s.out.produced)['\n' as int] < |Parts(setup.stdin, true)|)
  {
    hide Execute, Parts, Newlines, Inv;
    InitInv(setup);
    ExecuteKeepsBlame(Init(setup), steps, setup);
    NewlinesIs(s.out.produced);
  }

  // ---------- Every exchange within its bounds can succeed ----------

  ghost predicate Runs(s: State, t: State, setup: Setup) {
    exists steps :: Execute(s, steps, setup) == Some(t)
  }

  lemma {:induction false} ExecuteConcat(s: State, a: seq<Step>, b: seq<Step>, setup: Setup)
    requires Execute(s, a, setup).Some?
    ensures Execute(s, a + b, setup) == Execute(Execute(s, a, setup).value, b, setup)
    decreases |a|
  {
    hide Enabled, Apply;
    if a == [] {
      assert a + b == b;
    } else {
      assert (a + b)[1..] == a[1..] + b;
      ExecuteConcat(Apply(a[0], s, setup), a[1..], b, setup);
    }
  }

  lemma RunsOn(s: State, t: State, u: State, setup: Setup)
    requires Runs(s, t, setup) && Runs(t, u, setup)
    ensures Runs(s, u, setup)
  {
    hide Execute;
    var a :| Execute(s, a, setup) == Some(t);
    var b :| Execute(t, b, setup) == Some(u);
    ExecuteConcat(s, a, b, setup);
  }

  lemma RunsStep(s: State, step: Step, t: State, setup: Setup)
    requires Enabled(step, s, setup) && Apply(step, s, setup) == t
    ensures Runs(s, t, setup) && Runs(s, s, setup)
  {
    hide Enabled, Apply;
    assert Execute(s, [], setup) == Some(s) && [step][1..] == [] && Execute(t, [], setup) == Some(t);
    assert Execute(s, [step], setup) == Some(t);
  }

  lemma RunsSelf(s: State, setup: Setup)
    ensures Runs(s, s, setup)
  {
    assert Execute(s, [], setup) == Some(s);
  }

  ghost function Drained(stream: Stream): Stream {
    stream.(captured := stream.captured + stream.unread, unread := [])
  }

  lemma ReadAndCapture(s: State, setup: Setup, isOut: bool, n: nat)
    requires var stream := Which(s, isOut);
      stream.reader.Reading? && 0 < n <= |stream.unread| && n <= READ_SIZE && |stream.captured| + n <= setup.limit
    ensures var stream := Which(s, isOut);
      var next := stream.(captured := stream.captured + stream.unread[..n], unread := stream.unread[n..]);
      Runs(s, With(s, isOut, next), setup)
  {
    hide Parts, Newlines, Runs;
    var stream := Which(s, isOut);
    var held := With(s, isOut, stream.(reader := Holding(stream.unread[..n]), unread := stream.unread[n..]));
    var next := stream.(captured := stream.captured + stream.unread[..n], unread := stream.unread[n..]);
    RunsStep(s, ReaderStep(isOut, Read(n)), held, setup);
    RunsStep(held, ReaderStep(isOut, Capture), With(s, isOut, next), setup);
    RunsOn(s, held, With(s, isOut, next), setup);
  }

  /** A reader takes in all that is unread, as much at a time as it can. */
  lemma {:induction false} Drain(s: State, setup: Setup, isOut: bool)
    requires var stream := Which(s, isOut);
      stream.reader.Reading? && |stream.captured| + |stream.unread| <= setup.limit
    ensures Runs(s, With(s, isOut, Drained(Which(s, isOut))), setup)
    decreases |Which(s, isOut).unread|
  {
    hide Parts, Newlines, Runs;
    var stream := Which(s, isOut);
    if stream.unread == [] {
      assert stream.captured + stream.unread == stream.captured;
      RunsSelf(s, setup);
    } else {
      var n := if |stream.unread| < READ_SIZE then |stream.unread| else READ_SIZE;
      var head, tail := stream.unread[..n], stream.unread[n..];
      var next := With(s, isOut, stream.(captured := stream.captured + head, unread := tail));
      ReadAndCapture(s, setup, isOut, n);
      Drain(next, setup, isOut);
      assert stream.captured + head + tail == stream.captured + stream.unread;
      RunsOn(s, next, With(s, isOut, Drained(stream)), setup);
    }
  }

  /** The writer puts out the parts from `index` on, each in one write, all answered beforehand. */
  lemma {:induction false} WriteParts(s: State, setup: Setup, index: nat) returns (written: seq<byte>)
    requires s.writer == Next(setup, index) && index <= |Parts(setup.stdin, setup.serial)|
    requires setup.serial ==> Newlines(s.out.captured) >= |Parts(setup.stdin, true)|
    ensures Runs(s, s.(writer := WriterLeaving, written := written), setup)
    decreases |Parts(setup.stdin, setup.serial)| - index
  {
    hide Parts, Newlines, Runs;
    written := s.written;
    var parts := Parts(setup.stdin, setup.serial);
    RunsSelf(s, setup);
    if index < |parts| {
      var part := parts[index];
      var after := s.(written := s.written + part[0..|part|], writer := AfterPart(setup, index));
      RunsStep(s, WriteBytes(|part|), after, setup);
      var next := after.(writer := Next(setup, index + 1));
      if setup.serial {
        RunsStep(after, SeeResponse, next, setup);
        RunsOn(s, after, next, setup);
      }
      written := WriteParts(next, setup, index + 1);
      RunsOn(s, next, s.(writer := WriterLeaving, written := written), setup);
    }
  }

  /** A stream whose child's end is closed is marked ended by its reader. */
  lemma EndStream(s: State, setup: Setup, isOut: bool)
    requires var stream := Which(s, isOut); stream.reader.Reading? && stream.unread == [] && stream.closed
    ensures Runs(s, With(s, isOut, Which(s, isOut).(reader := Gone)), setup)
  {
    hide Parts, Newlines, Runs;
    var stream := Which(s, isOut);
    var left := With(s, isOut, stream.(reader := Leaving));
    var gone := With(s, isOut, stream.(reader := Gone));
    RunsStep(s, ReaderStep(isOut, Read(0)), left, setup);
    RunsStep(left, ReaderStep(isOut, MarkEnded), gone, setup);
    RunsOn(s, left, gone, setup);
  }

  /** The child puts out all of both streams, and the readers take them in. */
  lemma OutputTaken(setup: Setup, out: seq<byte>, err: seq<byte>)
    requires |out| <= setup.limit && |err| <= setup.limit
    ensures var s := Init(setup);
      var first := s.out.(produced := out, captured := out);
      Runs(s, s.(out := first, err := s.err.(produced := err, captured := err)), setup)
  {
    hide Parts, Newlines, Runs, Next;
    var s := Init(setup);
    assert [] + out == out && [] + err == err;
    var first := s.(out := s.out.(produced := out, unread := out));
    var taken := s.(out := s.out.(produced := out, captured := out));
    var second := taken.(err := s.err.(produced := err, unread := err));
    var both := taken.(err := s.err.(produced := err, captured := err));
    RunsStep(s, Produce(true, out), first, setup);
    Drain(first, setup, true);
    assert With(first, true, Drained(first.out)) == taken;
    RunsOn(s, first, taken, setup);
    RunsStep(taken, Produce(false, err), second, setup);
    RunsOn(s, taken, second, setup);
    Drain(second, setup, false);
    assert With(second, false, Drained(second.err)) == both;
    RunsOn(s, second, both, setup);
  }

  /** With the output taken in and the input written, the child exits and the caller returns. */
  lemma ExitReturns(s: State, setup: Setup) returns (t: State)
    requires s.writer.WriterLeaving? && s.failures == 0 && s.caller.Polling?
    requires s.out.reader.Reading? && s.out.unread == [] && s.err.reader.Reading? && s.err.unread == []
    ensures Runs(s, t, setup) && t.exited && t.caller == Returned(s.out.captured, s.err.captured)
  {
    hide Parts, Newlines, Runs;
    var exited := s.(exited := true, out := s.out.(closed := true), err := s.err.(closed := true));
    RunsStep(s, Exit, exited, setup);
    EndStream(exited, setup, true);
    var outGone := exited.(out := exited.out.(reader := Gone));
    RunsOn(s, exited, outGone, setup);
    EndStream(outGone, setup, false);
    var bothGone := outGone.(err := outGone.err.(reader := Gone));
    RunsOn(s, outGone, bothGone, setup);
    var allGone := bothGone.(writer := WriterGone);
    RunsStep(bothGone, WriterEnds, allGone, setup);
    RunsOn(s, bothGone, allGone, setup);
    t := allGone.(caller := Returned(s.out.captured, s.err.captured));
    RunsStep(allGone, Return, t, setup);
    RunsOn(s, allGone, t, setup);
  }

  /** For every input and every output within the bounds that answers each line of a serial input
      there is a run in which the caller gets that output. */
  lemma WithinBoundsCanReturn(setup: Setup, out: seq<byte>, err: seq<byte>) returns (t: State)
    requires |out| <= setup.limit && |err| <= setup.limit
    requires setup.serial ==> multiset(out)['\n' as int] >= |Parts(setup.stdin, true)|
    ensures (exists steps :: Execute(Init(setup), steps, setup) == Some(t)) && t.caller == Returned(out, err)
  {
    hide Parts, Newlines, Execute, Next;
    NewlinesIs(out);
    OutputTaken(setup, out, err);
    var s := Init(setup);
    var first := s.out.(produced := out, captured := out);
    var taken := s.(out := first, err := s.err.(produced := err, captured := err));
    var written := WriteParts(taken, setup, 0);
    var done := taken.(writer := WriterLeaving, written := written);
    RunsOn(s, taken, done, setup);
    t := ExitReturns(done, setup);
    RunsOn(s, done, t, setup);
  }
}
