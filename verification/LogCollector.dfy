/**
 `collectContainerLogs`: a producer goroutine sends log lines on two channels while the
 caller selects on both, and the two communicate through captured channel variables and a
 one-slot `done` channel.  The model is a step relation over all interleavings, for every
 sequence of lines, every pair of channel capacities (the program uses 128 and 128; a
 capacity of zero is a rendezvous) and every result of `containers.Logs`.
 */
module LogCollector {
  import opened Prelude

  datatype Stream = Stdout | Stderr
  datatype Line = Line(stream: Stream, text: string)

  /** What `containers.Logs` will send, what it will return, and the channel capacities. */
  datatype Setup = Setup(script: seq<Line>, failure: Option<string>, outCap: nat, errCap: nat)

  /** One channel: its buffer, whether it is closed, whether the captured variable still
      holds it (false once the consumer stored nil), and the consumer's string builder. */
  datatype Pipe = Pipe(queue: seq<string>, closed: bool, captured: bool, builder: string)

  datatype Producer =
    | Starting                                                  // goroutine not yet scheduled
    | Sending(rest: seq<Line>, outArg: bool, errArg: bool)      // inside containers.Logs
    | Returned                                                  // about to send on done
    | ClosingOut                                                // about to close(stdoutCh)
    | ClosingErr                                                // about to close(stderrCh)
    | Exited
    | Panicked

  datatype Consumer =
    | Selecting
    | Awaiting                                                  // at <-done
    | Done(stdout: string, stderr: string, failure: Option<string>)

  datatype State = State(out: Pipe, err: Pipe, done: seq<Option<string>>, producer: Producer, consumer: Consumer)

  datatype Step =
    | Begin | Send | Handoff | LogsReturns | PostResult | CloseStdout | CloseStderr
    | Receive(stream: Stream) | ObserveClose(stream: Stream) | LeaveLoop | TakeResult

  function Init(): State {
    State(Pipe([], false, true, ""), Pipe([], false, true, ""), [], Starting, Selecting)
  }

  function Get(s: State, st: Stream): Pipe {
    if st.Stdout? then s.out else s.err
  }

  function Put(s: State, st: Stream, p: Pipe): State {
    if st.Stdout? then s.(out := p) else s.(err := p)
  }

  function Cap(c: Setup, st: Stream): nat {
    if st.Stdout? then c.outCap else c.errCap
  }

  /** The channel argument given to `containers.Logs` is not nil. */
  predicate ArgSet(p: Producer, st: Stream)
    requires p.Sending?
  {
    if st.Stdout? then p.outArg else p.errArg
  }

  /** A step that can be taken now; a blocked operation is a step that is not enabled. */
  predicate Enabled(c: Setup, s: State, step: Step) {
    match step
    case Begin => s.producer.Starting?
    case Send =>
      && s.producer.Sending? && s.producer.rest != []
      && var st := s.producer.rest[0].stream;
      ArgSet(s.producer, st) && (Get(s, st).closed || |Get(s, st).queue| < Cap(c, st))
    case Handoff =>
      && s.producer.Sending? && s.producer.rest != []
      && var st := s.producer.rest[0].stream;
      && ArgSet(s.producer, st) && !Get(s, st).closed
      && Get(s, st).queue == [] && s.consumer.Selecting? && Get(s, st).captured
    case LogsReturns => s.producer.Sending? && s.producer.rest == []
    case PostResult => s.producer.Returned? && |s.done| < 1
    case CloseStdout => s.producer.ClosingOut?
    case CloseStderr => s.producer.ClosingErr?
    case Receive(st) => s.consumer.Selecting? && Get(s, st).captured && Get(s, st).queue != []
    case ObserveClose(st) =>
      s.consumer.Selecting? && Get(s, st).captured && Get(s, st).queue == [] && Get(s, st).closed
    case LeaveLoop => s.consumer.Selecting? && !s.out.captured && !s.err.captured
    case TakeResult => s.consumer.Awaiting? && s.done != []
  }

  function Apply(c: Setup, s: State, step: Step): State
    requires Enabled(c, s, step)
  {
    match step
    case Begin => s.(producer := Sending(c.script, s.out.captured, s.err.captured))
    case Send =>
      var line := s.producer.rest[0];
      var p := Get(s, line.stream);
      if p.closed then s.(producer := Panicked)                 // send on a closed channel
      else Put(s, line.stream, p.(queue := p.queue + [line.text]))
           .(producer := s.producer.(rest := s.producer.rest[1..]))
    case Handoff =>
      var line := s.producer.rest[0];
      var p := Get(s, line.stream);
      Put(s, line.stream, p.(builder := p.builder + line.text))
      .(producer := s.producer.(rest := s.producer.rest[1..]))
    case LogsReturns => s.(producer := Returned)
    case PostResult => s.(done := s.done + [c.failure], producer := ClosingOut)
    case CloseStdout =>
      if !s.out.captured || s.out.closed then s.(producer := Panicked)   // nil or closed channel
      else s.(out := s.out.(closed := true), producer := ClosingErr)
    case CloseStderr =>
      if !s.err.captured || s.err.closed then s.(producer := Panicked)
      else s.(err := s.err.(closed := true), producer := Exited)
    case Receive(st) =>
      var p := Get(s, st);
      Put(s, st, p.(queue := p.queue[1..], builder := p.builder + p.queue[0]))
    case ObserveClose(st) => Put(s, st, Get(s, st).(captured := false))
    case LeaveLoop => s.(consumer := Awaiting)
    case TakeResult => s.(done := s.done[1..], consumer := Done(s.out.builder, s.err.builder, s.done[0]))
  }

  // ----- What the protocol is for -----

  function Concat(lines: seq<string>): string {
    if lines == [] then "" else lines[0] + Concat(lines[1..])
  }

  lemma {:induction false} ConcatAppend(a: seq<string>, x: string)
    ensures Concat(a + [x]) == Concat(a) + x
  {
    if a == [] {
      assert a + [x] == [x];
    } else {
      assert (a + [x])[1..] == a[1..] + [x];
      ConcatAppend(a[1..], x);
    }
  }

  /** The lines of one stream, in the order they were sent. */
  function Sent(script: seq<Line>, st: Stream): seq<string> {
    if script == [] then []
    else if script[0].stream == st then [script[0].text] + Sent(script[1..], st)
    else Sent(script[1..], st)
  }

  function Unsent(c: Setup, s: State): seq<Line> {
    match s.producer
    case Starting => c.script
    case Sending(rest, _, _) => rest
    case _ => []
  }

  /** Text of one stream: received, then buffered, then still to be sent. */
  function Total(builder: string, queue: seq<string>, tail: string): string {
    builder + (Concat(queue) + tail)
  }

  // ----- Invariant -----

  /** Received, buffered and unsent text of a stream always add up to what Logs sends. */
  ghost predicate Conserved(c: Setup, s: State, st: Stream) {
    Total(Get(s, st).builder, Get(s, st).queue, Concat(Sent(Unsent(c, s), st))) == Concat(Sent(c.script, st))
  }

  ghost predicate Inv(c: Setup, s: State) {
    && !s.producer.Panicked?
    && (s.producer.Sending? ==> s.producer.outArg && s.producer.errArg)
    && Conserved(c, s, Stdout) && Conserved(c, s, Stderr)
    && (s.out.closed <==> s.producer.ClosingErr? || s.producer.Exited?)
    && (s.err.closed <==> s.producer.Exited?)
    && (!s.out.captured ==> s.out.closed && s.out.queue == [])
    && (!s.err.captured ==> s.err.closed && s.err.queue == [])
    && s.done == (if (s.producer.ClosingOut? || s.producer.ClosingErr? || s.producer.Exited?) && !s.consumer.Done?
                  then [c.failure] else [])
    && (!s.consumer.Selecting? ==> !s.out.captured && !s.err.captured)
    && (s.consumer.Done? ==> s.consumer == Done(s.out.builder, s.err.builder, c.failure))
  }

  lemma InitInv(c: Setup)
    ensures Inv(c, Init())
  {
    assert forall x: string :: "" + ("" + x) == x;
  }

  /** Moving the head line of a stream from unsent to buffered or received. */
  lemma SentHead(lines: seq<Line>, st: Stream)
    requires lines != []
    ensures lines[0].stream == st ==> Concat(Sent(lines, st)) == lines[0].text + Concat(Sent(lines[1..], st))
    ensures lines[0].stream != st ==> Concat(Sent(lines, st)) == Concat(Sent(lines[1..], st))
  {
    if lines[0].stream == st {
      assert Sent(lines, st)[1..] == Sent(lines[1..], st);
    }
  }

  lemma Assoc(a: string, b: string, c: string)
    ensures a + (b + c) == (a + b) + c
  {
  }

  lemma BufferingKeepsTotal(builder: string, queue: seq<string>, x: string, tail: string)
    ensures Total(builder, queue + [x], tail) == Total(builder, queue, x + tail)
  {
    ConcatAppend(queue, x);
    Assoc(Concat(queue), x, tail);
  }

  lemma ReceivingKeepsTotal(builder: string, queue: seq<string>, tail: string)
    requires queue != []
    ensures Total(builder + queue[0], queue[1..], tail) == Total(builder, queue, tail)
  {
    Assoc(queue[0], Concat(queue[1..]), tail);
    Assoc(builder, queue[0], Concat(queue[1..]) + tail);
  }

  lemma SendConserves(c: Setup, s: State)
    requires Inv(c, s) && Enabled(c, s, Send)
    ensures Conserved(c, Apply(c, s, Send), Stdout) && Conserved(c, Apply(c, s, Send), Stderr)
  {
    var lines := s.producer.rest;
    SentHead(lines, Stdout);
    SentHead(lines, Stderr);
    var p := Get(s, lines[0].stream);
    BufferingKeepsTotal(p.builder, p.queue, lines[0].text, Concat(Sent(lines[1..], lines[0].stream)));
  }

  lemma HandoffConserves(c: Setup, s: State)
    requires Inv(c, s) && Enabled(c, s, Handoff)
    ensures Conserved(c, Apply(c, s, Handoff), Stdout) && Conserved(c, Apply(c, s, Handoff), Stderr)
  {
    var lines := s.producer.rest;
    SentHead(lines, Stdout);
    SentHead(lines, Stderr);
    var p := Get(s, lines[0].stream);
    var tail := Concat(Sent(lines[1..], lines[0].stream));
    BufferingKeepsTotal(p.builder, p.queue, lines[0].text, tail);
    ReceivingKeepsTotal(p.builder, p.queue + [lines[0].text], tail);
  }

  lemma ReceiveConserves(c: Setup, s: State, st: Stream)
    requires Inv(c, s) && Enabled(c, s, Receive(st))
    ensures Conserved(c, Apply(c, s, Receive(st)), Stdout)
    ensures Conserved(c, Apply(c, s, Receive(st)), Stderr)
  {
    var p := Get(s, st);
    ReceivingKeepsTotal(p.builder, p.queue, Concat(Sent(Unsent(c, s), st)));
  }

  lemma SendKeepsInv(c: Setup, s: State)
    requires Inv(c, s) && Enabled(c, s, Send)
    ensures Inv(c, Apply(c, s, Send))
  {
    SendConserves(c, s);
    hide Total, Concat, Sent, Conserved;
  }

  lemma HandoffKeepsInv(c: Setup, s: State)
    requires Inv(c, s) && Enabled(c, s, Handoff)
    ensures Inv(c, Apply(c, s, Handoff))
  {
    HandoffConserves(c, s);
    hide Total, Concat, Sent, Conserved;
  }

  lemma ReceiveKeepsInv(c: Setup, s: State, st: Stream)
    requires Inv(c, s) && Enabled(c, s, Receive(st))
    ensures Inv(c, Apply(c, s, Receive(st)))
  {
    ReceiveConserves(c, s, st);
    hide Total, Concat, Sent, Conserved;
  }

  /** Producer steps that move no line. */
  lemma ControlKeepsInv(c: Setup, s: State, step: Step)
    requires step in {Begin, LogsReturns, PostResult, CloseStdout, CloseStderr}
    requires Inv(c, s) && Enabled(c, s, step)
    ensures Inv(c, Apply(c, s, step))
  {
    hide Total, Concat;
  }

  /** Consumer steps that move no line. */
  lemma ConsumerKeepsInv(c: Setup, s: State, step: Step)
    requires step.ObserveClose? || step.LeaveLoop? || step.TakeResult?
    requires Inv(c, s) && Enabled(c, s, step)
    ensures Inv(c, Apply(c, s, step))
  {
    hide Total, Concat, Sent;
  }

  lemma StepKeepsInv(c: Setup, s: State, step: Step)
    requires Inv(c, s) && Enabled(c, s, step)
    ensures Inv(c, Apply(c, s, step))
  {
    match step
    case Send => SendKeepsInv(c, s);
    case Handoff => HandoffKeepsInv(c, s);
    case Receive(st) => ReceiveKeepsInv(c, s, st);
    case Begin => ControlKeepsInv(c, s, step);
    case LogsReturns => ControlKeepsInv(c, s, step);
    case PostResult => ControlKeepsInv(c, s, step);
    case CloseStdout => ControlKeepsInv(c, s, step);
    case CloseStderr => ControlKeepsInv(c, s, step);
    case ObserveClose(_) => ConsumerKeepsInv(c, s, step);
    case LeaveLoop => ConsumerKeepsInv(c, s, step);
    case TakeResult => ConsumerKeepsInv(c, s, step);
  }

  // ----- Progress and termination -----

  /** Unsent lines count twice, buffered lines once, then what is left to do elsewhere. */
  function Measure(c: Setup, s: State): nat {
    (match s.producer
     case Starting => 2 * |c.script| + 6
     case Sending(rest, _, _) => 2 * |rest| + 5
     case Returned => 4
     case ClosingOut => 3
     case ClosingErr => 2
     case Exited => 1
     case Panicked => 0)
    + |s.out.queue| + |s.err.queue|
    + (if s.out.captured then 1 else 0) + (if s.err.captured then 1 else 0)
    + (if s.consumer.Selecting? then 2 else if s.consumer.Awaiting? then 1 else 0)
  }

  lemma StepLowersMeasure(c: Setup, s: State, step: Step)
    requires Enabled(c, s, step)
    ensures Measure(c, Apply(c, s, step)) < Measure(c, s)
  {
  }

  /** A step that is enabled whenever the collector has not returned. */
  function AvailableStep(c: Setup, s: State): (step: Step)
    requires Inv(c, s) && !s.consumer.Done?
    ensures Enabled(c, s, step)
  {
    if s.consumer.Awaiting? then TakeResult
    else if !s.out.captured && !s.err.captured then LeaveLoop
    else if s.out.queue != [] then Receive(Stdout)
    else if s.err.queue != [] then Receive(Stderr)
    else match s.producer
      case Starting => Begin
      case Sending(rest, _, _) => if rest == [] then LogsReturns else Handoff
      case Returned => PostResult
      case ClosingOut => CloseStdout
      case ClosingErr => CloseStderr
      case Exited => if s.out.captured then ObserveClose(Stdout) else ObserveClose(Stderr)
  }

  // ----- Whole runs -----

  ghost predicate Run(c: Setup, from: State, steps: seq<Step>, to: State)
    decreases |steps|
  {
    if steps == [] then to == from
    else Enabled(c, from, steps[0]) && Run(c, Apply(c, from, steps[0]), steps[1..], to)
  }

  lemma {:induction false} RunKeepsInv(c: Setup, from: State, steps: seq<Step>, to: State)
    requires Inv(c, from) && Run(c, from, steps, to)
    ensures Inv(c, to)
    ensures |steps| + Measure(c, to) <= Measure(c, from)
    decreases |steps|
  {
    if steps != [] {
      StepKeepsInv(c, from, steps[0]);
      StepLowersMeasure(c, from, steps[0]);
      RunKeepsInv(c, Apply(c, from, steps[0]), steps[1..], to);
    }
  }

  ghost predicate Stuck(c: Setup, s: State) {
    forall step :: !Enabled(c, s, step)
  }

  /** The caller has every line of each stream in order, and the error Logs returned. */
  predicate Collected(c: Setup, s: State) {
    s.consumer == Done(Concat(Sent(c.script, Stdout)), Concat(Sent(c.script, Stderr)), c.failure)
  }

  /**
   Main theorem.  After any number of steps of any schedule: nothing has panicked (no close
   of a nil or closed channel, no send on a closed one); if the collector waits on `done`
   the value is there; if it returned, it lost and reordered nothing and the producer has
   left its goroutine body; the run is not stuck before that; and no run is longer than the
   initial measure.
   */
  lemma CollectorIsCorrect(c: Setup, steps: seq<Step>, s: State)
    requires Run(c, Init(), steps, s)
    ensures !s.producer.Panicked?
    ensures s.consumer.Awaiting? ==> Enabled(c, s, TakeResult)
    ensures s.consumer.Done? ==> Collected(c, s) && s.producer.Exited?
    ensures Stuck(c, s) <==> s.consumer.Done?
    ensures |steps| <= 2 * |c.script| + 10
  {
    InitInv(c);
    RunKeepsInv(c, Init(), steps, s);
    if s.consumer.Done? {
      assert s.out.builder + ("" + "") == s.out.builder && s.err.builder + ("" + "") == s.err.builder;
    } else {
      assert Enabled(c, s, AvailableStep(c, s));
    }
  }

  /** Every reachable state can be driven to completion, so the outcome above is reached. */
  lemma {:induction false} RunsFinish(c: Setup, s: State) returns (steps: seq<Step>, end: State)
    requires Inv(c, s)
    ensures Run(c, s, steps, end) && end.consumer.Done?
    decreases Measure(c, s)
  {
    if s.consumer.Done? {
      steps, end := [], s;
    } else {
      var step := AvailableStep(c, s);
      StepKeepsInv(c, s, step);
      StepLowersMeasure(c, s, step);
      var rest, last := RunsFinish(c, Apply(c, s, step));
      steps, end := [step] + rest, last;
      assert steps[1..] == rest;
    }
  }
}
