/**
 The management channel: callers of ExecCommand hand commands to one loop over an unbuffered channel,
 the loop writes each to OpenVPN and, where a response is expected, waits for the next line the reader
 passes on and hands it to whichever caller is waiting. Nothing in a response names its command, so
 that every caller gets its own rests on the order of the steps. Time starts after the two commands
 `run` itself sends before its loop.
 */
module Management {
  import opened Wrappers

  // `id` tells the calls apart; it is not sent.
  datatype Command = Command(id: nat, text: string, expects: bool)

  // A line that answers command `to`, which nobody can see from it.
  datatype Reply = Reply(to: nat, text: string)

  datatype Line = Answer(reply: Reply) | Event

  // What a caller is given.
  datatype Response = Replied(reply: Reply) | WriteError(to: nat) | HungUp

  datatype Caller =
    | Sending(command: Command)
    | Waiting(command: Command)
    | Finished(command: Command, response: Option<Response>)

  datatype Loop =
    | Idle
    | Writing(command: Command)
    | Awaiting(command: Command)
    | Delivering(command: Command, response: Response)

  // `pending` are the commands OpenVPN has not got to, `wire` what it has written and nobody has read.
  datatype State = State(
    callers: map<nat, Caller>, loop: Loop, pending: seq<Command>, wire: seq<Line>, reader: Option<Reply>, closed: bool)

  const INITIAL := State(map[], Idle, [], [], None, false)

  datatype Step =
    | Call(command: Command)
    | Take(sender: nat)
    | Write
    | FailToWrite
    | Process(text: string)
    | Announce
    | Read
    | HangUp
    | Pass
    | Deliver(receiver: nat)

  // One step of one participant; None if it cannot take it now. `answers` says which commands OpenVPN answers.
  function Apply(answers: Command -> bool, s: State, step: Step): Option<State> {
    match step
    case Call(command) =>
      if command.id in s.callers then None
      else Some(s.(callers := s.callers[command.id := Sending(command)]))
    case Take(sender) =>
      if !s.loop.Idle? || sender !in s.callers || !s.callers[sender].Sending? then None
      else
        var command := s.callers[sender].command;
        var caller := if command.expects then Waiting(command) else Finished(command, None);
        Some(s.(callers := s.callers[sender := caller], loop := Writing(command)))
    case Write =>
      if !s.loop.Writing? then None
      else
        var command := s.loop.command;
        Some(s.(loop := if command.expects then Awaiting(command) else Idle, pending := s.pending + [command]))
    case FailToWrite =>
      if !s.loop.Writing? then None
      else
        var command := s.loop.command;
        Some(s.(loop := if command.expects then Delivering(command, WriteError(command.id)) else Idle))
    case Process(text) =>
      if s.closed || s.pending == [] then None
      else
        var command := s.pending[0];
        var written := if answers(command) then [Answer(Reply(command.id, text))] else [];
        Some(s.(pending := s.pending[1..], wire := s.wire + written))
    case Announce =>
      if s.closed then None else Some(s.(wire := s.wire + [Event]))
    case Read =>
      if s.wire == [] || s.reader.Some? then None
      else
        Some(s.(wire := s.wire[1..], reader := if s.wire[0].Answer? then Some(s.wire[0].reply) else None))
    case HangUp =>
      if s.wire != [] || s.reader.Some? then None else Some(s.(closed := true))
    case Pass =>
      if !s.loop.Awaiting? then None
      else if s.reader.Some? then Some(s.(loop := Delivering(s.loop.command, Replied(s.reader.value)), reader := None))
      else if s.closed then Some(s.(loop := Delivering(s.loop.command, HungUp)))
      else None
    case Deliver(receiver) =>
      if !s.loop.Delivering? || receiver !in s.callers || !s.callers[receiver].Waiting? then None
      else
        var caller := Finished(s.callers[receiver].command, Some(s.loop.response));
        Some(s.(callers := s.callers[receiver := caller], loop := Idle))
  }

  // The state after a run, if each step could be taken.
  function After(answers: Command -> bool, steps: seq<Step>): Option<State> {
    if steps == [] then Some(INITIAL)
    else
      var before := After(answers, steps[..|steps| - 1]);
      if before.None? then None else Apply(answers, before.value, steps[|steps| - 1])
  }

  predicate Own(response: Response, id: nat) {
    match response
    case Replied(reply) => reply.to == id
    case WriteError(to) => to == id
    case HungUp => true
  }

  // Every caller that has been given a response was given the one to its own command.
  ghost predicate Paired(s: State) {
    forall id | id in s.callers && s.callers[id].Finished? && s.callers[id].response.Some? ::
      Own(s.callers[id].response.value, id)
  }

  // The replies that are under way, oldest first, by the command they answer.
  function DueFrom(answers: Command -> bool, pending: seq<Command>): seq<nat> {
    if pending == [] then []
    else (if answers(pending[0]) then [pending[0].id] else []) + DueFrom(answers, pending[1..])
  }

  function DueOn(wire: seq<Line>): seq<nat> {
    if wire == [] then []
    else (if wire[0].Answer? then [wire[0].reply.to] else []) + DueOn(wire[1..])
  }

  function Due(answers: Command -> bool, s: State): seq<nat> {
    (if s.reader.Some? then [s.reader.value.to] else [])
    + DueOn(s.wire) + DueFrom(answers, s.pending)
  }

  // Callers wait exactly while the loop is busy with their command.
  ghost predicate Served(s: State) {
    && (forall id | id in s.callers :: s.callers[id].command.id == id)
    && (s.loop.Idle? || !s.loop.command.expects ==> forall id | id in s.callers :: !s.callers[id].Waiting?)
    && (!s.loop.Idle? && s.loop.command.expects ==> s.loop.command.id in s.callers)
    && (!s.loop.Idle? && s.loop.command.expects ==>
          forall id | id in s.callers :: s.callers[id].Waiting? <==> id == s.loop.command.id)
  }

  // At most one reply is under way, and then the loop waits for that one.
  ghost predicate OneDue(answers: Command -> bool, s: State) {
    && (s.loop.Awaiting? || s.loop.Delivering? ==> s.loop.command.expects)
    && (s.loop.Delivering? ==> Own(s.loop.response, s.loop.command.id))
    && (s.closed ==> s.reader.None? && s.wire == [])
    && (s.closed || Due(answers, s) == [] || (s.loop.Awaiting? && Due(answers, s) == [s.loop.command.id]))
  }

  ghost predicate Invariant(answers: Command -> bool, s: State) {
    Served(s) && OneDue(answers, s) && Paired(s)
  }

  lemma {:induction false} DueFromAppend(answers: Command -> bool, pending: seq<Command>, command: Command)
    ensures DueFrom(answers, pending + [command]) ==
      DueFrom(answers, pending) + if answers(command) then [command.id] else []
  {
    if pending == [] {
    } else {
      DueFromAppend(answers, pending[1..], command);
      assert (pending + [command])[1..] == pending[1..] + [command];
    }
  }

  lemma {:induction false} DueOnAppend(wire: seq<Line>, line: Line)
    ensures DueOn(wire + [line]) ==
      DueOn(wire) + if line.Answer? then [line.reply.to] else []
  {
    if wire == [] {
    } else {
      DueOnAppend(wire[1..], line);
      assert (wire + [line])[1..] == wire[1..] + [line];
    }
  }

  /** Moving a reply along, from OpenVPN to the wire to the reader, changes neither the replies due nor their order. */
  lemma DueMoves(answers: Command -> bool, s: State, step: Step)
    requires step.Process? || step.Announce? || step.Read?
    requires Apply(answers, s, step).Some?
    ensures Due(answers, Apply(answers, s, step).value) == Due(answers, s)
  {
    if step.Process? {
      if answers(s.pending[0]) {
        DueOnAppend(s.wire, Answer(Reply(s.pending[0].id, step.text)));
      } else {
        assert s.wire + [] == s.wire;
      }
    } else if step.Announce? {
      DueOnAppend(s.wire, Event);
    }
  }

  lemma StepKeepsServed(answers: Command -> bool, s: State, step: Step)
    requires Served(s) && OneDue(answers, s) && Apply(answers, s, step).Some?
    ensures Served(Apply(answers, s, step).value)
  {
  }

  lemma StepKeepsOneDue(answers: Command -> bool, s: State, step: Step)
    requires forall c :: answers(c) ==> c.expects
    requires Served(s) && OneDue(answers, s) && Apply(answers, s, step).Some?
    ensures OneDue(answers, Apply(answers, s, step).value)
  {
    if step.Process? || step.Announce? || step.Read? {
      DueMoves(answers, s, step);
    } else if step.Write? {
      DueFromAppend(answers, s.pending, s.loop.command);
    } else if step.Pass? && s.reader.Some? {
      assert Due(answers, s)[0] == s.reader.value.to;
      assert Due(answers, s)[1..] == DueOn(s.wire) + DueFrom(answers, s.pending);
    }
  }

  lemma StepKeepsPaired(answers: Command -> bool, s: State, step: Step)
    requires Invariant(answers, s) && Apply(answers, s, step).Some?
    ensures Paired(Apply(answers, s, step).value)
  {
  }

  lemma InitialHolds(answers: Command -> bool)
    ensures Invariant(answers, INITIAL)
  {
  }

  lemma {:induction false} RunKeepsInvariant(answers: Command -> bool, steps: seq<Step>)
    requires forall c :: answers(c) ==> c.expects
    requires After(answers, steps).Some?
    ensures Invariant(answers, After(answers, steps).value)
  {
    if steps != [] {
      hide Apply, Served, OneDue, Paired;
      var before := After(answers, steps[..|steps| - 1]).value;
      RunKeepsInvariant(answers, steps[..|steps| - 1]);
      StepKeepsServed(answers, before, steps[|steps| - 1]);
      StepKeepsOneDue(answers, before, steps[|steps| - 1]);
      StepKeepsPaired(answers, before, steps[|steps| - 1]);
    } else {
      InitialHolds(answers);
    }
  }

  /** Each caller gets the response to its own command in every interleaving, exactly when OpenVPN answers no
   command sent without a wish for a response. */
  lemma PairedIffOnlyExpectedAnswered(answers: Command -> bool)
    ensures (forall steps | After(answers, steps).Some? :: Paired(After(answers, steps).value))
      <==> forall c :: answers(c) ==> c.expects
  {
    hide Paired;
    if forall c :: answers(c) ==> c.expects {
      forall steps | After(answers, steps).Some?
        ensures Paired(After(answers, steps).value)
      {
        RunKeepsInvariant(answers, steps);
      }
    } else {
      var c :| answers(c) && !c.expects;
      var steps := StrayReply(answers, c);
    }
  }

  lemma AfterNext(answers: Command -> bool, steps: seq<Step>, step: Step)
    requires After(answers, steps).Some?
    ensures After(answers, steps + [step]) == Apply(answers, After(answers, steps).value, step)
  {
    assert (steps + [step])[..|steps|] == steps;
  }

  lemma Follow(answers: Command -> bool, steps: seq<Step>, s: State, step: Step, next: State)
    returns (longer: seq<Step>)
    requires After(answers, steps) == Some(s) && Apply(answers, s, step) == Some(next)
    ensures After(answers, longer) == Some(next)
  {
    AfterNext(answers, steps, step);
    longer := steps + [step];
  }

  // The reply to a command nobody waits for is taken for the reply to the next one.
  lemma StrayReply(answers: Command -> bool, c: Command) returns (steps: seq<Step>)
    requires answers(c) && !c.expects
    ensures After(answers, steps).Some? && !Paired(After(answers, steps).value)
  {
    hide After, Paired;
    var d := Command(c.id + 1, "", true);
    var reply := Reply(c.id, "");
    steps := NextWaits(answers, c, d);
    var waiting := map[c.id := Finished(c, None), d.id := Waiting(d)];
    var done := waiting[d.id := Finished(d, Some(Replied(reply)))];
    assert [Answer(reply)][1..] == [];
    var s := State(waiting, Awaiting(d), [d], [Answer(reply)], None, false);
    var next := s.(wire := [], reader := Some(reply));
    steps := Follow(answers, steps, s, Read, next);
    s, next := next, next.(loop := Delivering(d, Replied(reply)), reader := None);
    steps := Follow(answers, steps, s, Pass, next);
    s, next := next, next.(callers := done, loop := Idle);
    steps := Follow(answers, steps, s, Deliver(d.id), next);
    StrayNotPaired(next, d, reply);
  }

  lemma NextWaits(answers: Command -> bool, c: Command, d: Command) returns (steps: seq<Step>)
    requires answers(c) && !c.expects && d.expects && c.id != d.id
    ensures After(answers, steps) == Some(
      State(map[c.id := Finished(c, None), d.id := Waiting(d)], Awaiting(d), [d], [Answer(Reply(c.id, ""))], None,
            false))
  {
    hide After;
    steps := SilentAnswered(answers, c);
    var done := map[c.id := Finished(c, None)];
    assert done[d.id := Sending(d)][d.id := Waiting(d)] == map[c.id := Finished(c, None), d.id := Waiting(d)];
    assert [] + [d] == [d];
    var s := State(done, Idle, [], [Answer(Reply(c.id, ""))], None, false);
    var next := s.(callers := done[d.id := Sending(d)]);
    steps := Follow(answers, steps, s, Call(d), next);
    s, next := next, next.(callers := map[c.id := Finished(c, None), d.id := Waiting(d)], loop := Writing(d));
    steps := Follow(answers, steps, s, Take(d.id), next);
    s, next := next, next.(loop := Awaiting(d), pending := [d]);
    steps := Follow(answers, steps, s, Write, next);
  }

  lemma StrayNotPaired(s: State, d: Command, reply: Reply)
    requires d.id in s.callers && s.callers[d.id] == Finished(d, Some(Replied(reply))) && reply.to != d.id
    ensures !Paired(s)
  {
  }

  lemma SilentAnswered(answers: Command -> bool, c: Command) returns (steps: seq<Step>)
    requires answers(c) && !c.expects
    ensures After(answers, steps) ==
      Some(State(map[c.id := Finished(c, None)], Idle, [], [Answer(Reply(c.id, ""))], None, false))
  {
    hide After;
    NoSteps(answers);
    var answer := Answer(Reply(c.id, ""));
    assert map[c.id := Sending(c)][c.id := Finished(c, None)] == map[c.id := Finished(c, None)];
    assert [] + [c] == [c] && [c][1..] == [] && [] + [answer] == [answer];
    var s := INITIAL;
    var next := s.(callers := map[c.id := Sending(c)]);
    steps := Follow(answers, [], s, Call(c), next);
    s, next := next, next.(callers := map[c.id := Finished(c, None)], loop := Writing(c));
    steps := Follow(answers, steps, s, Take(c.id), next);
    s, next := next, next.(loop := Idle, pending := [c]);
    steps := Follow(answers, steps, s, Write, next);
    s, next := next, next.(pending := [], wire := [answer]);
    steps := Follow(answers, steps, s, Process(""), next);
  }

  lemma NoSteps(answers: Command -> bool)
    ensures After(answers, []) == Some(INITIAL)
  {
  }

  /** Whoever waits is waited on: a caller's command is the one the loop works on, so at most one caller waits. */
  lemma WaitingIsServed(answers: Command -> bool, steps: seq<Step>, id: nat)
    requires forall c :: answers(c) ==> c.expects
    requires After(answers, steps).Some? && id in After(answers, steps).value.callers
    requires After(answers, steps).value.callers[id].Waiting?
    ensures var s := After(answers, steps).value;
      !s.loop.Idle? && s.loop.command.id == id && s.loop.command.expects
  {
    RunKeepsInvariant(answers, steps);
  }

  /** And the reply to it is not lost: what is under way is nothing, or just the reply the loop waits for. */
  lemma NoStrayReply(answers: Command -> bool, steps: seq<Step>)
    requires forall c :: answers(c) ==> c.expects
    requires After(answers, steps).Some? && !After(answers, steps).value.closed
    ensures var s := After(answers, steps).value;
      Due(answers, s) != [] ==> s.loop.Awaiting? && Due(answers, s) == [s.loop.command.id]
  {
    RunKeepsInvariant(answers, steps);
  }

  // --- What OpenVPN said, and to whom it was passed on.

  // The k-th step of the run is OpenVPN's line for a command.
  ghost predicate SaidAt(answers: Command -> bool, steps: seq<Step>, k: nat, command: Command, text: string) {
    && k < |steps| && steps[k] == Process(text)
    && After(answers, steps[..k]).Some?
    && After(answers, steps[..k]).value.pending != [] && After(answers, steps[..k]).value.pending[0] == command
  }

  ghost predicate FailedAt(answers: Command -> bool, steps: seq<Step>, k: nat, command: Command) {
    && k < |steps| && steps[k].FailToWrite?
    && After(answers, steps[..k]).Some? && After(answers, steps[..k]).value.loop == Writing(command)
  }

  // A response with its origin in a step of the run.
  ghost predicate Founded(answers: Command -> bool, steps: seq<Step>, response: Response) {
    match response
    case Replied(reply) =>
      exists k, command :: SaidAt(answers, steps, k, command, reply.text) && command.id == reply.to
    case WriteError(to) => exists k, command :: FailedAt(answers, steps, k, command) && command.id == to
    case HungUp => exists k :: 0 <= k < |steps| && steps[k].HangUp?
  }

  lemma FoundedLater(answers: Command -> bool, steps: seq<Step>, step: Step, response: Response)
    requires Founded(answers, steps, response)
    ensures Founded(answers, steps + [step], response)
  {
    hide After;
    var more := steps + [step];
    assert forall k | 0 <= k < |steps| :: more[..k] == steps[..k] && more[k] == steps[k];
    match response
    case Replied(reply) =>
      var k, command :| SaidAt(answers, steps, k, command, reply.text) && command.id == reply.to;
      assert SaidAt(answers, more, k, command, reply.text);
    case WriteError(to) =>
      var k, command :| FailedAt(answers, steps, k, command) && command.id == to;
      assert FailedAt(answers, more, k, command);
    case HungUp =>
      var k :| 0 <= k < |steps| && steps[k].HangUp?;
      assert more[k].HangUp?;
  }

  // Every response a state holds or has under way is founded.
  ghost predicate AllFounded(answers: Command -> bool, steps: seq<Step>, s: State) {
    && (forall line | line in s.wire && line.Answer? :: Founded(answers, steps, Replied(line.reply)))
    && (s.reader.Some? ==> Founded(answers, steps, Replied(s.reader.value)))
    && (s.loop.Delivering? ==> Founded(answers, steps, s.loop.response))
    && (s.closed ==> Founded(answers, steps, HungUp))
    && forall id | id in s.callers && s.callers[id].Finished? && s.callers[id].response.Some? ::
         Founded(answers, steps, s.callers[id].response.value)
  }

  // What a step adds to these comes from the step itself.
  lemma StepFounds(answers: Command -> bool, steps: seq<Step>, step: Step)
    requires After(answers, steps).Some? && After(answers, steps + [step]).Some?
    requires AllFounded(answers, steps, After(answers, steps).value)
    ensures AllFounded(answers, steps + [step], After(answers, steps + [step]).value)
  {
    hide After, Founded;
    AfterNext(answers, steps, step);
    var s, more := After(answers, steps).value, steps + [step];
    forall response | Founded(answers, steps, response)
      ensures Founded(answers, more, response)
    {
      FoundedLater(answers, steps, step, response);
    }
    NowFounded(answers, steps, step);
  }

  lemma NowFounded(answers: Command -> bool, steps: seq<Step>, step: Step)
    requires After(answers, steps).Some?
    ensures var s, more := After(answers, steps).value, steps + [step];
      && (step.Process? && s.pending != [] ==> Founded(answers, more, Replied(Reply(s.pending[0].id, step.text))))
      && (step.FailToWrite? && s.loop.Writing? ==> Founded(answers, more, WriteError(s.loop.command.id)))
      && (step.HangUp? ==> Founded(answers, more, HungUp))
  {
    hide After;
    var s, more, k := After(answers, steps).value, steps + [step], |steps|;
    assert more[..k] == steps && more[k] == step;
    if step.Process? && s.pending != [] {
      assert SaidAt(answers, more, k, s.pending[0], step.text);
    }
    if step.FailToWrite? && s.loop.Writing? {
      assert FailedAt(answers, more, k, s.loop.command);
    }
  }

  lemma {:induction false} RunFounds(answers: Command -> bool, steps: seq<Step>)
    requires After(answers, steps).Some?
    ensures AllFounded(answers, steps, After(answers, steps).value)
  {
    hide Apply, AllFounded;
    if steps == [] {
      NothingFounded(answers);
    } else {
      var most, last := steps[..|steps| - 1], steps[|steps| - 1];
      assert steps == most + [last];
      RunFounds(answers, most);
      StepFounds(answers, most, last);
    }
  }

  lemma NothingFounded(answers: Command -> bool)
    ensures AllFounded(answers, [], INITIAL)
  {
  }

  // The command of a caller who has handed it to the loop.
  ghost predicate Sent(s: State, command: Command) {
    command.id in s.callers && s.callers[command.id].command == command && !s.callers[command.id].Sending?
  }

  // What OpenVPN has not got to has been sent, each command once.
  ghost predicate Queued(s: State) {
    && (forall id | id in s.callers :: s.callers[id].command.id == id)
    && (forall c | c in s.pending :: Sent(s, c))
    && (forall i, j | 0 <= i < j < |s.pending| :: s.pending[i] != s.pending[j])
    && (s.loop.Writing? ==> Sent(s, s.loop.command) && s.loop.command !in s.pending)
  }

  // A command that has been sent, and is past the queue.
  ghost predicate Past(s: State, command: Command) {
    Sent(s, command) && command !in s.pending && !(s.loop.Writing? && s.loop.command == command)
  }

  lemma StepKeepsQueued(answers: Command -> bool, s: State, step: Step)
    requires Queued(s) && Apply(answers, s, step).Some?
    ensures Queued(Apply(answers, s, step).value)
    ensures forall c | Past(s, c) :: Past(Apply(answers, s, step).value, c)
    ensures step.Process? ==> s.pending != [] && Past(Apply(answers, s, step).value, s.pending[0])
    ensures step.FailToWrite? ==> s.loop.Writing? && Past(Apply(answers, s, step).value, s.loop.command)
  {
    var t := Apply(answers, s, step).value;
    forall c | Sent(s, c)
      ensures Sent(t, c)
    {
    }
  }

  // Whatever was said or could not be written is past the queue.
  ghost predicate AllPast(answers: Command -> bool, steps: seq<Step>, s: State) {
    && (forall k, c, text | SaidAt(answers, steps, k, c, text) :: Past(s, c))
    && forall k, c | FailedAt(answers, steps, k, c) :: Past(s, c)
  }

  lemma SaidBefore(answers: Command -> bool, steps: seq<Step>, step: Step, k: nat, c: Command, text: string)
    ensures SaidAt(answers, steps + [step], k, c, text) && k < |steps| ==> SaidAt(answers, steps, k, c, text)
    ensures FailedAt(answers, steps + [step], k, c) && k < |steps| ==> FailedAt(answers, steps, k, c)
    ensures SaidAt(answers, steps + [step], |steps|, c, text) ==>
      step.Process? && After(answers, steps).Some? && After(answers, steps).value.pending != []
      && After(answers, steps).value.pending[0] == c
    ensures FailedAt(answers, steps + [step], |steps|, c) ==>
      step.FailToWrite? && After(answers, steps).Some? && After(answers, steps).value.loop == Writing(c)
  {
    hide After;
    var more := steps + [step];
    assert more[..|steps|] == steps && (k < |steps| ==> more[..k] == steps[..k]);
  }

  lemma {:induction false} RunQueued(answers: Command -> bool, steps: seq<Step>)
    requires After(answers, steps).Some?
    ensures Queued(After(answers, steps).value) && AllPast(answers, steps, After(answers, steps).value)
  {
    hide Apply, Queued, Past, SaidAt, FailedAt, After;
    if steps == [] {
      NothingQueued(answers);
    } else {
      var most, last := steps[..|steps| - 1], steps[|steps| - 1];
      assert steps == most + [last];
      AfterBefore(answers, most, last);
      RunQueued(answers, most);
      StepKeepsQueued(answers, After(answers, most).value, last);
      forall k: nat, c, text | SaidAt(answers, steps, k, c, text)
        ensures Past(After(answers, steps).value, c)
      {
        SaidWithin(answers, steps, k, c, text);
        SaidBefore(answers, most, last, k, c, text);
      }
      forall k: nat, c | FailedAt(answers, steps, k, c)
        ensures Past(After(answers, steps).value, c)
      {
        FailedWithin(answers, steps, k, c);
        SaidBefore(answers, most, last, k, c, "");
      }
    }
  }

  lemma AfterBefore(answers: Command -> bool, steps: seq<Step>, step: Step)
    requires After(answers, steps + [step]).Some?
    ensures After(answers, steps).Some?
    ensures After(answers, steps + [step]) == Apply(answers, After(answers, steps).value, step)
  {
    assert (steps + [step])[..|steps|] == steps;
  }

  lemma NothingQueued(answers: Command -> bool)
    ensures After(answers, []) == Some(INITIAL) && Queued(INITIAL) && AllPast(answers, [], INITIAL)
  {
  }

  lemma SaidWithin(answers: Command -> bool, steps: seq<Step>, k: nat, c: Command, text: string)
    requires SaidAt(answers, steps, k, c, text)
    ensures k < |steps|
  {
  }

  lemma FailedWithin(answers: Command -> bool, steps: seq<Step>, k: nat, c: Command)
    requires FailedAt(answers, steps, k, c)
    ensures k < |steps|
  {
  }

  lemma SaidApart(
    answers: Command -> bool, steps: seq<Step>, k: nat, c: Command, text: string, l: nat, d: Command, other: string)
    requires After(answers, steps).Some? && k < l
    requires SaidAt(answers, steps, k, c, text) && SaidAt(answers, steps, l, d, other)
    ensures c != d
  {
    hide After, Sent;
    RunPrefix(answers, steps, l);
    RunQueued(answers, steps[..l]);
    assert steps[..l][..k] == steps[..k];
    assert SaidAt(answers, steps[..l], k, c, text);
    assert Past(After(answers, steps[..l]).value, c);
  }

  /** OpenVPN has one line for a command and one command for a line, in every run. */
  lemma SaidOnce(
    answers: Command -> bool, steps: seq<Step>, k: nat, c: Command, text: string, l: nat, d: Command, other: string)
    requires After(answers, steps).Some?
    requires SaidAt(answers, steps, k, c, text) && SaidAt(answers, steps, l, d, other)
    ensures k == l <==> c == d
  {
    hide After;
    if k < l {
      SaidApart(answers, steps, k, c, text, l, d, other);
    } else if l < k {
      SaidApart(answers, steps, l, d, other, k, c, text);
    }
  }

  lemma {:induction false} RunPrefix(answers: Command -> bool, steps: seq<Step>, k: nat)
    requires After(answers, steps).Some? && k <= |steps|
    ensures After(answers, steps[..k]).Some?
    decreases |steps| - k
  {
    hide Apply;
    if k < |steps| {
      RunPrefix(answers, steps, k + 1);
      assert steps[..k + 1][..k] == steps[..k];
    } else {
      assert steps[..k] == steps;
    }
  }

  /**
   Where OpenVPN answers no command sent without a wish for a response, every caller is given, word for word,
   the line OpenVPN said for its command, or is told of a write that failed for its command, or of a hang-up,
   that did occur in the run.
   */
  lemma GivenWhatWasSaid(answers: Command -> bool, steps: seq<Step>, id: nat)
    requires forall c :: answers(c) ==> c.expects
    requires After(answers, steps).Some? && id in After(answers, steps).value.callers
    requires var caller := After(answers, steps).value.callers[id]; caller.Finished? && caller.response.Some?
    ensures var caller := After(answers, steps).value.callers[id];
      match caller.response.value
      case Replied(reply) => exists k :: SaidAt(answers, steps, k, caller.command, reply.text)
      case WriteError(_) => exists k :: FailedAt(answers, steps, k, caller.command)
      case HungUp => exists k :: 0 <= k < |steps| && steps[k].HangUp?
  {
    hide After, Apply, SaidAt, FailedAt, Served, OneDue;
    var s := After(answers, steps).value;
    RunKeepsInvariant(answers, steps);
    RunFounds(answers, steps);
    RunQueued(answers, steps);
    var response := s.callers[id].response.value;
    assert Founded(answers, steps, response) && Own(response, id);
    match response
    case Replied(reply) =>
      var k, command :| SaidAt(answers, steps, k, command, reply.text) && command.id == reply.to;
      assert Past(s, command);
    case WriteError(to) =>
      var k, command :| FailedAt(answers, steps, k, command) && command.id == to;
      assert Past(s, command);
    case HungUp =>
  }
}
