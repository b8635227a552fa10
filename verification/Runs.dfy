/** Runs of the device's loop: a log of what was done for each input, chained from one state of the
    device to the next, and what holds over every such log. */
module Runs {
  import opened MtpTypes
  import opened Wire
  import opened Packets
  import opened Strings
  import opened Tables
  import opened Database
  import opened Datasets
  import opened Requests
  import opened Intake
  import opened Sends
  import opened Turns
  import Edits

  /** What comes to the loop: a command, a failed read of one, or a change of the storages. */
  datatype Input =
    | CommandRead(bytes: CommandBytes, env: Env)
    | LinkError(cancelled: bool)
    | StorageAdded(s: Storage)
    | StorageRemoved(s: Storage)

  /** An input of the loop, the device before and after it, the step that was taken for it, if any,
      and how the loop went on. */
  datatype Taken = Taken(input: Input, d0: Device, d1: Device, step: Option<Step>, flow: Flow)

  /** The request lies in a buffer that starts with these bytes. */
  ghost predicate ArrivedAs(q: Request, bytes: CommandBytes) {
    exists b :: PARAMETERS_END <= |b| && bytes <= b && q == RequestIn(b)
  }

  /** A command whose data phase brings too little is dropped. */
  ghost predicate Unread(bytes: CommandBytes, env: Env) {
    |env.incoming| < HEADER_SIZE && exists q :: ArrivedAs(q, bytes) && DataIn(q.operation)
  }

  /** The list without the first occurrence of `s`. */
  function WithoutFirst(storages: seq<Storage>, s: Storage): seq<Storage> {
    if storages == [] then []
    else if storages[0] == s then storages[1..]
    else [storages[0]] + WithoutFirst(storages[1..], s)
  }

  /** Every input was taken as TakenRule says. (Folded: naming TakenRule unfolds it.) */
  ghost predicate TakenOk(t: Taken) {
    forall x {:trigger TakenRule(x)} :: x == t ==> TakenRule(x)
  }

  /** What an input does: to all of the device. Every command leads to a step of its own, unless its
      data phase could not be read. */
  ghost predicate TakenRule(t: Taken) {
    && Healthy(t.d0) && Healthy(t.d1)
    && match t.input
       case StorageAdded(s) =>
         t.step == None && t.flow == Continue && t.d1 == t.d0.(v := t.d0.v.(storages := t.d0.v.storages + [s]))
       case StorageRemoved(s) =>
         && t.step == None && t.flow == Continue
         && t.d1 == t.d0.(v := t.d0.v.(storages := WithoutFirst(t.d0.v.storages, s)))
       case LinkError(cancelled) => t.step == None && t.d1 == t.d0 && t.flow == if cancelled then Continue else Stop
       case CommandRead(bytes, env) =>
         match t.step
         case None =>
           && Unread(bytes, env) && t.d1 == t.d0
           && t.flow == After(if env.readEnding.Cancelled? then Cancelled else Failed)
         case Some(s) =>
           && s.e.env == env && ArrivedAs(s.e.q, bytes) && t.flow == FlowOf(s.e)
           && StepOk(s) && s.d0 == t.d0 && s.d1 == t.d1
  }

  /** What a turn of the loop did with a command, said of the bytes that arrived. */
  lemma CommandTaken(bytes: CommandBytes, env: Env, d0: Device, d1: Device, step: Option<Step>, flow: Flow,
                     b: seq<uint8>)
    requires PARAMETERS_END <= |b| && bytes <= b && Healthy(d0) && Healthy(d1)
    requires match step
             case None =>
               && DataIn(RequestIn(b).operation) && |env.incoming| < HEADER_SIZE && d1 == d0
               && flow == After(if env.readEnding.Cancelled? then Cancelled else Failed)
             case Some(s) =>
               && s.e.q == RequestIn(b) && s.e.env == env && flow == FlowOf(s.e)
               && StepOk(s) && s.d0 == d0 && s.d1 == d1
    ensures TakenOk(Taken(CommandRead(bytes, env), d0, d1, step, flow))
  {
    assert ArrivedAs(RequestIn(b), bytes);
    assert TakenRule(Taken(CommandRead(bytes, env), d0, d1, step, flow));
  }

  // ---- Logs ----

  /** The device before the `i`th input. */
  function At(log: seq<Taken>, start: Device, i: nat): Device
    requires i <= |log|
  {
    if i == 0 then start else log[i - 1].d1
  }

  /** The device in the end. */
  function End(log: seq<Taken>, start: Device): Device { At(log, start, |log|) }

  /** The log covers the inputs from the first on, up to the one with which the loop stopped. Each
      input finds the device exactly as the one before left it. */
  ghost predicate Logged(log: seq<Taken>, inputs: seq<Input>, start: Device) {
    |log| <= |inputs| && Healthy(start) && forall i :: 0 <= i < |log| ==> LoggedAt(log, inputs[i], start, i)
  }

  ghost predicate LoggedAt(log: seq<Taken>, input: Input, start: Device, i: nat)
    requires i < |log|
  {
    && log[i].input == input && TakenOk(log[i]) && log[i].d0 == At(log, start, i)
    && (i < |log| - 1 ==> log[i].flow == Continue)
  }

  /** How the loop goes on after the inputs of the log. */
  function FlowAfter(log: seq<Taken>): Flow { if log == [] then Continue else log[|log| - 1].flow }

  function WrittenBy(step: Option<Step>): seq<seq<uint8>> {
    match step
    case None => []
    case Some(s) => Written(s.e)
  }

  /** Everything that is written over a run. */
  function AllWritten(log: seq<Taken>): seq<seq<uint8>> {
    if log == [] then [] else AllWritten(log[..|log| - 1]) + WrittenBy(log[|log| - 1].step)
  }

  lemma LogMore(log: seq<Taken>, inputs: seq<Input>, start: Device, t: Taken)
    requires Logged(log, inputs, start) && |log| < |inputs| && t.input == inputs[|log|] && TakenOk(t)
    requires FlowAfter(log) == Continue && t.d0 == End(log, start)
    ensures Logged(log + [t], inputs, start) && End(log + [t], start) == t.d1 && FlowAfter(log + [t]) == t.flow
  {
    forall i | 0 <= i < |log + [t]|
      ensures LoggedAt(log + [t], inputs[i], start, i)
    {
      if i < |log| {
        assert LoggedAt(log, inputs[i], start, i);
        StillLogged(log, inputs[i], start, t, i);
      }
    }
  }

  lemma StillLogged(log: seq<Taken>, input: Input, start: Device, t: Taken, i: nat)
    requires i < |log| && LoggedAt(log, input, start, i) && FlowAfter(log) == Continue
    ensures LoggedAt(log + [t], input, start, i)
  {
    StillAt(log, start, t, i);
  }

  lemma WrittenMore(log: seq<Taken>, t: Taken)
    ensures AllWritten(log + [t]) == AllWritten(log) + WrittenBy(t.step)
  {
    assert (log + [t])[..|log|] == log;
  }

  lemma StillAt(log: seq<Taken>, start: Device, t: Taken, i: nat)
    requires i <= |log|
    ensures At(log + [t], start, i) == At(log, start, i)
  {
  }

  lemma LogLess(log: seq<Taken>, inputs: seq<Input>, start: Device, n: nat)
    requires Logged(log, inputs, start) && n <= |log|
    ensures Logged(log[..n], inputs, start) && End(log[..n], start) == At(log, start, n)
  {
    forall i | 0 <= i < n
      ensures LoggedAt(log[..n], inputs[i], start, i)
    {
      assert LoggedAt(log, inputs[i], start, i);
    }
  }

  /** How far a run has come. */
  datatype Progress = Progress(inputs: seq<Input>, start: Device, log: seq<Taken>, flow: Flow, now: Device,
                               out0: seq<seq<uint8>>, out: seq<seq<uint8>>)

  /** The log leads up to the present device, and what was written is what its steps wrote. */
  ghost predicate Going(g: Progress) {
    && Logged(g.log, g.inputs, g.start) && g.flow == FlowAfter(g.log) && g.now == End(g.log, g.start)
    && g.out == g.out0 + AllWritten(g.log)
  }

  /** The run is as Going says. (Folded: naming Going unfolds it.) */
  ghost predicate OnTrack(g: Progress) {
    forall x {:trigger Going(x)} :: x == g ==> Going(x)
  }

  lemma NothingYet(inputs: seq<Input>, start: Device, out: seq<seq<uint8>>)
    requires Healthy(start)
    ensures OnTrack(Progress(inputs, start, [], Continue, start, out, out))
  {
    assert Going(Progress(inputs, start, [], Continue, start, out, out));
  }

  lemma KeepsGoing(g: Progress, t: Taken)
    requires OnTrack(g) && g.flow.Continue? && |g.log| < |g.inputs| && t.input == g.inputs[|g.log|] && TakenOk(t)
    requires t.d0 == g.now
    ensures OnTrack(Progress(g.inputs, g.start, g.log + [t], t.flow, t.d1, g.out0, g.out + WrittenBy(t.step)))
  {
    assert Going(g);
    LogMore(g.log, g.inputs, g.start, t);
    WrittenMore(g.log, t);
    Assoc(g.out0, AllWritten(g.log), WrittenBy(t.step));
    assert Going(Progress(g.inputs, g.start, g.log + [t], t.flow, t.d1, g.out0, g.out + WrittenBy(t.step)));
  }

  lemma InTheEnd(g: Progress)
    requires OnTrack(g)
    ensures Logged(g.log, g.inputs, g.start) && g.flow == FlowAfter(g.log) && g.now == End(g.log, g.start)
    ensures g.out == g.out0 + AllWritten(g.log)
  {
    assert Going(g);
  }

  // ---- Responses ----

  /** The input led to no step, or the step was answered and its response is among `written`. */
  predicate AnsweredIn(t: Taken, written: seq<seq<uint8>>) {
    t.step.Some? ==> t.step.value.e.outcome.Respond? && Response(t.step.value.e) in written
  }

  /** How many requests were handled. */
  function Handled(log: seq<Taken>): nat {
    if log == [] then 0 else Handled(log[..|log| - 1]) + if log[|log| - 1].step.Some? then 1 else 0
  }

  ghost predicate AllAnswered(log: seq<Taken>, written: seq<seq<uint8>>) {
    && Handled(log) <= |written| <= 2 * Handled(log)
    && forall i :: 0 <= i < |log| ==> AnsweredIn(log[i], written)
  }

  /** Over every run: if nothing goes wrong with any request, each is answered by its own response,
      and what is written is these answers, one after the other. */
  lemma {:induction false} EachAnsweredOnce(log: seq<Taken>, inputs: seq<Input>, start: Device)
    requires Logged(log, inputs, start)
    requires forall i :: 0 <= i < |log| && log[i].step.Some? ==> Quiet(log[i].step.value.e)
    ensures AllAnswered(log, AllWritten(log))
  {
    if log != [] {
      var n := |log| - 1;
      LogLess(log, inputs, start, n);
      EachAnsweredOnce(log[..n], inputs, start);
      assert LoggedAt(log, inputs[n], start, n) && TakenRule(log[n]);
      if log[n].step.Some? {
        LastAnswered(log[n].step.value.e);
      }
      AnsweredMore(log, AllWritten(log[..n]), WrittenBy(log[n].step));
    }
  }

  lemma AnsweredMore(log: seq<Taken>, before: seq<seq<uint8>>, last: seq<seq<uint8>>)
    requires log != [] && AllAnswered(log[..|log| - 1], before) && AnsweredIn(log[|log| - 1], last)
    requires if log[|log| - 1].step.Some? then 1 <= |last| <= 2 else last == []
    ensures AllAnswered(log, before + last)
  {
    forall i | 0 <= i < |log|
      ensures AnsweredIn(log[i], before + last)
    {
      assert i < |log| - 1 ==> AnsweredIn(log[..|log| - 1][i], before);
    }
  }

  lemma LastAnswered(e: Entry)
    requires Protocol(e) && Quiet(e)
    ensures 1 <= |Written(e)| <= 2 && e.outcome.Respond? && Response(e) in Written(e)
  {
    OneResponse(e);
    assert Written(e)[|Written(e)| - 1] in Written(e);
  }

  // ---- What one input does ----

  predicate Did(t: Taken, operation: uint16) { t.step.Some? && t.step.value.e.q.operation == operation }

  /** The request was answered with OK. */
  predicate Succeeded(t: Taken, operation: uint16) {
    Did(t, operation) && t.step.value.e.outcome == Respond(RESPONSE_OK)
  }

  /** The rule of a step's operation. */
  lemma StepMoves(t: Taken)
    requires TakenOk(t) && t.step.Some?
    ensures t.step.value.d0 == t.d0 && t.step.value.d1 == t.d1 && StepOk(t.step.value)
    ensures var e := t.step.value.e; e.v == t.d0.v && MoveRule(Turn(GivenUp(t.d0, e.q), e.q, e.env, e.outcome, t.d1))
  {
    assert TakenRule(t);
    var e := t.step.value.e;
    assert MoveRule(Turn(GivenUp(t.d0, e.q), e.q, e.env, e.outcome, t.d1));
  }

  /** The response to a state-changing request is the one its rule demands. */
  lemma StepReplies(t: Taken)
    requires TakenOk(t) && t.step.Some? && Changes(t.step.value.e.q.operation)
    ensures var e := t.step.value.e;
            && !e.outcome.Threw? && ReplyRule(Said(t.d0.v, e.q, e.env, CodeOf(e.outcome), e.params))
            && e.outcome == OutcomeOf(CodeOf(e.outcome))
  {
    StepMoves(t);
    var e := t.step.value.e;
    assert Lawful(e);
    ChangesAreNeither(e.q.operation);
    assert ReplyRule(Said(e.v, e.q, e.env, CodeOf(e.outcome), e.params));
  }

  lemma ChangesAreNeither(operation: uint16)
    requires Changes(operation)
    ensures !IsQuery(operation) && !Fetches(operation)
  {
  }

  /** An announcement leaves session, edits, books, histories and moves alone. */
  lemma InfoKeeps(d: Device, q: Request, env: Env, o: Outcome, d1: Device)
    requires Considered(d, q, env, o, d1)
    ensures d1 == d.(v := d.v.(db := d1.v.db, counter := d1.v.counter), announced := d1.announced,
                     pending := d1.pending, issued := d1.issued)
  {
    var g :| WentBy(d, q, env, o, d1, g);
    assert WentBy(d, q, env, o, d1, g);
    InfoTurnKeeps(d, q, env, g.d.size, g.d.format, Text(g.name));
  }

  lemma InfoTurnKeeps(d: Device, q: Request, env: Env, size: uint32, format: uint16, name: Name)
    ensures var d1 := InfoTurn(d, q, env, size, format, name).1;
            d1 == d.(v := d.v.(db := d1.v.db, counter := d1.v.counter), announced := d1.announced,
                     pending := d1.pending, issued := d1.issued)
  {
  }

  /** The other operations leave announcements, the counter and the storages alone. */
  lemma OtherKeeps(d: Device, q: Request, env: Env)
    ensures var d1 := AfterOther(d, q, env);
            && d1.announced == d.announced && d1.pending == d.pending && d1.issued == d.issued
            && d1.v.counter == d.v.counter && d1.v.storages == d.v.storages
  {
  }

  lemma OtherTable(d: Device, q: Request, env: Env)
    ensures AfterOther(d, q, env).v.db.Keys <= d.v.db.Keys
  {
  }

  lemma OtherMoved(d: Device, q: Request, env: Env)
    ensures AfterOther(d, q, env).moved == (d.moved || (q.operation == MOVE_OBJECT && MoveCode(d.v, q) == RESPONSE_OK))
  {
  }

  lemma OtherSession(d: Device, q: Request, env: Env)
    ensures var v1 := AfterOther(d, q, env).v;
            if q.operation == OPEN_SESSION then
              v1.sessionOpen && v1.sessionID == if d.v.sessionOpen then d.v.sessionID else q.p1
            else if q.operation == CLOSE_SESSION then
              !v1.sessionOpen && v1.sessionID == if d.v.sessionOpen then 0 else d.v.sessionID
            else v1.sessionOpen == d.v.sessionOpen && v1.sessionID == d.v.sessionID
  {
  }

  lemma OtherBooks(d: Device, q: Request, env: Env)
    ensures AfterOther(d, q, env).books ==
            if q.operation == BEGIN_EDIT_OBJECT && BeginEditCode(d.v, q, env) == RESPONSE_OK then
              Edits.BeginOne(d.books, NewEdit(d.v, q, env))
            else if q.operation == END_EDIT_OBJECT && Edits.Find(d.v.edits, q.p1).Some? then
              Edits.CommitOne(d.books, d.v.edits[Edits.Find(d.v.edits, q.p1).value])
            else d.books
  {
  }

  /** The operations whose effect the request alone decides. */
  predicate IsOther(operation: uint16) {
    operation != SEND_OBJECT_INFO && operation != SEND_OBJECT && operation != SET_OBJECT_PROP_VALUE
  }

  lemma OtherStep(t: Taken)
    requires TakenOk(t) && t.step.Some? && IsOther(t.step.value.e.q.operation)
    ensures var e := t.step.value.e; t.d1 == AfterOther(GivenUp(t.d0, e.q), e.q, e.env)
  {
    StepMoves(t);
  }

  lemma SendStepMoves(t: Taken)
    requires TakenOk(t) && Did(t, SEND_OBJECT)
    ensures t.d1 == AfterSend(t.d0, t.step.value.e.env)
    ensures t.step.value.e.outcome == OutcomeOf(SendCode(t.d0.v, t.d0.pending, t.step.value.e.env))
  {
    StepMoves(t);
  }

  /** How an input that led to no step leaves the device. */
  lemma NoStep(t: Taken)
    requires TakenOk(t) && t.step == None
    ensures t.d1 == t.d0.(v := t.d0.v.(storages := t.d1.v.storages))
  {
    assert TakenRule(t);
  }

  lemma InfoStep(t: Taken)
    requires TakenOk(t) && Did(t, SEND_OBJECT_INFO)
    ensures var e := t.step.value.e; Considered(GivenUp(t.d0, e.q), e.q, e.env, e.outcome, t.d1)
  {
    StepMoves(t);
  }

  lemma RenameStep(t: Taken)
    requires TakenOk(t) && Did(t, SET_OBJECT_PROP_VALUE)
    ensures var e := t.step.value.e; Renames(GivenUp(t.d0, e.q), e.q, e.env, t.d1)
  {
    StepMoves(t);
  }

  lemma RenameKeeps(d: Device, q: Request, env: Env, d1: Device)
    requires Renames(d, q, env, d1)
    ensures d1 == d.(v := d.v.(db := d1.v.db)) && d1.v.db.Keys == d.v.db.Keys
  {
    var r :| d1 == AfterRename(d, q, env, r);
    assert d1 == AfterRename(d, q, env, r) && d1.v.db == Renamed(d.v, q, env, r);
  }

  // ---- The session ----

  /** The session is opened and closed by these operations alone. */
  lemma SessionStep(t: Taken)
    requires TakenOk(t)
    ensures t.d1.v.sessionOpen == if Did(t, OPEN_SESSION) then true else !Did(t, CLOSE_SESSION) && t.d0.v.sessionOpen
    ensures t.d1.v.sessionID ==
            if Succeeded(t, OPEN_SESSION) then t.step.value.e.q.p1
            else if Succeeded(t, CLOSE_SESSION) then 0 else t.d0.v.sessionID
    ensures Succeeded(t, OPEN_SESSION) <==> Did(t, OPEN_SESSION) && !t.d0.v.sessionOpen
  {
    if t.step == None {
      NoStep(t);
    } else {
      var e := t.step.value.e;
      var d := GivenUp(t.d0, e.q);
      if e.q.operation == SEND_OBJECT_INFO {
        InfoStep(t);
        InfoKeeps(d, e.q, e.env, e.outcome, t.d1);
      } else if e.q.operation == SET_OBJECT_PROP_VALUE {
        RenameStep(t);
        RenameKeeps(d, e.q, e.env, t.d1);
      } else if e.q.operation == SEND_OBJECT {
        SendStepMoves(t);
      } else {
        OtherStep(t);
        OtherSession(d, e.q, e.env);
        SessionReplies(t);
      }
    }
  }

  lemma SessionReplies(t: Taken)
    requires TakenOk(t)
    ensures Did(t, OPEN_SESSION) ==> (Succeeded(t, OPEN_SESSION) <==> !t.d0.v.sessionOpen)
    ensures Did(t, CLOSE_SESSION) ==> (Succeeded(t, CLOSE_SESSION) <==> t.d0.v.sessionOpen)
  {
    if Did(t, OPEN_SESSION) || Did(t, CLOSE_SESSION) {
      StepReplies(t);
    }
  }

  /** Whether the last session operation of the log opens the session. */
  predicate LeftOpen(log: seq<Taken>, was: bool) {
    if log == [] then was
    else if Did(log[|log| - 1], OPEN_SESSION) then true
    else if Did(log[|log| - 1], CLOSE_SESSION) then false
    else LeftOpen(log[..|log| - 1], was)
  }

  /** Over every run the session is open exactly as the last session operation left it. */
  lemma {:induction false} SessionAsLeft(log: seq<Taken>, inputs: seq<Input>, start: Device)
    requires Logged(log, inputs, start)
    ensures End(log, start).v.sessionOpen == LeftOpen(log, start.v.sessionOpen)
  {
    if log != [] {
      var n := |log| - 1;
      LogLess(log, inputs, start, n);
      assert LoggedAt(log, inputs[n], start, n);
      SessionAsLeft(log[..n], inputs, start);
      SessionStep(log[n]);
    }
  }

  /** A session that was opened during the run was opened by an OpenSession that was answered OK,
      carries its identifier, and was not closed since. */
  lemma {:induction false} SessionOpenedBy(log: seq<Taken>, inputs: seq<Input>, start: Device) returns (j: nat)
    requires Logged(log, inputs, start) && End(log, start).v.sessionOpen && !start.v.sessionOpen
    ensures j < |log| && Succeeded(log[j], OPEN_SESSION)
    ensures log[j].step.value.e.q.p1 == End(log, start).v.sessionID
    ensures forall i :: j < i < |log| ==> !Did(log[i], CLOSE_SESSION)
  {
    var n := |log| - 1;
    LogLess(log, inputs, start, n);
    assert LoggedAt(log, inputs[n], start, n);
    SessionStep(log[n]);
    if Succeeded(log[n], OPEN_SESSION) {
      j := n;
    } else {
      j := SessionOpenedBy(log[..n], inputs, start);
    }
  }

  // ---- Announcements ----

  /** A send that is refused because there is no storage leaves the announcement standing. */
  predicate Deferred(t: Taken) { Did(t, SEND_OBJECT) && t.d0.v.storages == [] }

  /** An announcement is pending after an input exactly if it was made by it, or stood before it and
      the input brought no request or a deferred one. */
  lemma PendingStep(t: Taken)
    requires TakenOk(t) && t.d1.pending.Some?
    ensures if t.step == None || Deferred(t) then t.d1.pending == t.d0.pending && t.d1.announced == t.d0.announced
            else
              && Succeeded(t, SEND_OBJECT_INFO) && t.d1.announced == t.d0.v.counter
              && t.d1.pending.value.before == t.d0.v.db
              && t.step.value.e.params == InfoParams(t.d0.v, t.step.value.e.q)
  {
    if t.step == None {
      NoStep(t);
    } else {
      var e := t.step.value.e;
      if e.q.operation == SEND_OBJECT_INFO {
        InfoStep(t);
        StepReplies(t);
        InfoPending(GivenUp(t.d0, e.q), e.q, e.env, e.outcome, t.d1);
      } else if e.q.operation == SET_OBJECT_PROP_VALUE {
        RenameStep(t);
        RenameKeeps(GivenUp(t.d0, e.q), e.q, e.env, t.d1);
      } else if e.q.operation == SEND_OBJECT {
        SendStepMoves(t);
      } else {
        OtherStep(t);
        OtherKeeps(GivenUp(t.d0, e.q), e.q, e.env);
      }
    }
  }

  lemma InfoPending(d: Device, q: Request, env: Env, o: Outcome, d1: Device)
    requires Considered(d, q, env, o, d1) && d.pending == None && d1.pending.Some?
    ensures o == Respond(RESPONSE_OK) && d1.announced == d.v.counter && d1.pending.value.before == d.v.db
  {
    var g :| WentBy(d, q, env, o, d1, g);
    assert WentBy(d, q, env, o, d1, g);
  }

  /** Over every run that starts without an announcement: while one is pending, it was made by an
      accepted SendObjectInfo, under the handle that was answered, and every request since then was
      a SendObject that found no storage. */
  lemma {:induction false} PendingSince(log: seq<Taken>, inputs: seq<Input>, start: Device) returns (j: nat)
    requires Logged(log, inputs, start) && start.pending == None && End(log, start).pending.Some?
    ensures j < |log| && Succeeded(log[j], SEND_OBJECT_INFO)
    ensures log[j].step.value.e.params == InfoParams(log[j].d0.v, log[j].step.value.e.q)
    ensures var d := End(log, start);
            && d.pending == log[j].d1.pending && d.announced == log[j].d0.v.counter
            && d.pending.value.before == log[j].d0.v.db
    ensures forall i :: j < i < |log| && log[i].step.Some? ==> Deferred(log[i])
  {
    var n := |log| - 1;
    LogLess(log, inputs, start, n);
    assert LoggedAt(log, inputs[n], start, n);
    PendingStep(log[n]);
    if log[n].step == None || Deferred(log[n]) {
      j := PendingSince(log[..n], inputs, start);
    } else {
      j := n;
    }
  }

  /** Over every run that starts without an announcement, a SendObject that ends one ends the
      announcement that an accepted SendObjectInfo made. If it succeeds, the object stays, under the
      handle that was answered then, as the only change since; otherwise the table is as it was
      before the announcement. */
  lemma SendEnds(log: seq<Taken>, inputs: seq<Input>, start: Device, k: nat) returns (j: nat)
    requires Logged(log, inputs, start) && start.pending == None && k < |log| && log[k].d0.issued < PARENT_ROOT
    requires Did(log[k], SEND_OBJECT) && log[k].d0.v.storages != [] && log[k].d0.pending.Some?
    ensures j < k && Succeeded(log[j], SEND_OBJECT_INFO)
    ensures forall i :: j < i < k && log[i].step.Some? ==> Deferred(log[i])
    ensures var e := log[j].step.value.e;
            && e.params == InfoParams(log[j].d0.v, e.q)
            && log[k].d1.v.db == Ended(log[k].d0.v.db, log[j].d1.pending, e.params[2],
                                       CodeOf(log[k].step.value.e.outcome), log[k].step.value.e.env.fileSize)
            && log[j].d1.pending.Some? && log[j].d1.pending.value.before == log[j].d0.v.db
    ensures log[k].d1.pending == None
  {
    LogLess(log, inputs, start, k);
    assert LoggedAt(log, inputs[k], start, k);
    j := PendingSince(log[..k], inputs, start);
    SendStep(log[k]);
  }

  lemma SendStep(t: Taken)
    requires TakenOk(t) && Did(t, SEND_OBJECT)
    requires t.d0.v.storages != [] && t.d0.pending.Some? && t.d0.issued < PARENT_ROOT
    ensures t.d1.pending == None
    ensures var e := t.step.value.e;
            t.d1.v.db == Ended(t.d0.v.db, t.d0.pending, t.d0.announced, CodeOf(e.outcome), e.env.fileSize)
  {
    SendStepMoves(t);
    assert TakenRule(t) && Sane(t.d0);
    var p := t.d0.pending.value;
    var env := t.step.value.e.env;
    FinishedIsEnded(t.d0.v.db, p, t.d0.announced, SendCode(t.d0.v, t.d0.pending, env), env.fileSize);
  }

  /** A SendObject succeeds only for a pending announcement. */
  lemma SentWasAnnounced(t: Taken)
    requires TakenOk(t) && Succeeded(t, SEND_OBJECT)
    ensures t.d0.v.storages != [] && t.d0.pending.Some?
  {
    SendStepMoves(t);
  }

  // ---- Edited objects ----

  /** Over every run: an object that is open for editing is described with the size that its history
      leads to, as far as 32 bits can say it, and that is the ideal size if all of it was regular. */
  lemma EditedSizeOverRun(log: seq<Taken>, inputs: seq<Input>, start: Device, i: nat, h: uint32)
    requires Logged(log, inputs, start) && i <= |log|
    requires var v := At(log, start, i).v; h in v.db && Edits.Find(v.edits, h).Some?
    ensures var d := At(log, start, i);
            && h in d.work
            && ServedInfo(d.v, h).size == Min(Edits.SizeAfter(d.work[h].start, d.work[h].ops), 0xFFFF_FFFF)
            && (Edits.AllRegular(d.work[h].start, d.work[h].ops) ==>
                ServedInfo(d.v, h).size == Min(Edits.IdealAfter(d.work[h].start, d.work[h].ops), 0xFFFF_FFFF))
  {
    var d := At(log, start, i);
    if i > 0 {
      assert LoggedAt(log, inputs[i - 1], start, i - 1);
      assert TakenRule(log[i - 1]);
    }
    assert Sane(d);
    EditedSizeServed(d.v, d.books, d.work, h);
  }

  // ---- The ledger of edits ----

  /** What an input enters into the books: an edit begun and its file opened, or an edit committed
      and its file closed. */
  function EnteredBy(t: Taken): Edits.Books {
    var none := NoBooks();
    if Succeeded(t, BEGIN_EDIT_OBJECT) then
      none.(begun := multiset{t.step.value.e.q.p1}, openFiles := multiset{t.step.value.e.env.fd})
    else if Succeeded(t, END_EDIT_OBJECT) then
      none.(committed := multiset{t.step.value.e.q.p1}, closedFiles := FileOf(t.d0.v.edits, t.step.value.e.q.p1))
    else none
  }

  /** The file of an object's open edit. */
  function FileOf(edits: seq<Edits.Edit>, h: uint32): multiset<int> {
    match Edits.Find(edits, h)
    case None => multiset{}
    case Some(i) => multiset{edits[i].fd}
  }

  function Sum(a: Edits.Books, b: Edits.Books): Edits.Books {
    Edits.Books(a.begun + b.begun, a.committed + b.committed, a.openFiles + b.openFiles, a.closedFiles + b.closedFiles)
  }

  /** What the requests of a log enter into the books. */
  function LedgerOf(log: seq<Taken>): Edits.Books {
    if log == [] then NoBooks()
    else Sum(LedgerOf(log[..|log| - 1]), EnteredBy(log[|log| - 1]))
  }

  lemma LedgerStep(t: Taken)
    requires TakenOk(t)
    ensures t.d1.books == Sum(t.d0.books, EnteredBy(t))
  {
    SumNone(t.d0.books);
    if Did(t, BEGIN_EDIT_OBJECT) {
      BeginEntered(t);
    } else if Did(t, END_EDIT_OBJECT) {
      EndEntered(t);
    } else {
      NothingEntered(t);
    }
  }

  function NoBooks(): Edits.Books { Edits.Books(multiset{}, multiset{}, multiset{}, multiset{}) }

  lemma SumNone(b: Edits.Books)
    ensures Sum(b, NoBooks()) == b
  {
  }

  lemma SumAssoc(a: Edits.Books, b: Edits.Books, c: Edits.Books)
    ensures Sum(Sum(a, b), c) == Sum(a, Sum(b, c))
  {
  }

  lemma BeginEntered(t: Taken)
    requires TakenOk(t) && Did(t, BEGIN_EDIT_OBJECT)
    ensures t.d1.books == Sum(t.d0.books, EnteredBy(t))
  {
    var e := t.step.value.e;
    OtherStep(t);
    OtherBooks(GivenUp(t.d0, e.q), e.q, e.env);
    EditReplies(t);
    SumNone(t.d0.books);
  }

  lemma EndEntered(t: Taken)
    requires TakenOk(t) && Did(t, END_EDIT_OBJECT)
    ensures t.d1.books == Sum(t.d0.books, EnteredBy(t))
  {
    var e := t.step.value.e;
    OtherStep(t);
    OtherBooks(GivenUp(t.d0, e.q), e.q, e.env);
    EditReplies(t);
    SumNone(t.d0.books);
  }

  lemma NothingEntered(t: Taken)
    requires TakenOk(t) && !Did(t, BEGIN_EDIT_OBJECT) && !Did(t, END_EDIT_OBJECT)
    ensures t.d1.books == t.d0.books
  {
    if t.step == None {
      NoStep(t);
    } else {
      var e := t.step.value.e;
      var d := GivenUp(t.d0, e.q);
      if e.q.operation == SEND_OBJECT_INFO {
        InfoStep(t);
        InfoKeeps(d, e.q, e.env, e.outcome, t.d1);
      } else if e.q.operation == SET_OBJECT_PROP_VALUE {
        RenameStep(t);
        RenameKeeps(d, e.q, e.env, t.d1);
      } else if e.q.operation == SEND_OBJECT {
        SendStepMoves(t);
      } else {
        OtherStep(t);
        OtherBooks(d, e.q, e.env);
      }
    }
  }

  lemma EditReplies(t: Taken)
    requires TakenOk(t)
    ensures Did(t, BEGIN_EDIT_OBJECT) ==>
      (Succeeded(t, BEGIN_EDIT_OBJECT) <==> BeginEditCode(t.d0.v, t.step.value.e.q, t.step.value.e.env) == RESPONSE_OK)
    ensures Did(t, END_EDIT_OBJECT) ==>
      (Succeeded(t, END_EDIT_OBJECT) <==> Edits.Find(t.d0.v.edits, t.step.value.e.q.p1).Some?)
  {
    if Did(t, BEGIN_EDIT_OBJECT) || Did(t, END_EDIT_OBJECT) {
      StepReplies(t);
      EditingSpec(t.d0.v, t.step.value.e.q, t.step.value.e.env);
    }
  }

  lemma {:induction false} LedgerHolds(log: seq<Taken>, inputs: seq<Input>, start: Device)
    requires Logged(log, inputs, start)
    ensures End(log, start).books == Sum(start.books, LedgerOf(log))
  {
    if log != [] {
      var n := |log| - 1;
      LogLess(log, inputs, start, n);
      assert LoggedAt(log, inputs[n], start, n);
      LedgerHolds(log[..n], inputs, start);
      LedgerStep(log[n]);
      SumAssoc(start.books, LedgerOf(log[..n]), EnteredBy(log[n]));
    } else {
      SumNone(start.books);
    }
  }

  /** Over every run: what was open at the start or was begun since, was ended or is open in the end,
      each once; and likewise the files. */
  lemma EveryEditAccounted(log: seq<Taken>, inputs: seq<Input>, start: Device)
    requires Logged(log, inputs, start)
    ensures var (b, last) := (LedgerOf(log), End(log, start).v.edits);
            && Edits.Handles(start.v.edits) + b.begun == b.committed + Edits.Handles(last)
            && Edits.Files(start.v.edits) + b.openFiles == b.closedFiles + Edits.Files(last)
  {
    LedgerHolds(log, inputs, start);
    HealthyInTheEnd(log, inputs, start);
    BalancedWhenHealthy(start);
    BalancedWhenHealthy(End(log, start));
    Settle(start.books.begun, start.books.committed, Edits.Handles(start.v.edits), LedgerOf(log).begun,
           LedgerOf(log).committed, Edits.Handles(End(log, start).v.edits));
    Settle(start.books.openFiles, start.books.closedFiles, Edits.Files(start.v.edits), LedgerOf(log).openFiles,
           LedgerOf(log).closedFiles, Edits.Files(End(log, start).v.edits));
  }

  lemma BalancedWhenHealthy(d: Device)
    requires Healthy(d)
    ensures Edits.Balanced(d.books, d.v.edits)
  {
    assert Sane(d);
  }

  lemma Settle<T>(begun: multiset<T>, done: multiset<T>, open: multiset<T>, more: multiset<T>, ended: multiset<T>,
                  left: multiset<T>)
    requires begun == done + open && begun + more == (done + ended) + left
    ensures open + more == ended + left
  {
    forall x
      ensures (open + more)[x] == (ended + left)[x]
    {
      assert (begun + more)[x] == ((done + ended) + left)[x];
    }
  }

  lemma HealthyInTheEnd(log: seq<Taken>, inputs: seq<Input>, start: Device)
    requires Logged(log, inputs, start)
    ensures Healthy(End(log, start))
  {
    if log != [] {
      assert LoggedAt(log, inputs[|log| - 1], start, |log| - 1);
      assert TakenRule(log[|log| - 1]);
    }
  }

  // ---- Shutdown ----

  /** The table once all of `edits` are committed, in order, with the sizes then on disk. */
  function CommittedAll(t: Table, edits: seq<Edits.Edit>, sizes: uint32 -> Option<nat>): Table {
    if edits == [] then t
    else
      var last := edits[|edits| - 1];
      Committed(CommittedAll(t, edits[..|edits| - 1], sizes), last, sizes(last.handle))
  }

  /** The books and the table before the shutdown, and once `done` has been committed. */
  datatype Closing = Closing(b0: Edits.Books, t0: Table, done: seq<Edits.Edit>, b: Edits.Books, t: Table)

  ghost predicate ClosingRule(c: Closing, sizes: uint32 -> Option<nat>) {
    c.b == Edits.CommitAll(c.b0, c.done) && c.t == CommittedAll(c.t0, c.done, sizes)
  }

  /** Books and table are as ClosingRule says. (Folded.) */
  ghost predicate ClosedSoFar(c: Closing, sizes: uint32 -> Option<nat>) {
    forall x {:trigger ClosingRule(x, sizes)} :: x == c ==> ClosingRule(x, sizes)
  }

  lemma CloseNone(b: Edits.Books, t: Table, edits: seq<Edits.Edit>, sizes: uint32 -> Option<nat>)
    ensures ClosedSoFar(Closing(b, t, edits[..0], b, t), sizes)
  {
    assert ClosingRule(Closing(b, t, edits[..0], b, t), sizes);
  }

  lemma CloseNext(c: Closing, edits: seq<Edits.Edit>, sizes: uint32 -> Option<nat>, i: nat)
    requires i < |edits| && c.done == edits[..i] && ClosedSoFar(c, sizes)
    ensures ClosedSoFar(c.(done := edits[..i + 1], b := Edits.CommitOne(c.b, edits[i]),
                           t := Committed(c.t, edits[i], sizes(edits[i].handle))), sizes)
  {
    assert ClosingRule(c, sizes);
    assert edits[..i + 1][..i] == edits[..i];
    assert ClosingRule(c.(done := edits[..i + 1], b := Edits.CommitOne(c.b, edits[i]),
                          t := Committed(c.t, edits[i], sizes(edits[i].handle))), sizes);
  }

  lemma ClosedAll(c: Closing, edits: seq<Edits.Edit>, sizes: uint32 -> Option<nat>)
    requires c.done == edits[..|edits|] && ClosedSoFar(c, sizes)
    ensures c.b == Edits.CommitAll(c.b0, edits) && c.t == CommittedAll(c.t0, edits, sizes)
  {
    assert ClosingRule(c, sizes);
    assert edits[..|edits|] == edits;
  }

  /** The device after the shutdown: every edit that is still open is committed and its file closed. */
  function ShutDown(d: Device, sizes: uint32 -> Option<nat>): Device {
    d.(v := d.v.(db := CommittedAll(d.v.db, d.v.edits, sizes), edits := []),
       books := Edits.CommitAll(d.books, d.v.edits))
  }

  /** Once the loop has shut down, every edit that was open at the start or was begun since is
      committed once, and its file is closed once: by its EndEditObject or by the shutdown. */
  lemma SettledInTheEnd(log: seq<Taken>, inputs: seq<Input>, start: Device, sizes: uint32 -> Option<nat>)
    requires Logged(log, inputs, start)
    ensures var (b, last, done) := (LedgerOf(log), End(log, start), ShutDown(End(log, start), sizes));
            && done.books.begun == start.books.begun + b.begun
            && done.books.openFiles == start.books.openFiles + b.openFiles
            && done.books.committed == start.books.committed + b.committed + Edits.Handles(last.v.edits)
            && done.books.closedFiles == start.books.closedFiles + b.closedFiles + Edits.Files(last.v.edits)
            && Edits.Settled(done.books)
  {
    LedgerHolds(log, inputs, start);
    HealthyInTheEnd(log, inputs, start);
    assert Sane(End(log, start));
    Edits.CommitAllAdds(End(log, start).books, End(log, start).v.edits);
    Edits.CommitAllSettles(End(log, start).books, End(log, start).v.edits);
  }

  // ---- Handles ----

  function MomentOf(d: Device): Moment { Moment(d.v.db, d.issued) }

  function Moments(log: seq<Taken>, start: Device): (m: seq<Moment>)
    ensures |m| == |log| + 1
  {
    seq(|log| + 1, i requires 0 <= i <= |log| => MomentOf(At(log, start, i)))
  }

  /** An input adds no handle but the counter's next one. */
  lemma HandlesStep(t: Taken)
    requires TakenOk(t)
    ensures Succeeds(MomentOf(t.d0), MomentOf(t.d1)) && t.d1.moved == (t.d0.moved || Succeeded(t, MOVE_OBJECT))
  {
    if t.step == None {
      NoStep(t);
    } else {
      var e := t.step.value.e;
      var d := GivenUp(t.d0, e.q);
      if e.q.operation == SEND_OBJECT_INFO {
        InfoStep(t);
        CountsWhenOk(t);
        InfoHandles(d, e.q, e.env, e.outcome, t.d1);
      } else if e.q.operation == SET_OBJECT_PROP_VALUE {
        RenameStep(t);
        RenameKeeps(d, e.q, e.env, t.d1);
      } else if e.q.operation == SEND_OBJECT {
        SendStepMoves(t);
      } else {
        OtherStep(t);
        OtherKeeps(d, e.q, e.env);
        OtherTable(d, e.q, e.env);
        OtherMoved(d, e.q, e.env);
        MoveReplies(t);
      }
    }
  }

  lemma CountsWhenOk(t: Taken)
    requires TakenOk(t)
    ensures CounterOk(t.d0)
  {
    assert TakenRule(t) && Sane(t.d0);
  }

  lemma MoveReplies(t: Taken)
    requires TakenOk(t)
    ensures Did(t, MOVE_OBJECT) ==> (Succeeded(t, MOVE_OBJECT) <==> MoveCode(t.d0.v, t.step.value.e.q) == RESPONSE_OK)
  {
    if Did(t, MOVE_OBJECT) {
      StepReplies(t);
      LookupNeverCancels(t.d0.v.db, t.step.value.e.q.p1);
    }
  }

  lemma InfoHandles(d: Device, q: Request, env: Env, o: Outcome, d1: Device)
    requires CounterOk(d) && Considered(d, q, env, o, d1)
    ensures Succeeds(MomentOf(d), MomentOf(d1)) && d1.moved == d.moved
  {
    var g :| WentBy(d, q, env, o, d1, g);
    assert WentBy(d, q, env, o, d1, g);
    InfoTable(d, q, env, g.d.size, g.d.format, Text(g.name));
    OneNewHandle(d, d1);
  }

  lemma OneNewHandle(d: Device, d1: Device)
    requires CounterOk(d) && d1.v.db.Keys <= d.v.db.Keys + {d.v.counter} && d.issued <= d1.issued
    requires d1.v.db.Keys != d.v.db.Keys ==> d1.issued == d.issued + 1
    ensures Succeeds(MomentOf(d), MomentOf(d1))
  {
    if d1.issued < PARENT_ROOT && d1.v.db.Keys != d.v.db.Keys {
      assert d.v.counter == 1 + d.issued;
      forall h | h in d1.v.db
        ensures h in d.v.db || d.issued < h
      {
        assert h in d1.v.db.Keys;
      }
    }
    assert d1.v.db.Keys == d.v.db.Keys ==> forall h :: h in d1.v.db ==> h in d.v.db.Keys;
  }

  /** At most the counter's handle is new. */
  lemma InfoTable(d: Device, q: Request, env: Env, size: uint32, format: uint16, name: Name)
    ensures var d1 := InfoTurn(d, q, env, size, format, name).1;
            && d1.v.db.Keys <= d.v.db.Keys + {d.v.counter} && d1.moved == d.moved && d.issued <= d1.issued
            && (d1.v.db.Keys != d.v.db.Keys ==> d1.issued == d.issued + 1)
  {
  }

  lemma {:induction false} HistoryOfLog(log: seq<Taken>, inputs: seq<Input>, start: Device)
    requires Logged(log, inputs, start)
    ensures History(Moments(log, start))
    ensures End(log, start).moved <==> start.moved || exists i :: 0 <= i < |log| && Succeeded(log[i], MOVE_OBJECT)
  {
    if log != [] {
      var n := |log| - 1;
      LogLess(log, inputs, start, n);
      assert LoggedAt(log, inputs[n], start, n);
      HistoryOfLog(log[..n], inputs, start);
      HandlesStep(log[n]);
      var m, before := Moments(log, start), Moments(log[..n], start);
      forall i | 0 <= i < |m| - 1
        ensures Succeeds(m[i], m[i + 1])
      {
        if i < n {
          assert m[i] == before[i] && m[i + 1] == before[i + 1];
        }
      }
    }
  }

  /** Over every run in which the counter does not wrap: at every moment each handle in the table was
      taken from the counter and none is reserved, and one that is gone never returns. In a run
      without a move every walk towards the root ends. */
  lemma HandlesOverRun(log: seq<Taken>, inputs: seq<Input>, start: Device)
    requires Logged(log, inputs, start) && End(log, start).issued < PARENT_ROOT
    ensures HandlesUnique(Moments(log, start))
    ensures var d := End(log, start); Proper(d.v.db) && forall h :: h in d.v.db ==> h < d.v.counter
    ensures !start.moved && (forall i :: 0 <= i < |log| ==> !Succeeded(log[i], MOVE_OBJECT)) ==>
      Sound(End(log, start).v.db, End(log, start).v.counter)
  {
    HistoryOfLog(log, inputs, start);
    AllUnique(Moments(log, start));
    HealthyInTheEnd(log, inputs, start);
    var d := End(log, start);
    assert Sane(d);
    if !d.moved {
      OrderedIsSound(d.v.db, d.v.counter, d.issued);
    }
  }
}
