/** The write queue of an asynchronous client, run by an event loop that executes one handler at a time. */
module AsioClient {
  import opened Sequences

  type Message = string

  /**
    The client and the operations it has started.
    `posted` is everything handed to send; the handlers of its first `run` messages have been executed.
   */
  datatype State = State(
    posted: seq<Message>,
    run: nat,
    queue: seq<Message>,      // write_msgs_
    writes: seq<Message>,     // writes started and not completed
    delivered: seq<Message>,  // writes completed without error
    failed: bool,             // a write has completed with an error
    readOps: nat)             // reads started and not completed

  datatype Event =
    | Post(message: Message)
    | RunSend
    | WriteDone(index: nat, ok: bool)
    | Connected
    | ReadDone(ok: bool)

  const START := State([], 0, [], [], [], false, 0)

  predicate Enabled(s: State, e: Event) {
    match e
    case Post(_) => true
    case RunSend => s.run < |s.posted|
    case WriteDone(index, _) => index < |s.writes|
    case Connected => true
    case ReadDone(_) => s.readOps > 0
  }

  function Line(m: Message): Message {
    m + "\n"
  }

  function Lines(ms: seq<Message>): seq<Message> {
    seq(|ms|, i requires 0 <= i < |ms| => Line(ms[i]))
  }

  /** Starting a write of the front of the queue. */
  function DoWrite(s: State): State {
    if s.queue == [] then s else s.(writes := s.writes + [s.queue[0]])
  }

  function Step(s: State, e: Event): State
    requires Enabled(s, e)
  {
    match e
    case Post(message) => s.(posted := s.posted + [message])
    case RunSend =>
      var s1 := s.(run := s.run + 1, queue := s.queue + [Line(s.posted[s.run])]);
      if s.queue == [] then DoWrite(s1) else s1
    case WriteDone(index, ok) =>
      var s1 := s.(writes := Without(s.writes, index));
      if !ok then s1.(failed := true)
      else
        var rest := if s.queue == [] then [] else s.queue[1..];
        var s2 := s1.(delivered := s.delivered + [s.writes[index]], queue := rest);
        if s2.queue != [] then DoWrite(s2) else s2.(readOps := s.readOps + 1)
    case Connected => s.(readOps := s.readOps + 1)
    case ReadDone(ok) => if ok then s else s.(readOps := s.readOps - 1)
  }

  predicate ValidRun(s: State, es: seq<Event>)
    decreases es
  {
    es == [] || (Enabled(s, es[0]) && ValidRun(Step(s, es[0]), es[1..]))
  }

  function After(s: State, es: seq<Event>): State
    requires ValidRun(s, es)
    decreases es
  {
    if es == [] then s else After(Step(s, es[0]), es[1..])
  }

  /** What every step of the event loop keeps. */
  predicate Inv(s: State) {
    && s.run <= |s.posted|
    // the write in flight, if any, is the front of the queue: its buffer stays alive
    && (s.writes == [] || (s.queue != [] && s.writes == [s.queue[0]]))
    && (s.failed ==> s.writes == [] && s.queue != [])
    && (!s.failed ==> (s.writes == [] <==> s.queue == []))
    // conservation of messages, in order
    && s.delivered + s.queue == Lines(s.posted[..s.run])
  }

  lemma LinesStep(ms: seq<Message>, n: nat)
    requires n < |ms|
    ensures Lines(ms[..n + 1]) == Lines(ms[..n]) + [Line(ms[n])]
  {
  }

  lemma StepKeepsInv(s: State, e: Event)
    requires Inv(s) && Enabled(s, e)
    ensures Inv(Step(s, e))
  {
    hide Lines, Line;
    match e
    case Post(message) =>
      assert (s.posted + [message])[..s.run] == s.posted[..s.run];
    case RunSend =>
      LinesStep(s.posted, s.run);
      var line := [Line(s.posted[s.run])];
      assert s.delivered + (s.queue + line) == (s.delivered + s.queue) + line;
    case WriteDone(index, ok) =>
      assert s.writes == [s.queue[0]] && index == 0;
      assert s.queue == [s.queue[0]] + s.queue[1..];
      assert s.delivered + s.queue == (s.delivered + [s.queue[0]]) + s.queue[1..];
    case Connected =>
    case ReadDone(_) =>
  }

  lemma {:induction false} RunKeepsInv(s: State, es: seq<Event>)
    requires Inv(s) && ValidRun(s, es)
    ensures Inv(After(s, es))
    decreases es
  {
    hide Inv, Step, Enabled;
    if es != [] {
      StepKeepsInv(s, es[0]);
      RunKeepsInv(Step(s, es[0]), es[1..]);
    }
  }

  /** Safety of every run: one write at a time, and the lines sent arrive in order, none lost or doubled. */
  lemma EveryRunIsSafe(es: seq<Event>)
    requires ValidRun(START, es)
    ensures var s := After(START, es);
      && |s.writes| <= 1 && s.run <= |s.posted|
      && s.delivered <= Lines(s.posted)
      && s.delivered + s.queue == Lines(s.posted[..s.run])
      && (s.writes != [] ==> s.queue != [] && s.writes[0] == s.queue[0])
      && (!s.failed ==> (s.writes != [] <==> s.queue != []))
  {
    hide Step, Enabled;
    RunKeepsInv(START, es);
    var s := After(START, es);
    assert |s.delivered| + |s.queue| == |Lines(s.posted[..s.run])| == s.run;
    assert Lines(s.posted[..s.run]) == Lines(s.posted)[..s.run];
    assert s.delivered == (s.delivered + s.queue)[..|s.delivered|];
    assert s.delivered == Lines(s.posted)[..|s.delivered|];
  }

  /** The events that run every posted handler and complete every write. */
  function Drain(handlers: nat, writes: nat): seq<Event> {
    if handlers > 0 then [RunSend] + Drain(handlers - 1, writes)
    else if writes > 0 then [WriteDone(0, true)] + Drain(0, writes - 1)
    else []
  }

  lemma DrainSplit(first: seq<Event>, rest: seq<Event>)
    requires |first| == 1
    ensures (first + rest)[0] == first[0] && (first + rest)[1..] == rest
  {
  }

  /** Progress: until a write fails, running what is pending delivers every line that was posted. */
  lemma {:induction false} DrainDelivers(s: State, handlers: nat, writes: nat)
    requires Inv(s) && !s.failed
    requires handlers == |s.posted| - s.run && writes == |s.queue| + handlers
    ensures ValidRun(s, Drain(handlers, writes))
    ensures var t := After(s, Drain(handlers, writes));
      t.posted == s.posted && t.queue == [] && t.delivered == Lines(s.posted)
    decreases handlers, writes
  {
    hide Lines, Line;
    if handlers > 0 {
      StepKeepsInv(s, RunSend);
      DrainDelivers(Step(s, RunSend), handlers - 1, writes);
      DrainSplit([RunSend], Drain(handlers - 1, writes));
    } else if writes > 0 {
      StepKeepsInv(s, WriteDone(0, true));
      DrainDelivers(Step(s, WriteDone(0, true)), 0, writes - 1);
      DrainSplit([WriteDone(0, true)], Drain(0, writes - 1));
    } else {
      assert s.posted[..s.run] == s.posted && s.delivered + [] == s.delivered;
    }
  }

  /** After a failed write nothing is written any more: later messages only lengthen the queue. */
  lemma {:induction false} FailureIsFinal(s: State, es: seq<Event>)
    requires Inv(s) && s.failed && ValidRun(s, es)
    ensures var t := After(s, es);
      t.failed && t.writes == [] && t.delivered == s.delivered && s.queue <= t.queue
    decreases es
  {
    hide Lines, Line;
    if es != [] {
      StepKeepsInv(s, es[0]);
      FailureIsFinal(Step(s, es[0]), es[1..]);
    }
  }

  lemma RunOne(s: State, e: Event, es: seq<Event>)
    requires Enabled(s, e) && ValidRun(Step(s, e), es)
    ensures ValidRun(s, [e] + es) && After(s, [e] + es) == After(Step(s, e), es)
  {
    assert ([e] + es)[1..] == es;
  }

  /** Reads are not kept to one at a time: each drained queue starts another beside the one that re-arms itself. */
  lemma SecondRead(m: Message)
    ensures var es := [Connected, Post(m), RunSend, WriteDone(0, true)];
      ValidRun(START, es) && After(START, es).readOps == 2
  {
    var s1 := Step(START, Connected);
    var s2 := Step(s1, Post(m));
    var s3 := Step(s2, RunSend);
    var s4 := Step(s3, WriteDone(0, true));
    assert ValidRun(s4, []);
    RunOne(s3, WriteDone(0, true), []);
    RunOne(s2, RunSend, [WriteDone(0, true)]);
    RunOne(s1, Post(m), [RunSend, WriteDone(0, true)]);
    RunOne(START, Connected, [Post(m), RunSend, WriteDone(0, true)]);
  }

  // ---------- reads, from the events alone ----------

  /** How many events of the run are of the given kind. */
  function Count(es: seq<Event>, kind: Event -> bool): nat {
    if es == [] then 0 else Count(es[..|es| - 1], kind) + if kind(es[|es| - 1]) then 1 else 0
  }

  function SendsRun(es: seq<Event>): nat { Count(es, (e: Event) => e.RunSend?) }

  function WritesCompleted(es: seq<Event>): nat { Count(es, (e: Event) => e.WriteDone? && e.ok) }

  function Connections(es: seq<Event>): nat { Count(es, (e: Event) => e.Connected?) }

  function ReadErrors(es: seq<Event>): nat { Count(es, (e: Event) => e.ReadDone? && !e.ok) }

  function WritesFailed(es: seq<Event>): nat { Count(es, (e: Event) => e.WriteDone? && !e.ok) }

  /** What the messages handed to send put on the wire: each of them and a newline, in order. */
  function Sent(es: seq<Event>): seq<Message> {
    if es == [] then []
    else
      var e := es[|es| - 1];
      Sent(es[..|es| - 1]) + if e.Post? then [e.message + "\n"] else []
  }

  /** The completions that answer the last of the send handlers run so far. */
  function Drains(es: seq<Event>): nat {
    if es == [] then 0
    else
      var e := es[|es| - 1];
      Drains(es[..|es| - 1]) + if e.WriteDone? && e.ok && WritesCompleted(es) == SendsRun(es) then 1 else 0
  }

  lemma {:induction false} LastStep(s: State, es: seq<Event>)
    requires ValidRun(s, es) && es != []
    ensures var front, e := es[..|es| - 1], es[|es| - 1];
      ValidRun(s, front) && Enabled(After(s, front), e) && After(s, es) == Step(After(s, front), e)
    decreases es
  {
    hide Step, Enabled;
    if |es| > 1 {
      var front := es[..|es| - 1];
      assert front[1..] == es[1..][..|es| - 2];
      LastStep(Step(s, es[0]), es[1..]);
    } else {
      assert es[..0] == [] && es[1..] == [];
    }
  }

  /** A write completed without error starts a read exactly when it answers the last send handler run. */
  lemma DrainStartsRead(s: State, index: nat)
    requires Inv(s) && Enabled(s, WriteDone(index, true))
    ensures Step(s, WriteDone(index, true)).readOps
         == s.readOps + if |s.delivered| + 1 == s.run then 1 else 0
  {
    hide Line;
    assert |s.delivered| + |s.queue| == |s.delivered + s.queue| == s.run;
  }

  lemma {:induction false} EventsTell(es: seq<Event>)
    requires ValidRun(START, es)
    ensures var s := After(START, es);
      && s.run == SendsRun(es) && |s.delivered| == WritesCompleted(es)
      && (s.failed <==> WritesFailed(es) > 0)
    decreases es
  {
    if es != [] {
      LastStep(START, es);
      EventsTell(es[..|es| - 1]);
    }
  }

  lemma NothingSent()
    ensures Inv(START)
  {
  }

  /**
    The reads outstanding after any run: one for each connection and each time the completions
    catch up with the send handlers, less the failed ones.
   */
  lemma {:induction false} ReadsExact(es: seq<Event>)
    requires ValidRun(START, es)
    ensures var s := After(START, es);
      && s.readOps == Connections(es) + Drains(es) - ReadErrors(es)
      && (s.readOps <= 1 <==> Connections(es) + Drains(es) <= ReadErrors(es) + 1)
    decreases es
  {
    if es != [] {
      hide Inv, ValidRun, After, SendsRun, WritesCompleted;
      NothingSent();
      var front, e := es[..|es| - 1], es[|es| - 1];
      LastStep(START, es);
      ReadsExact(front);
      RunKeepsInv(START, front);
      EventsTell(front);
      EventsTell(es);
      if e.WriteDone? && e.ok { DrainStartsRead(After(START, front), e.index); }
    }
  }

  lemma LinesOfMore(ms: seq<Message>, m: Message)
    ensures Lines(ms + [m]) == Lines(ms) + [Line(m)]
  {
    LinesStep(ms + [m], |ms|);
    assert (ms + [m])[..|ms|] == ms && (ms + [m])[..|ms| + 1] == ms + [m];
  }

  lemma NoLines()
    ensures Lines([]) == []
  {
  }

  /** The lines of the messages posted are what the events of the run say. */
  lemma {:induction false} PostedAreSent(es: seq<Event>)
    requires ValidRun(START, es)
    ensures Lines(After(START, es).posted) == Sent(es)
    decreases es
  {
    hide Lines;
    if es == [] {
      assert Lines([]) == [] by { NoLines(); }
    } else {
      var front, e := es[..|es| - 1], es[|es| - 1];
      LastStep(START, es);
      PostedAreSent(front);
      if e.Post? { LinesOfMore(After(START, front).posted, e.message); }
    }
  }

  lemma LinesOfFront(ms: seq<Message>, n: nat)
    requires n <= |ms|
    ensures |Lines(ms)| == |ms| && Lines(ms[..n]) == Lines(ms)[..n]
  {
  }

  /**
    Over every run, what was delivered and what waits in the queue are together the lines of the first
    messages sent, as many as send handlers have run.
   */
  lemma DeliveredWereSent(es: seq<Event>)
    requires ValidRun(START, es)
    ensures var s := After(START, es);
      && WritesCompleted(es) <= SendsRun(es) <= |Sent(es)|
      && s.delivered + s.queue == Sent(es)[..SendsRun(es)]
      && s.delivered == Sent(es)[..WritesCompleted(es)]
  {
    hide Step, Enabled, Lines, SendsRun, WritesCompleted, Sent, ValidRun, After;
    NothingSent();
    RunKeepsInv(START, es);
    EventsTell(es);
    PostedAreSent(es);
    var s := After(START, es);
    LinesOfFront(s.posted, s.run);
    LinesOfFront(s.posted, |s.posted|);
    assert s.posted[..|s.posted|] == s.posted;
    assert s.delivered == (s.delivered + s.queue)[..|s.delivered|];
  }

  lemma {:induction false} RunOn(s: State, es: seq<Event>, more: seq<Event>)
    requires ValidRun(s, es) && ValidRun(After(s, es), more)
    ensures ValidRun(s, es + more) && After(s, es + more) == After(After(s, es), more)
    decreases es
  {
    hide Step, Enabled;
    if es == [] {
      assert es + more == more;
    } else {
      RunOn(Step(s, es[0]), es[1..], more);
      assert (es + more)[1..] == es[1..] + more && (es + more)[0] == es[0];
    }
  }

  lemma {:induction false} DrainEvents(handlers: nat, writes: nat)
    ensures forall e :: e in Drain(handlers, writes) ==> e == RunSend || e == WriteDone(0, true)
    decreases handlers, writes
  {
    if handlers > 0 {
      DrainEvents(handlers - 1, writes);
    } else if writes > 0 {
      DrainEvents(0, writes - 1);
    }
  }

  /** A run without failed writes goes on to deliver every message sent, each with its newline, in order. */
  lemma AllSentDelivered(es: seq<Event>) returns (more: seq<Event>)
    requires ValidRun(START, es) && WritesFailed(es) == 0
    ensures ValidRun(START, es + more) && After(START, es + more).delivered == Sent(es)
    ensures forall e :: e in more ==> e == RunSend || e == WriteDone(0, true)
  {
    hide Step, Enabled, Lines, Sent, ValidRun, After, WritesFailed, Drain;
    NothingSent();
    RunKeepsInv(START, es);
    EventsTell(es);
    PostedAreSent(es);
    var s := After(START, es);
    var handlers := |s.posted| - s.run;
    more := Drain(handlers, |s.queue| + handlers);
    DrainDelivers(s, handlers, |s.queue| + handlers);
    RunOn(START, es, more);
    DrainEvents(handlers, |s.queue| + handlers);
  }

  /** The object whose handlers the event loop runs. */
  class Client {
    var writeMsgs: seq<Message>
    var writes: seq<Message>
    var readOps: nat
    // what the outside has seen
    ghost var posted: seq<Message>
    ghost var run: nat
    ghost var delivered: seq<Message>
    ghost var failed: bool

    ghost function View(): State
      reads this
    {
      State(posted, run, writeMsgs, writes, delivered, failed, readOps)
    }

    constructor ()
      ensures View() == START && Inv(View())
    {
      writeMsgs, writes, readOps := [], [], 0;
      posted, run, delivered, failed := [], 0, [], false;
    }

    /** async_write of the front of the queue. */
    method StartWrite()
      requires writeMsgs != []
      modifies this`writes
      ensures writes == old(writes) + [writeMsgs[0]]
    {
      writes := writes + [writeMsgs[0]];
    }

    method Send(message: Message)
      requires Inv(View())
      modifies this`posted
      ensures View() == Step(old(View()), Post(message)) && Inv(View())
    {
      StepKeepsInv(View(), Post(message));
      posted := posted + [message];
    }

    /** The handler that send posted. */
    method OnSend(message: Message)
      requires Inv(View()) && Enabled(View(), RunSend) && message == posted[run]
      modifies this
      ensures View() == Step(old(View()), RunSend) && Inv(View())
    {
      StepKeepsInv(View(), RunSend);
      var writeInProgress := writeMsgs != [];
      writeMsgs := writeMsgs + [message + "\n"];
      run := run + 1;
      if !writeInProgress {
        StartWrite();
      }
    }

    /** The handler of a completed write. */
    method OnWritten(ghost index: nat, ok: bool)
      requires Inv(View()) && Enabled(View(), WriteDone(index, ok))
      modifies this
      ensures View() == Step(old(View()), WriteDone(index, ok)) && Inv(View())
    {
      StepKeepsInv(View(), WriteDone(index, ok));
      assert index == 0 && |writes| == 1;
      ghost var message := writes[index];
      writes := writes[1..];
      if ok {
        delivered := delivered + [message];
        writeMsgs := writeMsgs[1..];
        if writeMsgs != [] {
          StartWrite();
        } else {
          readOps := readOps + 1;
        }
      } else {
        failed := true;
      }
    }

    method OnConnected()
      requires Inv(View())
      modifies this
      ensures View() == Step(old(View()), Connected) && Inv(View())
    {
      StepKeepsInv(View(), Connected);
      readOps := readOps + 1;
    }

    /** The handler of a completed read, which starts the next one unless it failed. */
    method OnRead(ok: bool)
      requires Inv(View()) && Enabled(View(), ReadDone(ok))
      modifies this
      ensures View() == Step(old(View()), ReadDone(ok)) && Inv(View())
    {
      StepKeepsInv(View(), ReadDone(ok));
      readOps := readOps - 1;
      if ok {
        readOps := readOps + 1;
      }
    }
  }
}
