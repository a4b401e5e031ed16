/**
 * The debounce queue of `watcherLoop` in index.go as a state machine. A
 * file-system event is queued; when the idle timer fires, the queue is
 * replayed in arrival order, each event becoming a delete, an update or
 * nothing, and the queue is emptied. The event source, the timer and the
 * index calls themselves stay outside: the machine only says which index
 * actions are issued, in which order.
 */
module Watcher {
  import opened Wrappers
  import opened Text
  import Index

  /** The fsnotify operation bits. An event's `op` is compared with them for
      equality, so a combined value such as Write|Chmod matches none. */
  const OpCreate: nat := 1
  const OpWrite: nat := 2
  const OpRemove: nat := 4
  const OpRename: nat := 8
  const OpChmod: nat := 16

  datatype Event = Event(name: string, op: nat)

  /** What one watcher knows: the watched directory, the prefixes handed to
      `getURIPath`, and the index section settings it uses. */
  datatype WatchConfig = WatchConfig(
    watchPath: string,
    filePrefix: string,
    uriPrefix: string,
    extension: string,
    indexName: string,
    indexPath: string)

  /** An index call issued on replay. A delete goes to the index named by
      `IndexName`, while an update opens the index at `IndexPath`. */
  datatype Action =
    | Delete(uriPath: string, index: string)
    | Update(filePath: string, uriPath: string, index: string)

  /** Only events on files with the watched extension are acted on. */
  predicate Watched(c: WatchConfig, e: Event) {
    HasSuffix(e.name, c.extension)
  }

  /** The `switch` of the replay loop for one event. */
  function EventAction(c: WatchConfig, e: Event): (r: Option<Action>)
    ensures r.Some? <==> Watched(c, e) && e.op in {OpCreate, OpWrite, OpRemove, OpRename}
    ensures r.Some? ==> r.value.uriPath == Index.GetURIPath(c.watchPath + e.name, c.filePrefix, c.uriPrefix)
    ensures r.Some? && r.value.Delete? ==> e.op in {OpRemove, OpRename} && r.value.index == c.indexName
    ensures r.Some? && r.value.Update? ==>
              e.op in {OpCreate, OpWrite} && r.value.index == c.indexPath && r.value.filePath == c.watchPath + e.name
  {
    if !Watched(c, e) then None
    else
      var file := c.watchPath + e.name;
      var uri := Index.GetURIPath(file, c.filePrefix, c.uriPrefix);
      if e.op == OpRemove || e.op == OpRename then Some(Delete(uri, c.indexName))
      else if e.op == OpCreate || e.op == OpWrite then Some(Update(file, uri, c.indexPath))
      else None
  }

  /** Replaying the queue: the actions of the events, in queue order. */
  function Replay(c: WatchConfig, q: seq<Event>): (r: seq<Action>)
    ensures |r| <= |q|
  {
    if |q| == 0 then []
    else (match EventAction(c, q[0]) case None => [] case Some(a) => [a]) + Replay(c, q[1..])
  }

  /** The number of events of `q` that give an action. */
  function Acting(c: WatchConfig, q: seq<Event>): nat {
    if |q| == 0 then 0 else (if EventAction(c, q[0]).Some? then 1 else 0) + Acting(c, q[1..])
  }

  /** Replaying two queues one after the other is replaying their
      concatenation: the replay keeps arrival order. */
  lemma {:induction false} ReplayAppend(c: WatchConfig, a: seq<Event>, b: seq<Event>)
    ensures Replay(c, a + b) == Replay(c, a) + Replay(c, b)
  {
    if |a| > 0 {
      assert (a + b)[0] == a[0];
      assert (a + b)[1..] == a[1..] + b;
      ReplayAppend(c, a[1..], b);
    } else {
      assert a + b == b;
    }
  }

  /** Replay issues exactly one action per event that gives one. */
  lemma {:induction false} ReplayCount(c: WatchConfig, q: seq<Event>)
    ensures |Replay(c, q)| == Acting(c, q)
  {
    if |q| > 0 {
      ReplayCount(c, q[1..]);
    }
  }

  /** `n` queued writes to one watched file give `n` updates, not one. */
  lemma {:induction false} RepeatedWrites(c: WatchConfig, name: string, n: nat)
    requires HasSuffix(name, c.extension)
    ensures var file := c.watchPath + name;
            Replay(c, seq(n, _ => Event(name, OpWrite)))
              == seq(n, _ => Update(file, Index.GetURIPath(file, c.filePrefix, c.uriPrefix), c.indexPath))
  {
    if n > 0 {
      RepeatedWrites(c, name, n - 1);
      var q := seq(n, _ => Event(name, OpWrite));
      assert q[1..] == seq(n - 1, _ => Event(name, OpWrite));
    }
  }

  /** The queue between two timer fires. */
  datatype State = State(queue: seq<Event>)

  /** What the `select` loop can receive. */
  datatype Input = Raw(event: Event) | TimerFired

  /** One turn of the loop: queue a raw event, or replay and clear the queue
      when the idle timer fires. */
  function Step(c: WatchConfig, s: State, i: Input): (r: (State, seq<Action>))
    ensures r.1 + Replay(c, r.0.queue) == Replay(c, s.queue + (if i.Raw? then [i.event] else []))
    ensures i.Raw? ==> r.1 == [] && |r.0.queue| == |s.queue| + 1
    ensures i.TimerFired? ==> r.0.queue == []
  {
    match i
    case Raw(e) => (State(s.queue + [e]), [])
    case TimerFired =>
      assert s.queue + [] == s.queue;
      (State([]), Replay(c, s.queue))
  }

  /** Run the loop over a sequence of inputs, collecting the actions. */
  function Run(c: WatchConfig, s: State, inputs: seq<Input>): (State, seq<Action>)
    decreases |inputs|
  {
    if |inputs| == 0 then (s, [])
    else
      var first := Step(c, s, inputs[0]);
      var rest := Run(c, first.0, inputs[1..]);
      (rest.0, first.1 + rest.1)
  }

  /** The raw events among the inputs, in order. */
  function Events(inputs: seq<Input>): seq<Event> {
    if |inputs| == 0 then []
    else (if inputs[0].Raw? then [inputs[0].event] else []) + Events(inputs[1..])
  }

  /** No event is lost, duplicated or reordered: the actions issued so far
      followed by the replay of what is still queued are the replay of the
      initial queue followed by every raw event received. */
  lemma {:induction false} RunReplaysEverything(c: WatchConfig, s: State, inputs: seq<Input>)
    ensures var r := Run(c, s, inputs);
            r.1 + Replay(c, r.0.queue) == Replay(c, s.queue + Events(inputs))
    decreases |inputs|
  {
    if |inputs| == 0 {
      assert s.queue + Events(inputs) == s.queue;
    } else {
      var first := Step(c, s, inputs[0]);
      RunReplaysEverything(c, first.0, inputs[1..]);
      if inputs[0].Raw? {
        RawTurn(c, s, inputs);
      } else {
        TimerTurn(c, s, inputs);
      }
    }
  }

  lemma RawTurn(c: WatchConfig, s: State, inputs: seq<Input>)
    requires |inputs| > 0 && inputs[0].Raw?
    requires var q := Step(c, s, inputs[0]).0; var r := Run(c, q, inputs[1..]);
             r.1 + Replay(c, r.0.queue) == Replay(c, q.queue + Events(inputs[1..]))
    ensures var r := Run(c, s, inputs);
            r.1 + Replay(c, r.0.queue) == Replay(c, s.queue + Events(inputs))
  {
    var first := Step(c, s, inputs[0]);
    var rest := Run(c, first.0, inputs[1..]);
    var e := inputs[0].event;
    var later := Events(inputs[1..]);
    assert Run(c, s, inputs) == (rest.0, [] + rest.1);
    assert [] + rest.1 == rest.1;
    assert Events(inputs) == [e] + later;
    AppendAssoc(s.queue, [e], later);
    assert first.0.queue + later == s.queue + Events(inputs);
  }

  lemma TimerTurn(c: WatchConfig, s: State, inputs: seq<Input>)
    requires |inputs| > 0 && inputs[0].TimerFired?
    requires var q := Step(c, s, inputs[0]).0; var r := Run(c, q, inputs[1..]);
             r.1 + Replay(c, r.0.queue) == Replay(c, q.queue + Events(inputs[1..]))
    ensures var r := Run(c, s, inputs);
            r.1 + Replay(c, r.0.queue) == Replay(c, s.queue + Events(inputs))
  {
    var first := Step(c, s, inputs[0]);
    var rest := Run(c, first.0, inputs[1..]);
    assert Run(c, s, inputs) == (rest.0, Replay(c, s.queue) + rest.1);
    assert Events(inputs) == Events(inputs[1..]);
    assert [] + Events(inputs[1..]) == Events(inputs[1..]);
    ReplayAppend(c, s.queue, Events(inputs[1..]));
    AppendAssoc(Replay(c, s.queue), rest.1, Replay(c, rest.0.queue));
  }

  lemma AppendAssoc<T>(a: seq<T>, b: seq<T>, c: seq<T>)
    ensures a + (b + c) == (a + b) + c
  {
  }

  /** From an empty queue, a burst of raw events followed by one timer fire
      issues the replay of the burst and leaves the queue empty. */
  lemma BurstThenTimer(c: WatchConfig, burst: seq<Event>)
    ensures Run(c, State([]), seq(|burst|, i requires 0 <= i < |burst| => Raw(burst[i])) + [TimerFired])
              == (State([]), Replay(c, burst))
  {
    var inputs := seq(|burst|, i requires 0 <= i < |burst| => Raw(burst[i])) + [TimerFired];
    RunReplaysEverything(c, State([]), inputs);
    RunEndsEmpty(c, State([]), inputs);
    EventsOfBurst(burst);
    assert [] + burst == burst;
    var r := Run(c, State([]), inputs);
    assert Replay(c, r.0.queue) == [];
    assert r.1 + [] == r.1;
  }

  /** After a timer fire as the last input, the queue is empty. */
  lemma {:induction false} RunEndsEmpty(c: WatchConfig, s: State, inputs: seq<Input>)
    requires |inputs| > 0 && inputs[|inputs| - 1] == TimerFired
    ensures Run(c, s, inputs).0.queue == []
    decreases |inputs|
  {
    if |inputs| > 1 {
      RunEndsEmpty(c, Step(c, s, inputs[0]).0, inputs[1..]);
    }
  }

  lemma {:induction false} EventsOfBurst(burst: seq<Event>)
    ensures Events(seq(|burst|, i requires 0 <= i < |burst| => Raw(burst[i])) + [TimerFired]) == burst
    decreases |burst|
  {
    var inputs := seq(|burst|, i requires 0 <= i < |burst| => Raw(burst[i])) + [TimerFired];
    if |burst| == 0 {
      assert inputs == [TimerFired];
      assert inputs[1..] == [];
    } else {
      EventsOfBurst(burst[1..]);
      assert inputs[1..] == seq(|burst[1..]|, i requires 0 <= i < |burst[1..]| => Raw(burst[1..][i])) + [TimerFired];
      assert burst == [burst[0]] + burst[1..];
    }
  }
}
