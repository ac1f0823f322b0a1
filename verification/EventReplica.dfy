/**
 The ordered event stream: the sequencer that numbers events and replays a bounded window of them,
 and a client that follows the cursor classification. A daemon lifetime is an epoch; epochs are
 numbered in the order in which daemons start.
 */
module EventReplica {
  import opened Common

  datatype Cursor = Cursor(epoch: nat, sequence: u64)

  datatype Disposition = Apply | Stale | FullSnapshotRequired

  function CheckedNext(sequence: u64): Option<u64> {
    if sequence < U64_MAX then Some(sequence + 1) else None
  }

  function ClassifyCursor(current: Cursor, incoming: Cursor): Disposition {
    if current.epoch != incoming.epoch then FullSnapshotRequired
    else if incoming.sequence <= current.sequence then Stale
    else if CheckedNext(current.sequence) == Some(incoming.sequence) then Apply
    else FullSnapshotRequired
  }

  // ----- A client among daemons that restart -----

  /** One log per epoch, each from its own starting state; event number `n` is entry `n - 1`. */
  datatype Epoch<S, E> = Epoch(initial: S, log: seq<E>)

  datatype Client<S> = Client(cursor: Cursor, state: S, applied: seq<Cursor>)

  datatype World<S, E> = World(epochs: seq<Epoch<S, E>>, client: Client<S>)

  /** What can happen next: any published event may arrive, at any time and any number of times. */
  datatype Happening<S, E> = Publish(event: E) | DaemonRestarts(initial: S) | Arrives(cursor: Cursor)

  ghost function Fold<S, E>(apply: (S, E) -> S, initial: S, events: seq<E>): S {
    if events == [] then initial
    else apply(Fold(apply, initial, events[..|events| - 1]), events[|events| - 1])
  }

  ghost predicate Published<S, E>(epochs: seq<Epoch<S, E>>, c: Cursor) {
    c.epoch < |epochs| && 1 <= c.sequence <= |epochs[c.epoch].log|
  }

  /** The authoritative state of the running daemon. */
  ghost function Snapshot<S, E>(apply: (S, E) -> S, epochs: seq<Epoch<S, E>>, applied: seq<Cursor>): Client<S>
    requires epochs != [] && |epochs[|epochs| - 1].log| <= U64_MAX
  {
    var last := |epochs| - 1;
    Client(Cursor(last, |epochs[last].log|), Fold(apply, epochs[last].initial, epochs[last].log), applied)
  }

  ghost predicate WellFormed<S, E>(w: World<S, E>) {
    w.epochs != [] && forall k :: 0 <= k < |w.epochs| ==> |w.epochs[k].log| <= U64_MAX
  }

  ghost function Next<S, E>(apply: (S, E) -> S, w: World<S, E>, h: Happening<S, E>): World<S, E>
    requires WellFormed(w)
  {
    var last := |w.epochs| - 1;
    match h
    case Publish(event) =>
      // An exhausted epoch publishes nothing more.
      if |w.epochs[last].log| == U64_MAX then w
      else w.(epochs := w.epochs[last := w.epochs[last].(log := w.epochs[last].log + [event])])
    case DaemonRestarts(initial) => w.(epochs := w.epochs + [Epoch(initial, [])])
    case Arrives(c) =>
      if !Published(w.epochs, c) then w
      else
        match ClassifyCursor(w.client.cursor, c)
        case Stale => w
        case FullSnapshotRequired => w.(client := Snapshot(apply, w.epochs, w.client.applied))
        case Apply =>
          var event := w.epochs[c.epoch].log[c.sequence - 1];
          w.(client := Client(c, apply(w.client.state, event), w.client.applied + [c]))
  }

  ghost predicate Before(a: Cursor, b: Cursor) {
    a.epoch < b.epoch || (a.epoch == b.epoch && a.sequence < b.sequence)
  }

  ghost predicate NotAfter(a: Cursor, b: Cursor) {
    a == b || Before(a, b)
  }

  /** The client holds the fold of a prefix of its epoch's log, and has applied events in order, each once. */
  ghost predicate Inv<S, E>(apply: (S, E) -> S, w: World<S, E>) {
    && WellFormed(w)
    && var c := w.client.cursor;
       && c.epoch < |w.epochs| && c.sequence <= |w.epochs[c.epoch].log|
       && w.client.state == Fold(apply, w.epochs[c.epoch].initial, w.epochs[c.epoch].log[..c.sequence])
       && (forall k :: 0 <= k < |w.client.applied| ==> NotAfter(w.client.applied[k], c))
       && (forall i, j :: 0 <= i < j < |w.client.applied| ==> Before(w.client.applied[i], w.client.applied[j]))
  }

  /** Every happening keeps the invariant, and the cursor never moves back. */
  lemma NextKeepsInv<S, E>(apply: (S, E) -> S, w: World<S, E>, h: Happening<S, E>)
    requires Inv(apply, w)
    ensures Inv(apply, Next(apply, w, h)) && NotAfter(w.client.cursor, Next(apply, w, h).client.cursor)
  {
    match h
    case Publish(event) => PublishKeepsInv(apply, w, event);
    case DaemonRestarts(initial) =>
    case Arrives(c) => ArrivalKeepsInv(apply, w, c);
  }

  lemma PublishKeepsInv<S, E>(apply: (S, E) -> S, w: World<S, E>, event: E)
    requires Inv(apply, w)
    ensures Inv(apply, Next(apply, w, Publish(event)))
  {
    var last, c := |w.epochs| - 1, w.client.cursor;
    var log := w.epochs[last].log;
    if c.epoch == last && |log| < U64_MAX {
      assert (log + [event])[..c.sequence] == log[..c.sequence];
    }
  }

  lemma ArrivalKeepsInv<S, E>(apply: (S, E) -> S, w: World<S, E>, c: Cursor)
    requires Inv(apply, w)
    ensures Inv(apply, Next(apply, w, Arrives(c)))
    ensures NotAfter(w.client.cursor, Next(apply, w, Arrives(c)).client.cursor)
  {
    if Published(w.epochs, c) {
      var current := w.client.cursor;
      var log := w.epochs[c.epoch].log;
      match ClassifyCursor(current, c)
      case Stale =>
      case Apply =>
        assert log[..c.sequence][..current.sequence] == log[..current.sequence];
      case FullSnapshotRequired =>
        var last := |w.epochs| - 1;
        assert w.epochs[last].log[..|w.epochs[last].log|] == w.epochs[last].log;
    }
  }

  /** An arrival is stale when the client's prefix holds it, applied when it is what that prefix lacks next. */
  lemma DispositionIsExact<S, E>(apply: (S, E) -> S, w: World<S, E>, c: Cursor)
    requires Inv(apply, w) && Published(w.epochs, c)
    ensures var current, log := w.client.cursor, w.epochs[c.epoch].log;
      var disposition := ClassifyCursor(current, c);
      && (disposition == Stale <==> c.epoch == current.epoch && log[..c.sequence] <= log[..current.sequence])
      && (disposition == Apply <==>
          c.epoch == current.epoch && log[..c.sequence] == log[..current.sequence] + [log[c.sequence - 1]])
  {
    var current, log := w.client.cursor, w.epochs[c.epoch].log;
    if c.epoch == current.epoch {
      if c.sequence <= current.sequence {
        assert log[..current.sequence][..c.sequence] == log[..c.sequence];
      }
      if log[..c.sequence] == log[..current.sequence] + [log[c.sequence - 1]] {
        assert |log[..c.sequence]| == current.sequence + 1;
      }
    }
  }

  /** The same arrival twice in a row is the same as once. */
  lemma ArrivalIsIdempotent<S, E>(apply: (S, E) -> S, w: World<S, E>, c: Cursor)
    requires Inv(apply, w)
    ensures Inv(apply, Next(apply, w, Arrives(c)))
    ensures Next(apply, Next(apply, w, Arrives(c)), Arrives(c)) == Next(apply, w, Arrives(c))
  {
    NextKeepsInv(apply, w, Arrives(c));
  }

  ghost function Run<S, E>(apply: (S, E) -> S, w: World<S, E>, hs: seq<Happening<S, E>>): (r: World<S, E>)
    requires Inv(apply, w)
    ensures Inv(apply, r)
    decreases |hs|
  {
    if hs == [] then w
    else
      NextKeepsInv(apply, w, hs[0]);
      Run(apply, Next(apply, w, hs[0]), hs[1..])
  }

  /** A daemon has started and the client holds its empty history. */
  ghost function StartWorld<S, E>(apply: (S, E) -> S, initial: S): (w: World<S, E>)
    ensures Inv(apply, w)
  {
    World([Epoch(initial, [])], Client(Cursor(0, 0), initial, []))
  }

  lemma NotAfterTransitive(a: Cursor, b: Cursor, c: Cursor)
    requires NotAfter(a, b) && NotAfter(b, c)
    ensures NotAfter(a, c)
  {
  }

  lemma {:induction false} CursorNeverMovesBack<S, E>(apply: (S, E) -> S, w: World<S, E>, hs: seq<Happening<S, E>>)
    requires Inv(apply, w)
    ensures NotAfter(w.client.cursor, Run(apply, w, hs).client.cursor)
    decreases |hs|
  {
    if hs != [] {
      NextKeepsInv(apply, w, hs[0]);
      var next := Next(apply, w, hs[0]);
      CursorNeverMovesBack(apply, next, hs[1..]);
      NotAfterTransitive(w.client.cursor, next.client.cursor, Run(apply, w, hs).client.cursor);
    }
  }

  /**
   Under any loss, duplication, reordering and daemon restarts, the client holds the fold of a prefix
   of the log of the epoch its cursor names, and no event has been applied twice.
   */
  lemma ReplicaIsSafe<S, E>(apply: (S, E) -> S, initial: S, hs: seq<Happening<S, E>>)
    ensures var w := Run(apply, StartWorld(apply, initial), hs);
      var c := w.client.cursor;
      && c.epoch < |w.epochs| && c.sequence <= |w.epochs[c.epoch].log|
      && w.client.state == Fold(apply, w.epochs[c.epoch].initial, w.epochs[c.epoch].log[..c.sequence])
      && forall i, j :: 0 <= i < j < |w.client.applied| ==> w.client.applied[i] != w.client.applied[j]
  {
    var w := Run(apply, StartWorld(apply, initial), hs);
    forall i, j | 0 <= i < j < |w.client.applied|
      ensures w.client.applied[i] != w.client.applied[j]
    {
      assert Before(w.client.applied[i], w.client.applied[j]);
    }
  }

  /** The arrival of the running daemon's newest event always leaves the client up to date. */
  lemma NewestEventCatchesUp<S, E>(apply: (S, E) -> S, w: World<S, E>)
    requires Inv(apply, w)
    ensures var last := |w.epochs| - 1;
      var log := w.epochs[last].log;
      log != [] ==>
        var after := Next(apply, w, Arrives(Cursor(last, |log|))).client;
        after.cursor == Cursor(last, |log|) && after.state == Fold(apply, w.epochs[last].initial, log)
  {
    var last := |w.epochs| - 1;
    var log := w.epochs[last].log;
    if log != [] {
      ArrivalKeepsInv(apply, w, Cursor(last, |log|));
      assert log[..|log|] == log;
    }
  }

  // ----- The sequencer and its replay window -----

  datatype Sequenced<E> = Sequenced(cursor: Cursor, event: E)

  datatype Delivery = Accepted | Full | Closed

  datatype PublishResult<E> =
    | At(cursor: Cursor)
    | SequenceExhausted(event: E)
    | Backpressure(event: E)
    | ProjectorClosed(event: E)

  class EventSequencer<E(==)> {
    const epoch: nat
    const replayCapacity: nat
    var current: u64
    var replay: seq<Sequenced<E>>
    ghost var start: nat       // sequence number before the first event of this sequencer
    ghost var log: seq<E>      // everything it has published

    /** The window holds the last events of the log, under consecutive numbers. */
    ghost predicate Valid()
      reads this
    {
      && current == start + |log| && 0 < replayCapacity && |replay| <= |log|
      && |replay| == (if |log| <= replayCapacity then |log| else replayCapacity)
      && forall i :: 0 <= i < |replay| ==>
        replay[i] == Sequenced(Cursor(epoch, current - |replay| + 1 + i), log[|log| - |replay| + i])
    }

    constructor Resume(cursor: Cursor, capacity: nat)
      requires capacity > 0
      ensures Valid() && epoch == cursor.epoch && current == cursor.sequence && start == cursor.sequence
      ensures log == [] && replayCapacity == capacity
    {
      epoch, replayCapacity, current, replay := cursor.epoch, capacity, cursor.sequence, [];
      start, log := cursor.sequence, [];
    }

    /** A window without room is refused; any other starts empty at the cursor. */
    static method NewAt(cursor: Cursor, capacity: nat) returns (r: Option<EventSequencer<E>>)
      ensures r.None? <==> capacity == 0
      ensures r.Some? ==>
        var s := r.value;
        && fresh(s) && s.Valid() && s.epoch == cursor.epoch
        && s.current == cursor.sequence && s.start == cursor.sequence
        && s.log == [] && s.replayCapacity == capacity
    {
      if capacity == 0 {
        return None;
      }
      var s := new EventSequencer.Resume(cursor, capacity);
      r := Some(s);
    }

    /** A number is consumed only when the projector accepts the event. */
    method TryPublish(event: E, delivery: Delivery) returns (r: PublishResult<E>)
      requires Valid()
      modifies `current, `replay, `log
      ensures Valid()
      ensures log == if old(current) < U64_MAX && delivery == Accepted then old(log) + [event] else old(log)
      ensures r ==
        if old(current) == U64_MAX then SequenceExhausted(event)
        else if delivery == Accepted then At(Cursor(epoch, old(current) + 1))
        else if delivery == Full then Backpressure(event)
        else ProjectorClosed(event)
    {
      if current == U64_MAX {
        return SequenceExhausted(event);
      }
      var cursor := Cursor(epoch, current + 1);
      if delivery == Full {
        return Backpressure(event);
      }
      if delivery == Closed {
        return ProjectorClosed(event);
      }
      current := current + 1;
      log := log + [event];
      replay := replay + [Sequenced(cursor, event)];
      while |replay| > replayCapacity
        invariant current == old(current) + 1 && log == old(log) + [event]
        invariant |replay| <= |log| && |replay| >= (if |log| <= replayCapacity then |log| else replayCapacity)
        invariant forall i :: 0 <= i < |replay| ==>
          replay[i] == Sequenced(Cursor(epoch, current - |replay| + 1 + i), log[|log| - |replay| + i])
      {
        replay := replay[1..];
      }
      return At(cursor);
    }

    /** First window index whose number exceeds `sequence`. */
    method LowerBound(sequence: u64) returns (low: nat)
      requires Valid()
      ensures low <= |replay|
      ensures forall i :: 0 <= i < low ==> replay[i].cursor.sequence <= sequence
      ensures forall i :: low <= i < |replay| ==> replay[i].cursor.sequence > sequence
    {
      low := 0;
      var high := |replay|;
      while low < high
        invariant 0 <= low <= high <= |replay|
        invariant forall i :: 0 <= i < low ==> replay[i].cursor.sequence <= sequence
        invariant forall i :: high <= i < |replay| ==> replay[i].cursor.sequence > sequence
      {
        var middle := low + (high - low) / 2;
        if replay[middle].cursor.sequence <= sequence {
          low := middle + 1;
        } else {
          high := middle;
        }
      }
    }

    /** The events after a cursor, all of them and nothing else, or nothing when the window cannot tell. */
    method ReplayAfter(cursor: Cursor) returns (r: Option<seq<Sequenced<E>>>)
      requires Valid()
      ensures r.Some? <==> cursor.epoch == epoch && current - |replay| <= cursor.sequence <= current
      ensures r.Some? ==>
        && |r.value| == current - cursor.sequence
        && forall i :: 0 <= i < |r.value| ==>
          r.value[i] == Sequenced(Cursor(epoch, cursor.sequence + 1 + i), log[cursor.sequence - start + i])
    {
      if cursor.epoch != epoch || cursor.sequence > current {
        return None;
      }
      if cursor.sequence == current {
        return Some([]);
      }
      if replay == [] {
        return None;
      }
      var first := replay[0].cursor.sequence;
      if cursor.sequence + 1 < first {
        return None;
      }
      var index := LowerBound(cursor.sequence);
      assert index == cursor.sequence - (current - |replay|) by {
        assert index < |replay| ==> replay[index].cursor.sequence > cursor.sequence;
        assert index > 0 ==> replay[index - 1].cursor.sequence <= cursor.sequence;
        assert replay[|replay| - 1].cursor.sequence == current;
      }
      r := Some(replay[index..]);
    }
  }

  /** A client that takes in a replay, entry by entry, as the classification tells it. */
  ghost function TakeIn<S, E>(apply: (S, E) -> S, cursor: Cursor, state: S, entries: seq<Sequenced<E>>): (Cursor, S)
    decreases |entries|
  {
    if entries == [] || ClassifyCursor(cursor, entries[0].cursor) != Apply then (cursor, state)
    else TakeIn(apply, entries[0].cursor, apply(state, entries[0].event), entries[1..])
  }

  /** A replay is taken in whole: every entry applies, and the client ends at the sequencer's position. */
  lemma {:induction false} ReplayAppliesWhole<S, E>(apply: (S, E) -> S, cursor: Cursor, initial: S, log: seq<E>,
                                                    start: nat,
                                                    entries: seq<Sequenced<E>>)
    requires start <= cursor.sequence <= start + |log| && start + |log| <= U64_MAX
    requires |entries| == start + |log| - cursor.sequence
    requires forall i :: 0 <= i < |entries| ==>
      entries[i] == Sequenced(Cursor(cursor.epoch, cursor.sequence + 1 + i), log[cursor.sequence - start + i])
    ensures TakeIn(apply, cursor, Fold(apply, initial, log[..cursor.sequence - start]), entries)
      == (Cursor(cursor.epoch, start + |log|), Fold(apply, initial, log))
    decreases |entries|
  {
    var n := cursor.sequence - start;
    if entries == [] {
      assert log[..n] == log;
    } else {
      var next, rest := Cursor(cursor.epoch, cursor.sequence + 1), entries[1..];
      assert log[..n + 1][..n] == log[..n];
      assert entries[0] == Sequenced(next, log[n]);
      assert forall i :: 0 <= i < |rest| ==> rest[i] == entries[i + 1];
      ReplayAppliesWhole(apply, next, initial, log, start, rest);
    }
  }
}
