/** `tls_proxy_session`: two double-buffered asynchronous writers, one towards the client and
    one towards the server, and the shutdown of the session.  All handlers run on one strand,
    so an execution is a sequence of events. */
module TlsProxy {
  type byte = bv8

  // ---------- One direction ----------

  /** `inFlight` is the buffer handed to the running write, `pending` what has been emitted
      since.  `writes` are the writes started and not completed, each with the bytes it was
      started with.  `emitted` and `delivered` are the history. */
  datatype Writer = Writer(
    inFlight: seq<byte>, pending: seq<byte>, writes: seq<seq<byte>>,
    emitted: seq<byte>, delivered: seq<byte>, failed: bool)

  const IDLE := Writer([], [], [], [], [], false)

  /** Start a write if none is active and there is something to send. */
  function Start(w: Writer): Writer {
    if w.inFlight == [] && w.pending != [] then
      w.(inFlight := w.pending, pending := [], writes := w.writes + [w.pending])
    else w
  }

  function Emit(w: Writer, buf: seq<byte>): Writer {
    Start(w.(pending := w.pending + buf, emitted := w.emitted + buf))
  }

  /** A successful completion, before a further write is started. */
  function Complete(w: Writer): Writer
    requires w.writes != []
  {
    w.(delivered := w.delivered + w.writes[0], writes := w.writes[1..], inFlight := [])
  }

  function Fail(w: Writer): Writer
    requires w.writes != []
  {
    w.(writes := w.writes[1..], failed := true)
  }

  /** No byte is lost, duplicated or reordered; at most one write is outstanding and its buffer
      is what it was started with; and data never waits without a write to wait for. */
  predicate Sound(w: Writer) {
    && w.delivered + w.inFlight + w.pending == w.emitted
    && |w.writes| <= 1
    && (w.writes != [] ==> w.writes[0] == w.inFlight)
    && (!w.failed ==> (w.writes == [] <==> w.inFlight == []))
    && (!w.failed && w.pending != [] ==> w.writes != [])
    && (w.failed ==> w.writes == [] && w.inFlight != [])
  }

  lemma EmitNothing(w: Writer)
    ensures Emit(w, []) == Start(w)
  {
    assert w.pending + [] == w.pending && w.emitted + [] == w.emitted;
  }

  lemma EmitSound(w: Writer, buf: seq<byte>)
    requires Sound(w)
    ensures Sound(Emit(w, buf))
    ensures Emit(w, buf).emitted == w.emitted + buf && Emit(w, buf).delivered == w.delivered
  {
    var v := Emit(w, buf);
    assert w.delivered + w.inFlight + (w.pending + buf) == w.emitted + buf;
    if w.inFlight == [] && w.pending + buf != [] {
      assert v.delivered + v.inFlight + v.pending == w.delivered + w.inFlight + (w.pending + buf);
    }
  }

  lemma CompleteSound(w: Writer)
    requires Sound(w) && w.writes != []
    ensures Sound(Start(Complete(w)))
    ensures Start(Complete(w)).delivered == w.delivered + w.inFlight
    ensures w.pending == [] ==> Complete(w).delivered == w.emitted
  {
    var c := Complete(w);
    var v := Start(c);
    assert c.delivered + c.inFlight + c.pending == w.delivered + w.inFlight + w.pending;
    assert v.delivered + v.inFlight + v.pending == c.delivered + c.inFlight + c.pending;
  }

  // ---------- The session ----------

  datatype Tls = Active | Closed | Gone

  datatype Session = Session(
    client: Writer, server: Writer, tls: Tls, isClosed: bool, clientOpen: bool, serverOpen: bool)

  /** The bytes carried by `Stop`, `CloseNotify` and the failed completions are what the TLS
      object emits when it is closed, if it is closed by that event. */
  datatype Event =
    | EmitToClient(data: seq<byte>)
    | RecordForServer(data: seq<byte>)
    | ClientWritten(ok: bool, closing: seq<byte>)
    | ServerWritten(ok: bool, closing: seq<byte>)
    | CloseNotify(closing: seq<byte>)
    | Stop(closing: seq<byte>)

  const INITIAL := Session(IDLE, IDLE, Active, false, true, true)

  /** Only a live TLS object emits or delivers records; only a started write completes. */
  predicate Enabled(s: Session, e: Event) {
    match e
    case EmitToClient(_) => s.tls != Gone
    case RecordForServer(_) => s.tls != Gone
    case CloseNotify(_) => s.tls != Gone
    case ClientWritten(_, _) => s.client.writes != []
    case ServerWritten(_, _) => s.server.writes != []
    case Stop(_) => true
  }

  function Stopped(s: Session, closing: seq<byte>): Session {
    if s.isClosed then s
    else s.(serverOpen := false, client := Emit(s.client, closing), tls := Gone, isClosed := true)
  }

  function Step(s: Session, e: Event): Session
    requires Enabled(s, e)
  {
    match e
    case EmitToClient(data) => s.(client := Emit(s.client, data))
    case RecordForServer(data) => s.(server := Emit(s.server, data))
    case CloseNotify(closing) => s.(client := Emit(s.client, closing), tls := Closed)
    case Stop(closing) => Stopped(s, closing)
    case ServerWritten(ok, closing) =>
      if ok then s.(server := Start(Complete(s.server)))
      else Stopped(s.(server := Fail(s.server)), closing)
    case ClientWritten(ok, closing) =>
      if ok then
        var c := Complete(s.client);
        s.(client := Start(c), clientOpen := s.clientOpen && !(c.pending == [] && s.tls != Active))
      else Stopped(s.(client := Fail(s.client)), closing)
  }

  /** Both writers are sound, and a failed write has stopped the session. */
  predicate Invariant(s: Session) {
    && Sound(s.client) && Sound(s.server)
    && (s.isClosed <==> s.tls == Gone) && (s.isClosed ==> !s.serverOpen)
    && (s.client.failed || s.server.failed ==> s.isClosed)
  }

  lemma StoppedInvariant(s: Session, closing: seq<byte>)
    requires Sound(s.client) && Sound(s.server) && (s.isClosed <==> s.tls == Gone) && (s.isClosed ==> !s.serverOpen)
    ensures Invariant(Stopped(s, closing))
  {
    EmitSound(s.client, closing);
  }

  lemma StepInvariant(s: Session, e: Event)
    requires Invariant(s) && Enabled(s, e)
    ensures Invariant(Step(s, e))
  {
    match e
    case EmitToClient(data) => EmitSound(s.client, data);
    case RecordForServer(data) => EmitSound(s.server, data);
    case CloseNotify(closing) => EmitSound(s.client, closing);
    case Stop(closing) => StoppedInvariant(s, closing);
    case ServerWritten(ok, closing) =>
      if ok {
        CompleteSound(s.server);
      } else {
        StoppedInvariant(s.(server := Fail(s.server)), closing);
      }
    case ClientWritten(ok, closing) =>
      if ok {
        CompleteSound(s.client);
      } else {
        StoppedInvariant(s.(client := Fail(s.client)), closing);
      }
  }

  // ---------- Runs ----------

  predicate Possible(s: Session, events: seq<Event>)
    decreases |events|
  {
    events == [] || (Enabled(s, events[0]) && Possible(Step(s, events[0]), events[1..]))
  }

  function Run(s: Session, events: seq<Event>): Session
    requires Possible(s, events)
    decreases |events|
  {
    if events == [] then s else Run(Step(s, events[0]), events[1..])
  }

  lemma {:induction false} RunInvariant(s: Session, events: seq<Event>)
    requires Invariant(s) && Possible(s, events)
    ensures Invariant(Run(s, events))
    decreases |events|
  {
    if events != [] {
      StepInvariant(s, events[0]);
      RunInvariant(Step(s, events[0]), events[1..]);
    }
  }

  /** In every reachable state both directions are sound. */
  lemma Reachable(events: seq<Event>)
    requires Possible(INITIAL, events)
    ensures Invariant(Run(INITIAL, events))
  {
    RunInvariant(INITIAL, events);
  }

  /** The bytes one event emits towards the client: a close that is skipped emits none. */
  function EmittedAt(s: Session, e: Event): seq<byte> {
    match e
    case EmitToClient(data) => data
    case RecordForServer(_) => []
    case CloseNotify(closing) => closing
    case Stop(closing) => if s.isClosed then [] else closing
    case ServerWritten(ok, closing) => if ok || s.isClosed then [] else closing
    case ClientWritten(ok, closing) => if ok || s.isClosed then [] else closing
  }

  function EmittedBy(s: Session, events: seq<Event>): seq<byte>
    requires Possible(s, events)
    decreases |events|
  {
    if events == [] then [] else EmittedAt(s, events[0]) + EmittedBy(Step(s, events[0]), events[1..])
  }

  /** The history is the real one: over any run the client has been delivered a prefix of all
      that was emitted to it, in order, and the rest is buffered. */
  lemma Conservation(s: Session, events: seq<Event>)
    requires Invariant(s) && Possible(s, events)
    ensures var t := Run(s, events);
      && s.client.emitted + EmittedBy(s, events) == t.client.emitted
      && t.client.delivered + t.client.inFlight + t.client.pending == s.client.emitted + EmittedBy(s, events)
  {
    RunInvariant(s, events);
    EmittedIs(s, events);
  }

  lemma {:induction false} EmittedIs(s: Session, events: seq<Event>)
    requires Possible(s, events)
    ensures Run(s, events).client.emitted == s.client.emitted + EmittedBy(s, events)
    decreases |events|
  {
    hide Step;
    if events != [] {
      StepEmits(s, events[0]);
      EmittedIs(Step(s, events[0]), events[1..]);
    } else {
      assert s.client.emitted + [] == s.client.emitted;
    }
  }

  lemma StepEmits(s: Session, e: Event)
    requires Enabled(s, e)
    ensures Step(s, e).client.emitted == s.client.emitted + EmittedAt(s, e)
  {
    assert s.client.emitted + [] == s.client.emitted;
  }

  function RecordedBy(events: seq<Event>): seq<byte> {
    if events == [] then []
    else (if events[0].RecordForServer? then events[0].data else []) + RecordedBy(events[1..])
  }

  /** The same towards the server. */
  lemma {:induction false} ServerConservation(s: Session, events: seq<Event>)
    requires Invariant(s) && Possible(s, events)
    ensures var t := Run(s, events);
      t.server.delivered + t.server.inFlight + t.server.pending == s.server.emitted + RecordedBy(events)
    decreases |events|
  {
    if events != [] {
      StepInvariant(s, events[0]);
      ServerConservation(Step(s, events[0]), events[1..]);
      StepRecords(s, events[0]);
    } else {
      assert s.server.emitted + [] == s.server.emitted;
    }
  }

  lemma StepRecords(s: Session, e: Event)
    requires Enabled(s, e)
    ensures Step(s, e).server.emitted == s.server.emitted + if e.RecordForServer? then e.data else []
  {
    assert s.server.emitted + [] == s.server.emitted;
  }

  // ---------- Closing ----------

  /** The client socket is closed only by a completion handler, and then every byte emitted to
      the client, the closing bytes included, has been delivered. */
  lemma ClosedAfterDelivery(s: Session, e: Event)
    requires Invariant(s) && Enabled(s, e) && s.clientOpen && !Step(s, e).clientOpen
    ensures e.ClientWritten? && e.ok && s.tls != Active
    ensures var t := Step(s, e); t.client.delivered == t.client.emitted && t.client.writes == []
  {
    CompleteSound(s.client);
  }

  /** The number of successful client writes in a run. */
  function Completions(events: seq<Event>): nat {
    if events == [] then 0 else (if events[0].ClientWritten? then 1 else 0) + Completions(events[1..])
  }

  predicate ClientWritesSucceed(events: seq<Event>) {
    forall i :: 0 <= i < |events| && events[i].ClientWritten? ==> events[i].ok
  }

  /** How many completions a stopped session needs before it closes the client socket. */
  function Needed(w: Writer): nat {
    if w.pending == [] then 1 else 2
  }

  /** An event that is no client completion and emits nothing leaves the client side alone. */
  lemma QuietStep(s: Session, e: Event)
    requires Invariant(s) && Enabled(s, e) && s.tls != Active && !e.ClientWritten? && EmittedAt(s, e) == []
    ensures var t := Step(s, e); t.client == s.client && t.clientOpen == s.clientOpen && t.tls != Active
  {
    assert s.client.pending + [] == s.client.pending && s.client.emitted + [] == s.client.emitted;
  }

  /** Once TLS is closed, with a write outstanding, nothing more emitted and client writes
      succeeding, the socket is open until exactly the needed completion, the first or the
      second, and closed from then on. */
  lemma {:induction false} ClosesWhenQuiet(s: Session, events: seq<Event>)
    requires Invariant(s) && s.tls != Active && s.clientOpen && s.client.writes != []
    requires Possible(s, events) && ClientWritesSucceed(events) && EmittedBy(s, events) == []
    ensures Run(s, events).clientOpen <==> Completions(events) < Needed(s.client)
    decreases |events|
  {
    if events != [] {
      var e := events[0];
      var t := Step(s, e);
      StepInvariant(s, e);
      assert forall i :: 0 <= i < |events[1..]| ==> events[1..][i] == events[i + 1];
      if !e.ClientWritten? {
        QuietStep(s, e);
        ClosesWhenQuiet(t, events[1..]);
      } else if s.client.pending == [] {
        StaysWhenQuiet(t, events[1..]);
      } else {
        ClosesWhenQuiet(t, events[1..]);
      }
    }
  }

  /** With no write outstanding and nothing more emitted, the client socket never changes again:
      if it is still open then, no handler closes it. */
  lemma {:induction false} StaysWhenQuiet(s: Session, events: seq<Event>)
    requires Invariant(s) && s.tls != Active && s.client.writes == []
    requires Possible(s, events) && EmittedBy(s, events) == []
    ensures Run(s, events).clientOpen == s.clientOpen && Completions(events) == 0
    decreases |events|
  {
    if events != [] {
      StepInvariant(s, events[0]);
      QuietStep(s, events[0]);
      StaysWhenQuiet(Step(s, events[0]), events[1..]);
    }
  }

  /** A stopped session emits nothing more. */
  lemma {:induction false} StoppedIsQuiet(s: Session, events: seq<Event>)
    requires Invariant(s) && s.isClosed && Possible(s, events)
    ensures EmittedBy(s, events) == []
    decreases |events|
  {
    if events != [] {
      StepInvariant(s, events[0]);
      StoppedIsQuiet(Step(s, events[0]), events[1..]);
    }
  }

  /** So after stop, with a write outstanding and client writes succeeding, the socket closes
      with the first or the second completion. */
  lemma ClosesAfterStop(s: Session, events: seq<Event>)
    requires Invariant(s) && s.isClosed && s.clientOpen && s.client.writes != []
    requires Possible(s, events) && ClientWritesSucceed(events)
    ensures Run(s, events).clientOpen <==> Completions(events) < Needed(s.client)
  {
    StoppedIsQuiet(s, events);
    ClosesWhenQuiet(s, events);
  }

  /** With no write outstanding, a stopped session never changes its client socket again. */
  lemma StaysAsItIs(s: Session, events: seq<Event>)
    requires Invariant(s) && s.isClosed && s.client.writes == [] && Possible(s, events)
    ensures Run(s, events).clientOpen == s.clientOpen && Completions(events) == 0
  {
    StoppedIsQuiet(s, events);
    StaysWhenQuiet(s, events);
  }

  /** After the close-notify of the client, as long as nothing more is emitted to it and writes
      succeed, the handlers close the client socket if and only if something was left to send,
      the closing bytes included: with the first or the second completion. */
  lemma ClosesAfterCloseNotify(s: Session, closing: seq<byte>, events: seq<Event>)
    requires Invariant(s) && s.tls != Gone && s.clientOpen
    requires var t := Step(s, CloseNotify(closing));
      Possible(t, events) && ClientWritesSucceed(events) && EmittedBy(t, events) == []
    requires s.client.inFlight != [] || closing != [] ==> Completions(events) >= 2
    ensures !Run(Step(s, CloseNotify(closing)), events).clientOpen <==> s.client.inFlight != [] || closing != []
  {
    var t := Step(s, CloseNotify(closing));
    StepInvariant(s, CloseNotify(closing));
    assert t.client.writes != [] <==> s.client.inFlight != [] || closing != [];
    hide Step, Invariant, Run, Possible, EmittedBy;
    if t.client.writes != [] {
      ClosesWhenQuiet(t, events);
    } else {
      StaysWhenQuiet(t, events);
    }
  }

  /** The events that stop a session: a call of stop, or the completion of a failed write. */
  predicate Stops(s: Session, e: Event)
    requires Enabled(s, e)
  {
    !s.isClosed && Step(s, e).isClosed
  }

  /** A session is stopped with a write outstanding exactly when it was not stopped by a failed
      client write and there was something left to send, the closing bytes included. */
  lemma OutstandingAfterStop(s: Session, e: Event)
    requires Invariant(s) && Enabled(s, e) && Stops(s, e)
    ensures e.Stop? || e.ServerWritten? || e.ClientWritten?
    ensures Step(s, e).client.writes != [] <==> !e.ClientWritten? && (s.client.inFlight != [] || e.closing != [])
  {
  }

  /** So however a session is stopped, its handlers close the client socket, writes succeeding,
      if and only if that condition holds. */
  lemma ClosesIffWriteOutstanding(s: Session, e: Event, events: seq<Event>)
    requires Invariant(s) && s.clientOpen && Enabled(s, e) && Stops(s, e)
    requires var t := Step(s, e); Possible(t, events) && ClientWritesSucceed(events)
    requires Step(s, e).client.writes != [] ==> Completions(events) >= 2
    ensures e.Stop? || e.ServerWritten? || e.ClientWritten?
    ensures !Run(Step(s, e), events).clientOpen <==> !e.ClientWritten? && (s.client.inFlight != [] || e.closing != [])
  {
    var t := Step(s, e);
    OutstandingAfterStop(s, e);
    StepInvariant(s, e);
    StopsOpen(s, e);
    hide Step, Invariant, Run, Possible;
    if t.client.writes != [] {
      ClosesAfterStop(t, events);
    } else {
      StaysAsItIs(t, events);
    }
  }

  /** Stopping does not itself close the client socket. */
  lemma StopsOpen(s: Session, e: Event)
    requires Enabled(s, e) && Stops(s, e)
    ensures Step(s, e).isClosed && Step(s, e).clientOpen == s.clientOpen
  {
  }

  // ---------- Failed writes ----------

  /** A writer before and after its write has failed, when `more` is emitted on the way. */
  predicate Silenced(before: Writer, after: Writer, more: seq<byte>) {
    && after.failed && after.writes == [] && after.delivered == before.delivered
    && after.inFlight == before.inFlight && after.pending == before.pending + more
  }

  /** A failed write delivers nothing, leaves what was to be sent where it is, and starts no
      further write. */
  lemma FailedWrite(s: Session, e: Event)
    requires Invariant(s) && Enabled(s, e) && (e.ServerWritten? || e.ClientWritten?) && !e.ok
    ensures var t := Step(s, e);
      && t.isClosed && t.client.delivered == s.client.delivered && t.server.delivered == s.server.delivered
      && (e.ServerWritten? ==> Silenced(s.server, t.server, []))
      && (e.ClientWritten? ==> Silenced(s.client, t.client, if s.isClosed then [] else e.closing))
  {
    assert s.client.pending + [] == s.client.pending && s.server.pending + [] == s.server.pending;
  }

  /** And so it stays: after a failed write nothing more is delivered in that direction. */
  lemma {:induction false} FailedForGood(s: Session, events: seq<Event>)
    requires Invariant(s) && Possible(s, events)
    ensures var t := Run(s, events);
      && (s.client.failed ==> t.client.delivered == s.client.delivered && t.client.writes == [])
      && (s.server.failed ==> t.server.delivered == s.server.delivered && t.server.writes == [])
    decreases |events|
  {
    if events != [] {
      StepInvariant(s, events[0]);
      FailedForGood(Step(s, events[0]), events[1..]);
    }
  }

  // ---------- The object ----------

  /** The session with its own fields.  The ghost fields are the writes the operating system
      has accepted and not completed, and the history. */
  class TlsProxySession {
    var p2c: seq<byte>
    var p2cPending: seq<byte>
    var p2s: seq<byte>
    var p2sPending: seq<byte>
    var tls: Tls
    var isClosed: bool
    var clientSocketOpen: bool
    var serverSocketOpen: bool

    ghost var clientWrites: seq<seq<byte>>
    ghost var clientEmitted: seq<byte>
    ghost var clientDelivered: seq<byte>
    ghost var clientFailed: bool
    ghost var serverWrites: seq<seq<byte>>
    ghost var serverEmitted: seq<byte>
    ghost var serverDelivered: seq<byte>
    ghost var serverFailed: bool

    ghost function ClientWriter(): Writer
      reads this`p2c, this`p2cPending, this`clientWrites, this`clientEmitted, this`clientDelivered, this`clientFailed
    {
      Writer(p2c, p2cPending, clientWrites, clientEmitted, clientDelivered, clientFailed)
    }

    ghost function ServerWriter(): Writer
      reads this`p2s, this`p2sPending, this`serverWrites, this`serverEmitted, this`serverDelivered, this`serverFailed
    {
      Writer(p2s, p2sPending, serverWrites, serverEmitted, serverDelivered, serverFailed)
    }

    /** The abstract session this object represents. */
    ghost function State(): Session
      reads this
    {
      Session(ClientWriter(), ServerWriter(), tls, isClosed, clientSocketOpen, serverSocketOpen)
    }

    constructor ()
      ensures State() == INITIAL
    {
      p2c, p2cPending, p2s, p2sPending := [], [], [], [];
      tls, isClosed, clientSocketOpen, serverSocketOpen := Active, false, true, true;
      clientWrites, clientEmitted, clientDelivered, clientFailed := [], [], [], false;
      serverWrites, serverEmitted, serverDelivered, serverFailed := [], [], [], false;
    }

    /** `tls_emit_data`, the callback of the TLS object; also called with no data to start a
        write for what is pending. */
    method TlsEmitData(buf: seq<byte>)
      modifies this`p2c, this`p2cPending, this`clientWrites, this`clientEmitted
      ensures ClientWriter() == Emit(old(ClientWriter()), buf)
    {
      clientEmitted := clientEmitted + buf;
      if buf != [] {
        p2cPending := p2cPending + buf;
      } else {
        assert p2cPending + buf == p2cPending;
      }
      if p2c == [] && p2cPending != [] {
        p2cPending, p2c := p2c, p2cPending;
        clientWrites := clientWrites + [p2c];  // async_write
      }
    }

    /** `proxy_write_to_server`. */
    method ProxyWriteToServer(buf: seq<byte>)
      modifies this`p2s, this`p2sPending, this`serverWrites, this`serverEmitted
      ensures ServerWriter() == Emit(old(ServerWriter()), buf)
    {
      serverEmitted := serverEmitted + buf;
      if buf != [] {
        p2sPending := p2sPending + buf;
      } else {
        assert p2sPending + buf == p2sPending;
      }
      if p2s == [] && p2sPending != [] {
        p2sPending, p2s := p2s, p2sPending;
        serverWrites := serverWrites + [p2s];  // async_write
      }
    }

    /** `stop`.  `closing` is what the TLS object emits while it is closed. */
    method StopSession(closing: seq<byte>)
      modifies this
      ensures State() == Step(old(State()), Stop(closing))
    {
      if !isClosed {
        serverSocketOpen := false;
        hide ClientWriter, ServerWriter, Emit;
        TlsEmitData(closing);
        tls := Gone;
        isClosed := true;
      }
    }

    /** The close-notify branch of `tls_alert`. */
    method TlsAlertCloseNotify(closing: seq<byte>)
      requires tls != Gone
      modifies this
      ensures State() == Step(old(State()), CloseNotify(closing))
    {
      TlsEmitData(closing);
      tls := Closed;
    }

    /** `handle_client_write_completion`. */
    method HandleClientWriteCompletion(error: bool, closing: seq<byte>)
      requires clientWrites != []
      modifies this
      ensures State() == Step(old(State()), ClientWritten(!error, closing))
    {
      if error {
        clientWrites, clientFailed := clientWrites[1..], true;
        assert ClientWriter() == Fail(old(ClientWriter()));
        hide ClientWriter, ServerWriter;
        StopSession(closing);
        return;
      }
      hide ClientWriter, ServerWriter, Start, Emit;
      ClientWriteSucceeded();
    }

    method ClientWriteSucceeded()
      requires clientWrites != []
      modifies this`p2c, this`p2cPending, this`clientWrites, this`clientEmitted, this`clientDelivered,
               this`clientSocketOpen
      ensures ClientWriter() == Start(Complete(old(ClientWriter())))
      ensures clientSocketOpen ==
        (old(clientSocketOpen) && !(Complete(old(ClientWriter())).pending == [] && tls != Active))
    {
      clientDelivered, clientWrites := clientDelivered + clientWrites[0], clientWrites[1..];
      p2c := [];
      if p2cPending == [] && tls != Active {
        clientSocketOpen := false;
      }
      EmitNothing(ClientWriter());
      hide Start, Emit;
      TlsEmitData([]);  // initiate another write if needed
    }

    /** `handle_server_write_completion`. */
    method HandleServerWriteCompletion(error: bool, closing: seq<byte>)
      requires serverWrites != []
      modifies this
      ensures State() == Step(old(State()), ServerWritten(!error, closing))
    {
      if error {
        serverWrites, serverFailed := serverWrites[1..], true;
        assert ServerWriter() == Fail(old(ServerWriter()));
        hide ClientWriter, ServerWriter;
        StopSession(closing);
        return;
      }
      hide ClientWriter, ServerWriter, Start, Emit;
      ServerWriteSucceeded();
    }

    method ServerWriteSucceeded()
      requires serverWrites != []
      modifies this`p2s, this`p2sPending, this`serverWrites, this`serverEmitted, this`serverDelivered
      ensures ServerWriter() == Start(Complete(old(ServerWriter())))
    {
      serverDelivered, serverWrites := serverDelivered + serverWrites[0], serverWrites[1..];
      p2s := [];
      EmitNothing(ServerWriter());
      hide Start, Emit;
      ProxyWriteToServer([]);  // initiate another write if needed
    }
  }
}
