/**
 * The log broadcaster and its clients as a channel protocol (internal/webdash/server.go). A run interleaves
 * the broadcaster's own steps with those of any number of connection handlers.
 */
module Broadcast {

  const CLIENT_BUFFER := 100

  /** Where a connection handler is: in its loop, past its removeClient rendezvous, or past closing its channel. */
  datatype Phase = Streaming | Leaving | Closed

  /** A client channel with what its handler took from it so far. */
  datatype Channel = Channel(buffer: seq<string>, phase: Phase, received: seq<string>)

  /** What the broadcaster goroutine is doing between its selects. */
  datatype Broadcaster =
    | Idle
    | Adding(client: nat)
    | Removing(client: nat)
    | Sending(msg: string, remaining: set<nat>)

  datatype State = State(channels: map<nat, Channel>, clients: set<nat>, broadcaster: Broadcaster, panicked: bool)

  datatype Step =
    | Join(client: nat)       // a new handler's send on addClient meets the broadcaster's select
    | Insert                  // the broadcaster enters the client into its map
    | Leave(client: nat)      // a handler's send on removeClient meets the broadcaster's select
    | Delete                  // the broadcaster deletes the client from its map
    | Close(client: nat)      // the handler closes its channel
    | Publish(msg: string)    // the broadcaster takes a message from one of its two log channels
    | SendOne(client: nat)    // it offers the message to one more client, in any order
    | Finish                  // the loop over the clients is done
    | Receive(client: nat)    // a handler takes a message from its channel

  type Run = seq<Step>

  const INITIAL := State(map[], {}, Idle, false)

  /** A non-blocking send: a full channel loses the message. */
  function Offered(ch: Channel, msg: string): Channel {
    if |ch.buffer| < CLIENT_BUFFER then ch.(buffer := ch.buffer + [msg]) else ch
  }

  /** One step; a step that is not possible in the state changes nothing. Sending on a closed channel panics. */
  function Next(st: State, step: Step): State {
    match step
    case Join(c) =>
      if st.broadcaster.Idle? && c !in st.channels then
        st.(channels := st.channels[c := Channel([], Streaming, [])], broadcaster := Adding(c))
      else st
    case Insert =>
      if st.broadcaster.Adding? then st.(clients := st.clients + {st.broadcaster.client}, broadcaster := Idle) else st
    case Leave(c) =>
      if st.broadcaster.Idle? && c in st.channels && st.channels[c].phase.Streaming? then
        st.(channels := st.channels[c := st.channels[c].(phase := Leaving)], broadcaster := Removing(c))
      else st
    case Delete =>
      if st.broadcaster.Removing? then st.(clients := st.clients - {st.broadcaster.client}, broadcaster := Idle) else st
    case Close(c) =>
      if c in st.channels && st.channels[c].phase.Leaving? then
        st.(channels := st.channels[c := st.channels[c].(phase := Closed)])
      else st
    case Publish(msg) =>
      if st.broadcaster.Idle? then st.(broadcaster := Sending(msg, st.clients)) else st
    case SendOne(c) =>
      if st.broadcaster.Sending? && c in st.broadcaster.remaining then
        var rest := st.broadcaster.(remaining := st.broadcaster.remaining - {c});
        if c !in st.channels || st.channels[c].phase.Closed? then st.(broadcaster := rest, panicked := true)
        else st.(channels := st.channels[c := Offered(st.channels[c], st.broadcaster.msg)], broadcaster := rest)
      else st
    case Finish =>
      if st.broadcaster.Sending? && st.broadcaster.remaining == {} then st.(broadcaster := Idle) else st
    case Receive(c) =>
      if c in st.channels && st.channels[c].phase.Streaming? && st.channels[c].buffer != [] then
        var ch := st.channels[c];
        st.(channels := st.channels[c := ch.(buffer := ch.buffer[1..], received := ch.received + [ch.buffer[0]])])
      else st
  }

  function StateAfter(run: Run): State {
    if run == [] then INITIAL else Next(StateAfter(run[..|run| - 1]), run[|run| - 1])
  }

  // ---------------------------------------------------------------- safety

  /**
   * Registered clients are open; a channel that is closed or closing is registered only while being removed, and one
   * whose handler is in its loop is registered or being added.
   */
  ghost predicate Sound(st: State) {
    && !st.panicked
    && st.clients <= st.channels.Keys
    && (st.broadcaster.Adding? ==> st.broadcaster.client in st.channels)
    && (st.broadcaster.Sending? ==> st.broadcaster.remaining <= st.clients)
    && (forall c :: c in st.clients && !st.channels[c].phase.Streaming? ==> st.broadcaster == Removing(c))
    && (forall c :: c in st.channels && st.channels[c].phase.Streaming? ==>
          c in st.clients || st.broadcaster == Adding(c))
    && (forall c :: c in st.channels ==> |st.channels[c].buffer| <= 100)
    && (st.broadcaster.Adding? ==> st.channels[st.broadcaster.client].phase.Streaming?)
    && (st.broadcaster.Removing? ==>
          st.broadcaster.client in st.channels && !st.channels[st.broadcaster.client].phase.Streaming?)
  }

  lemma NextKeepsSound(st: State, step: Step)
    requires Sound(st)
    ensures Sound(Next(st, step))
  {
  }

  /** In every interleaving the broadcaster never sends on a closed channel, and no buffer exceeds its 100 slots. */
  lemma {:induction false} AlwaysSound(run: Run)
    ensures Sound(StateAfter(run))
  {
    if run != [] {
      AlwaysSound(run[..|run| - 1]);
      NextKeepsSound(StateAfter(run[..|run| - 1]), run[|run| - 1]);
    }
  }

  // ---------------------------------------------------------------- delivery

  predicate Subsequence(a: seq<string>, b: seq<string>) {
    if b == [] then a == []
    else
      var init := b[..|b| - 1];
      || Subsequence(a, init)
      || (a != [] && a[|a| - 1] == b[|b| - 1] && Subsequence(a[..|a| - 1], init))
  }

  lemma SubsequenceExtend(a: seq<string>, b: seq<string>, m: string)
    requires Subsequence(a, b)
    ensures Subsequence(a, b + [m]) && Subsequence(a + [m], b + [m])
  {
    assert (b + [m])[..|b|] == b && (a + [m])[..|a|] == a;
  }

  /** The messages published while the client was in the broadcaster's map, in order. */
  function PublishedTo(run: Run, c: nat): seq<string> {
    if run == [] then []
    else PublishedTo(run[..|run| - 1], c) + PublishedBy(StateAfter(run[..|run| - 1]), run[|run| - 1], c)
  }

  function PublishedBy(st: State, step: Step, c: nat): seq<string> {
    if step.Publish? && st.broadcaster.Idle? && c in st.clients then [step.msg] else []
  }

  /** The message the broadcaster still has to offer the client. */
  function StillToOffer(st: State, c: nat): seq<string> {
    if st.broadcaster.Sending? && c in st.broadcaster.remaining then [st.broadcaster.msg] else []
  }

  /** What has gone into the client's channel so far. */
  function Got(st: State, c: nat): seq<string> {
    if c in st.channels then st.channels[c].received + st.channels[c].buffer else []
  }

  /** The step is the broadcaster's send of the pending message to this client. */
  predicate Offers(st: State, step: Step, c: nat) {
    step == SendOne(c) && st.broadcaster.Sending? && c in st.broadcaster.remaining
  }

  /** The client's channel has one of its 100 slots free. */
  predicate HasRoom(st: State, c: nat) {
    c in st.channels && |st.channels[c].buffer| < 100
  }

  /** The messages offered to the client, in order. */
  function OfferedTo(run: Run, c: nat): seq<string> {
    if run == [] then []
    else
      var p, step := run[..|run| - 1], run[|run| - 1];
      OfferedTo(p, c) + if Offers(StateAfter(p), step, c) then [StateAfter(p).broadcaster.msg] else []
  }

  /** Those of them whose offer met a channel with a free slot. */
  function OfferedWithRoom(run: Run, c: nat): seq<string> {
    if run == [] then []
    else
      var p, step := run[..|run| - 1], run[|run| - 1];
      OfferedWithRoom(p, c)
      + if Offers(StateAfter(p), step, c) && HasRoom(StateAfter(p), c) then [StateAfter(p).broadcaster.msg] else []
  }

  /** Step k of the run offers the client a message while all 100 slots of its channel are taken. */
  predicate MetFull(run: Run, k: nat, c: nat)
    requires k < |run|
  {
    var st := StateAfter(run[..k]);
    Offers(st, run[k], c) && c in st.channels && |st.channels[c].buffer| == 100
  }

  lemma GotStep(st: State, step: Step, c: nat)
    requires Sound(st)
    ensures Got(Next(st, step), c)
            == Got(st, c) + if Offers(st, step, c) && HasRoom(st, c) then [st.broadcaster.msg] else []
  {
    if Offers(st, step, c) {
      assert c in st.channels;
    } else if step == Receive(c) && Next(st, step) != st {
      var b := st.channels[c].buffer;
      assert b == [b[0]] + b[1..];
    }
  }

  /** At every point, a client has got exactly the messages whose offer met a free slot, in order. */
  lemma {:induction false} GotExactly(run: Run, c: nat)
    ensures Got(StateAfter(run), c) == OfferedWithRoom(run, c)
  {
    if run != [] {
      var p := run[..|run| - 1];
      GotExactly(p, c);
      AlwaysSound(p);
      GotStep(StateAfter(p), run[|run| - 1], c);
    }
  }

  lemma OfferStep(st: State, step: Step, c: nat)
    requires Sound(st)
    ensures (if Offers(st, step, c) then [st.broadcaster.msg] else []) + StillToOffer(Next(st, step), c)
            == StillToOffer(st, c) + PublishedBy(st, step, c)
  {
  }

  /** At every point, the messages offered and the one pending are those published while the client was registered. */
  lemma {:induction false} OfferedExactly(run: Run, c: nat)
    ensures OfferedTo(run, c) + StillToOffer(StateAfter(run), c) == PublishedTo(run, c)
  {
    if run != [] {
      var p, step := run[..|run| - 1], run[|run| - 1];
      OfferedExactly(p, c);
      AlwaysSound(p);
      OfferStep(StateAfter(p), step, c);
      var now := if Offers(StateAfter(p), step, c) then [StateAfter(p).broadcaster.msg] else [];
      assert OfferedTo(p, c) + now + StillToOffer(StateAfter(run), c)
             == OfferedTo(p, c) + (now + StillToOffer(StateAfter(run), c));
      assert OfferedTo(p, c) + (StillToOffer(StateAfter(p), c) + PublishedBy(StateAfter(p), step, c))
             == OfferedTo(p, c) + StillToOffer(StateAfter(p), c) + PublishedBy(StateAfter(p), step, c);
    }
  }

  /** Nothing is missing exactly as long as no offer meets a full channel. */
  lemma {:induction false} RoomExactly(run: Run, c: nat)
    ensures Subsequence(OfferedWithRoom(run, c), OfferedTo(run, c))
    ensures |OfferedWithRoom(run, c)| <= |OfferedTo(run, c)|
    ensures OfferedWithRoom(run, c) == OfferedTo(run, c) <==> forall k :: 0 <= k < |run| ==> !MetFull(run, k, c)
  {
    if run != [] {
      var last := |run| - 1;
      var p, st := run[..last], StateAfter(run[..last]);
      RoomExactly(p, c);
      AlwaysSound(p);
      forall k | 0 <= k < last
        ensures MetFull(run, k, c) <==> MetFull(p, k, c)
      {
        assert p[..k] == run[..k];
      }
      if Offers(st, run[last], c) {
        SubsequenceExtend(OfferedWithRoom(p, c), OfferedTo(p, c), st.broadcaster.msg);
        assert MetFull(run, last, c) <==> !HasRoom(st, c);
        assert HasRoom(st, c) || OfferedWithRoom(run, c) == OfferedWithRoom(p, c);
      } else {
        assert OfferedWithRoom(run, c) == OfferedWithRoom(p, c) && OfferedTo(run, c) == OfferedTo(p, c);
      }
    }
  }

  /**
   * Whenever the broadcaster is between messages, each client has got an in-order subsequence of the messages
   * published while it was registered, and all of them if and only if no offer ever met its channel full.
   */
  lemma ClientsGetTheirMessages(run: Run, c: nat)
    requires !StateAfter(run).broadcaster.Sending?
    ensures Subsequence(Got(StateAfter(run), c), PublishedTo(run, c))
    ensures Got(StateAfter(run), c) == PublishedTo(run, c) <==> forall k :: 0 <= k < |run| ==> !MetFull(run, k, c)
  {
    GotExactly(run, c);
    OfferedExactly(run, c);
    RoomExactly(run, c);
    assert OfferedTo(run, c) + [] == OfferedTo(run, c);
  }

  // ---------------------------------------------------------------- one message to all clients

  lemma OneMore(run: Run, step: Step)
    ensures StateAfter(run + [step]) == Next(StateAfter(run), step)
  {
    assert (run + [step])[..|run|] == run;
  }

  /** Every client of the set, once. */
  ghost predicate Visits(order: seq<nat>, clients: set<nat>) {
    && (forall c :: c in order <==> c in clients)
    && (forall i, j :: 0 <= i < j < |order| ==> order[i] != order[j])
  }

  function OfferSteps(order: seq<nat>): Run {
    seq(|order|, i requires 0 <= i < |order| => SendOne(order[i]))
  }

  /** sendToClients as steps, for one visiting order. */
  function SendRun(msg: string, order: seq<nat>): Run {
    [Publish(msg)] + OfferSteps(order) + [Finish]
  }

  /** The channels once the clients in `done` have been offered the message. */
  function AfterOffers(channels: map<nat, Channel>, done: set<nat>, msg: string): map<nat, Channel> {
    map c | c in channels :: if c in done then Offered(channels[c], msg) else channels[c]
  }

  /** The state once the clients in `done` have been offered the message and the others have not. */
  function Midway(st: State, done: set<nat>, msg: string): State {
    st.(channels := AfterOffers(st.channels, done, msg), broadcaster := Sending(msg, st.clients - done))
  }

  lemma OfferNone(st: State, msg: string)
    requires st.broadcaster.Idle?
    ensures Next(st, Publish(msg)) == Midway(st, {}, msg)
  {
    assert AfterOffers(st.channels, {}, msg) == st.channels && st.clients - {} == st.clients;
  }

  lemma OfferOne(st: State, done: set<nat>, msg: string, c: nat)
    requires Sound(st) && st.broadcaster.Idle? && c in st.clients && c !in done
    ensures Next(Midway(st, done, msg), SendOne(c)) == Midway(st, done + {c}, msg)
  {
    assert st.channels[c].phase.Streaming?;
    assert st.clients - done - {c} == st.clients - (done + {c});
    var offered := AfterOffers(st.channels, done, msg);
    assert offered[c := Offered(st.channels[c], msg)] == AfterOffers(st.channels, done + {c}, msg);
  }

  lemma OfferAll(st: State, msg: string)
    requires st.broadcaster.Idle?
    ensures Next(Midway(st, st.clients, msg), Finish) == st.(channels := AfterOffers(st.channels, st.clients, msg))
  {
  }

  function Firsts(order: seq<nat>, n: nat): set<nat>
    requires n <= |order|
  {
    set i | 0 <= i < n :: order[i]
  }

  lemma {:induction false} OffersSoFar(run: Run, msg: string, order: seq<nat>, n: nat)
    requires StateAfter(run).broadcaster.Idle? && Visits(order, StateAfter(run).clients) && n <= |order|
    ensures StateAfter(run + [Publish(msg)] + OfferSteps(order[..n])) == Midway(StateAfter(run), Firsts(order, n), msg)
  {
    hide StateAfter, Next, Midway;
    var st := StateAfter(run);
    if n == 0 {
      OneMore(run, Publish(msg));
      OfferNone(st, msg);
      assert run + [Publish(msg)] + OfferSteps(order[..0]) == run + [Publish(msg)];
      assert Firsts(order, 0) == {};
    } else {
      OffersSoFar(run, msg, order, n - 1);
      var p := run + [Publish(msg)] + OfferSteps(order[..n - 1]);
      var c := order[n - 1];
      assert p + [SendOne(c)] == run + [Publish(msg)] + OfferSteps(order[..n]);
      OneMore(p, SendOne(c));
      AlwaysSound(run);
      OfferOne(st, Firsts(order, n - 1), msg, c);
      assert Firsts(order, n) == Firsts(order, n - 1) + {c};
    }
  }

  /** The message has gone into every registered channel with a free slot, and nothing else has changed. */
  ghost predicate SentToAll(before: map<nat, Channel>, after: map<nat, Channel>, clients: set<nat>, msg: string) {
    && after.Keys == before.Keys
    && forall c :: c in before ==>
         after[c] == if c in clients && |before[c].buffer| < 100 then before[c].(buffer := before[c].buffer + [msg])
                     else before[c]
  }

  /** Whatever the visiting order, the message goes once to each registered client with a free slot and to no other. */
  lemma AnyOrderSendsOnce(run: Run, msg: string, order: seq<nat>)
    requires StateAfter(run).broadcaster.Idle? && Visits(order, StateAfter(run).clients)
    ensures var st, st' := StateAfter(run), StateAfter(run + SendRun(msg, order));
            SentToAll(st.channels, st'.channels, st.clients, msg) && st' == st.(channels := st'.channels)
  {
    AnyOrderOffersOnce(run, msg, order);
  }

  lemma AnyOrderOffersOnce(run: Run, msg: string, order: seq<nat>)
    requires StateAfter(run).broadcaster.Idle? && Visits(order, StateAfter(run).clients)
    ensures var st := StateAfter(run);
            StateAfter(run + SendRun(msg, order)) == st.(channels := AfterOffers(st.channels, st.clients, msg))
  {
    hide StateAfter, Next, Midway;
    var st := StateAfter(run);
    var p := run + [Publish(msg)] + OfferSteps(order);
    OffersSoFar(run, msg, order, |order|);
    assert order[..|order|] == order;
    AllVisited(order, st.clients);
    assert run + SendRun(msg, order) == p + [Finish];
    OneMore(p, Finish);
    OfferAll(st, msg);
  }

  lemma AllVisited(order: seq<nat>, clients: set<nat>)
    requires Visits(order, clients)
    ensures Firsts(order, |order|) == clients
  {
    forall c | c in clients
      ensures c in Firsts(order, |order|)
    {
      assert c in order;
    }
  }

  // ---------------------------------------------------------------- the broadcaster object

  /** What the select of one iteration received. */
  datatype Selected =
    | AddCase(client: nat)
    | RemoveCase(client: nat)
    | LogCase(msg: string, ok: bool)
    | ExternalCase(msg: string)

  /** The steps one iteration of the select loop makes. */
  ghost predicate Iteration(clients: set<nat>, selected: Selected, steps: Run) {
    match selected
    case AddCase(c) => steps == [Join(c), Insert]
    case RemoveCase(c) => steps == [Leave(c), Delete]
    case LogCase(msg, ok) => if ok then Broadcasts(clients, msg, steps) else steps == []
    case ExternalCase(msg) => Broadcasts(clients, msg, steps)
  }

  ghost predicate Broadcasts(clients: set<nat>, msg: string, steps: Run) {
    exists order :: Visits(order, clients) && steps == SendRun(msg, order)
  }

  /** The server with its clients' channels; the history is the run of steps its methods have made. */
  class LogServer {
    var channels: map<nat, Channel>
    var clients: set<nat>
    ghost var history: Run

    /** Between two iterations the object is the state the protocol's run reaches. */
    ghost predicate Valid()
      reads this
    {
      StateAfter(history) == State(channels, clients, Idle, false)
    }

    constructor ()
      ensures Valid() && history == []
    {
      channels, clients, history := map[], {}, [];
    }

    /** The addClient case, with the channel its handler has just made. */
    method AddClient(c: nat)
      requires Valid() && c !in channels
      modifies this
      ensures Valid() && history == old(history) + [Join(c), Insert]
      ensures clients == old(clients) + {c} && channels == old(channels)[c := Channel([], Streaming, [])]
    {
      channels := channels[c := Channel([], Streaming, [])];
      clients := clients + {c};
      TwoMore(history, Join(c), Insert);
      history := history + [Join(c), Insert];
    }

    /** The removeClient case, received from a handler that is leaving its loop. */
    method RemoveClient(c: nat)
      requires Valid() && c in channels && channels[c].phase.Streaming?
      modifies this
      ensures Valid() && history == old(history) + [Leave(c), Delete]
      ensures clients == old(clients) - {c}
      ensures channels == old(channels)[c := old(channels)[c].(phase := Leaving)]
    {
      channels := channels[c := channels[c].(phase := Leaving)];
      clients := clients - {c};
      TwoMore(history, Leave(c), Delete);
      history := history + [Leave(c), Delete];
    }

    /** sendToClients: the loop over the registered clients, visited in some order. */
    method SendToClients(msg: string) returns (ghost order: seq<nat>)
      requires Valid()
      modifies this
      ensures Valid() && Visits(order, old(clients)) && history == old(history) + SendRun(msg, order)
      ensures clients == old(clients) && SentToAll(old(channels), channels, clients, msg)
    {
      AlwaysSound(history);
      var remaining := clients;
      order := [];
      while remaining != {}
        invariant remaining <= clients == old(clients) <= old(channels).Keys && history == old(history)
        invariant Visits(order, clients - remaining)
        invariant channels == AfterOffers(old(channels), clients - remaining, msg)
      {
        var c :| c in remaining;
        channels := channels[c := Offered(channels[c], msg)];
        remaining := remaining - {c};
        order := order + [c];
      }
      AnyOrderOffersOnce(history, msg, order);
      history := history + SendRun(msg, order);
    }

    /** One iteration of broadcastLogs; a closed log channel is passed over. */
    method Iterate(selected: Selected) returns (ghost steps: Run)
      requires Valid()
      requires selected.AddCase? ==> selected.client !in channels
      requires selected.RemoveCase? ==> selected.client in channels && channels[selected.client].phase.Streaming?
      modifies this
      ensures Valid() && Iteration(old(clients), selected, steps) && history == old(history) + steps
      ensures selected.AddCase? ==>
                && clients == old(clients) + {selected.client}
                && channels == old(channels)[selected.client := Channel([], Streaming, [])]
      ensures selected.RemoveCase? ==>
                && clients == old(clients) - {selected.client} && channels.Keys == old(channels).Keys
                && forall c :: c in channels && c != selected.client ==> channels[c] == old(channels)[c]
      ensures selected.LogCase? && !selected.ok ==> clients == old(clients) && channels == old(channels)
      ensures selected.ExternalCase? || (selected.LogCase? && selected.ok) ==>
                clients == old(clients) && SentToAll(old(channels), channels, clients, selected.msg)
    {
      match selected {
        case AddCase(client) =>
          AddClient(client);
          steps := [Join(client), Insert];
        case RemoveCase(client) =>
          RemoveClient(client);
          steps := [Leave(client), Delete];
        case LogCase(msg, ok) =>
          steps := [];
          if ok {
            ghost var order := SendToClients(msg);
            steps := SendRun(msg, order);
          }
        case ExternalCase(msg) =>
          ghost var order := SendToClients(msg);
          steps := SendRun(msg, order);
      }
    }

    /** A handler takes the next message from its channel. */
    method TakeMessage(c: nat) returns (msg: string)
      requires Valid() && c in channels && channels[c].phase.Streaming? && channels[c].buffer != []
      modifies this
      ensures Valid() && history == old(history) + [Receive(c)]
      ensures clients == old(clients) && channels.Keys == old(channels).Keys
      ensures [msg] + channels[c].buffer == old(channels)[c].buffer
      ensures channels[c].received == old(channels)[c].received + [msg]
    {
      var ch := channels[c];
      msg := ch.buffer[0];
      channels := channels[c := ch.(buffer := ch.buffer[1..], received := ch.received + [msg])];
      OneMore(history, Receive(c));
      history := history + [Receive(c)];
    }

    /** A handler closes its channel once the broadcaster has let go of it. */
    method CloseChannel(c: nat)
      requires Valid() && c in channels && channels[c].phase.Leaving?
      modifies this
      ensures Valid() && history == old(history) + [Close(c)]
      ensures c !in clients && channels == old(channels)[c := old(channels)[c].(phase := Closed)]
    {
      AlwaysSound(history);
      channels := channels[c := channels[c].(phase := Closed)];
      OneMore(history, Close(c));
      history := history + [Close(c)];
    }

    /**
     * Whatever calls led here, a client has got or holds all its messages in order if and only if none of them was
     * ever offered while its channel held 100.
     */
    lemma NothingLost(c: nat)
      requires Valid() && c in channels
      ensures channels[c].received + channels[c].buffer == PublishedTo(history, c)
              <==> forall k :: 0 <= k < |history| ==> !MetFull(history, k, c)
    {
      ClientsGetTheirMessages(history, c);
    }
  }

  lemma TwoMore(run: Run, first: Step, second: Step)
    ensures StateAfter(run + [first, second]) == Next(Next(StateAfter(run), first), second)
  {
    hide StateAfter, Next;
    OneMore(run, first);
    OneMore(run + [first], second);
    assert run + [first] + [second] == run + [first, second];
  }
}
