/** What holds in every reachable state of the server, for every run of its events. */
module ServerRuns {
  import opened Names
  import opened GameStates
  import opened Networking

  // ---------- what a run did, read off its events ----------

  // The non-empty texts addressed to a connection.
  function TextsTo(ms: seq<Message>, c: Connection): seq<string> {
    if ms == [] then [] else
      (if ms[0].connection == c && ms[0].text != "" then [ms[0].text] else []) + TextsTo(ms[1..], c)
  }

  // What Server::send routed to a channel since its registration.
  function RoutedTo(run: seq<Event>, c: Connection): seq<string> {
    if run == [] then [] else
      var before, e := run[..|run| - 1], run[|run| - 1];
      RoutedTo(before, c) + if e.Send? && c in After(before).channels then TextsTo(e.messages, c) else []
  }

  // A write to the channel is outstanding.
  predicate Outstanding(s: System, c: Connection) {
    c in s.all && |s.all[c].writing| > 0
  }

  // The texts whose writes completed.
  function DeliveredTo(run: seq<Event>, c: Connection): seq<string> {
    if run == [] then [] else
      var before, e := run[..|run| - 1], run[|run| - 1];
      DeliveredTo(before, c) +
      if e == Written(c, false) && Outstanding(After(before), c) then [After(before).all[c].writing[0]] else []
  }

  // A write to the channel has failed.
  predicate Errored(run: seq<Event>, c: Connection) {
    run != [] &&
    var before, e := run[..|run| - 1], run[|run| - 1];
    Errored(before, c) || (e == Written(c, true) && Outstanding(After(before), c))
  }

  function CallbacksOf(log: seq<Callback>, c: Connection): seq<Callback> {
    if log == [] then [] else
      CallbacksOf(log[..|log| - 1], c) + if log[|log| - 1].connection == c then [log[|log| - 1]] else []
  }

  // ---------- connection views ----------

  ghost predicate ViewsAgree(s: System) {
    && NoDuplicates(s.clients)
    && (forall c :: c in s.channels <==> c in s.clients)
    && |s.users| == |s.clients|
    && (forall i :: 0 <= i < |s.clients| ==> s.users[i].userConnection == s.clients[i])
  }

  ghost predicate LifeCycle(s: System, c: Connection) {
    && (c in s.channels ==> c in s.all)
    && (c in s.all ==> (c in s.channels <==> !s.all[c].disconnected))
    && CallbacksOf(s.callbacks, c) ==
       if c !in s.all then [] else if c in s.channels then [Connected(c)] else [Connected(c), Disconnected(c)]
  }

  lemma {:induction false} WithoutMembers(cs: seq<Connection>, c: Connection)
    ensures forall d :: d in Without(cs, c) <==> d in cs && d != c
    ensures NoDuplicates(cs) ==> NoDuplicates(Without(cs, c))
  {
    if cs != [] {
      WithoutMembers(cs[1..], c);
      assert forall d :: d in cs <==> d == cs[0] || d in cs[1..];
      assert NoDuplicates(cs) ==> NoDuplicates(cs[1..]) && cs[0] !in cs[1..];
    }
  }

  lemma {:induction false} WithoutUserMatches(us: seq<User>, cs: seq<Connection>, c: Connection)
    requires |us| == |cs| && forall i :: 0 <= i < |cs| ==> us[i].userConnection == cs[i]
    ensures |WithoutUser(us, c)| == |Without(cs, c)|
    ensures forall i :: 0 <= i < |Without(cs, c)| ==> WithoutUser(us, c)[i].userConnection == Without(cs, c)[i]
  {
    if cs != [] {
      assert forall i :: 0 <= i < |cs[1..]| ==> us[1..][i] == us[i + 1] && cs[1..][i] == cs[i + 1];
      WithoutUserMatches(us[1..], cs[1..], c);
    }
  }

  lemma CallbacksAppend(log: seq<Callback>, b: Callback, c: Connection)
    ensures CallbacksOf(log + [b], c) == CallbacksOf(log, c) + if b.connection == c then [b] else []
  {
  }

  lemma DropKeepsViews(s: System, c: Connection)
    requires ViewsAgree(s) && forall d :: LifeCycle(s, d)
    ensures ViewsAgree(Dropped(s, c)) && forall d :: LifeCycle(Dropped(s, c), d)
  {
    if c in s.channels {
      assert LifeCycle(s, c);
      WithoutMembers(s.clients, c);
      WithoutUserMatches(s.users, s.clients, c);
      forall d ensures LifeCycle(Dropped(s, c), d) {
        assert LifeCycle(s, d);
        CallbacksAppend(s.callbacks, Disconnected(c), d);
      }
    }
  }

  lemma RegisterKeepsViews(s: System, c: Connection)
    requires ViewsAgree(s) && c !in s.all && forall d :: LifeCycle(s, d)
    ensures ViewsAgree(Registered(s, c)) && forall d :: LifeCycle(Registered(s, c), d)
  {
    assert LifeCycle(s, c);
    forall d ensures LifeCycle(Registered(s, c), d) {
      assert LifeCycle(s, d);
      CallbacksAppend(s.callbacks, Connected(c), d);
    }
  }

  // A change of channels that keeps their connection state keeps the views.
  lemma SameViews(s: System, t: System)
    requires ViewsAgree(s) && forall d :: LifeCycle(s, d)
    requires t.channels == s.channels && t.clients == s.clients && t.users == s.users && t.callbacks == s.callbacks
    requires t.all.Keys == s.all.Keys && forall d :: d in s.all ==> t.all[d].disconnected == s.all[d].disconnected
    ensures ViewsAgree(t) && forall d :: LifeCycle(t, d)
  {
    forall d ensures LifeCycle(t, d) {
      assert LifeCycle(s, d);
    }
  }

  lemma {:induction false} SentAllFrame(s: System, ms: seq<Message>)
    ensures var t := SentAll(s, ms);
      && t == s.(all := t.all) && t.all.Keys == s.all.Keys
      && forall c :: c in s.all ==> t.all[c].disconnected == s.all[c].disconnected
    decreases ms
  {
    if ms != [] {
      var c := ms[0].connection;
      var next := if c in s.channels && c in s.all then s.(all := s.all[c := Sent(s.all[c], ms[0].text)]) else s;
      SentAllFrame(next, ms[1..]);
    }
  }

  // At every boundary of every run: the connected channels, the clients and the users are the
  // same connections, in the same order in both lists; and each connection got one connect
  // callback, then at most one disconnect callback, which it got exactly if no longer connected.
  lemma {:induction false} ViewsAlwaysAgree(run: seq<Event>)
    ensures ViewsAgree(After(run)) && forall c :: LifeCycle(After(run), c)
  {
    if run != [] {
      var s, e := After(run[..|run| - 1]), run[|run| - 1];
      ViewsAlwaysAgree(run[..|run| - 1]);
      if Enabled(s, e) {
        match e
        case Accepted(c, error) =>
          if error { DropKeepsViews(s, c); } else { RegisterKeepsViews(s, c); }
        case Read(c, text, error) =>
          if error {
            var done := s.(all := s.all[c := s.all[c].(reading := false)]);
            SameViews(s, done);
            DropKeepsViews(done, c);
          } else {
            SameViews(s, Step(s, e));
          }
        case Written(c, error) =>
          if error {
            var done := s.(all := s.all[c := s.all[c].(writing := s.all[c].writing[1..])]);
            SameViews(s, done);
            DropKeepsViews(done, c);
          } else {
            SameViews(s, Step(s, e));
          }
        case Send(ms) =>
          SentAllFrame(s, ms);
          SameViews(s, Step(s, e));
        case Receive =>
          SameViews(s, Step(s, e));
        case Disconnect(c) =>
          DropKeepsViews(s, c);
      }
    }
  }

  // ---------- the write queue ----------

  function SentTexts(ch: ChannelState, texts: seq<string>): ChannelState
    decreases texts
  {
    if texts == [] then ch else SentTexts(Sent(ch, texts[0]), texts[1..])
  }

  lemma {:induction false} SentAllAt(s: System, ms: seq<Message>, c: Connection)
    requires c in s.all
    ensures c in SentAll(s, ms).all
    ensures SentAll(s, ms).all[c] == if c in s.channels then SentTexts(s.all[c], TextsTo(ms, c)) else s.all[c]
    decreases ms
  {
    if ms != [] {
      var d := ms[0].connection;
      var next := if d in s.channels && d in s.all then s.(all := s.all[d := Sent(s.all[d], ms[0].text)]) else s;
      SentAllAt(next, ms[1..], c);
      if d == c && ms[0].text != "" {
        assert TextsTo(ms, c) == [ms[0].text] + TextsTo(ms[1..], c);
        assert TextsTo(ms, c)[1..] == TextsTo(ms[1..], c);
      } else {
        assert TextsTo(ms, c) == TextsTo(ms[1..], c);
      }
    }
  }

  // At most one write is outstanding, for the front of the queue; texts wait with none
  // outstanding exactly after an error.
  ghost predicate Disciplined(ch: ChannelState, errored: bool) {
    && |ch.writing| <= 1
    && (ch.writing != [] ==> ch.writeBuffer != [] && ch.writing[0] == ch.writeBuffer[0])
    && (errored <==> ch.writeBuffer != [] && ch.writing == [])
  }

  lemma {:induction false} SentTextsQueue(ch: ChannelState, texts: seq<string>, errored: bool)
    requires Disciplined(ch, errored) && forall t :: t in texts ==> t != ""
    ensures SentTexts(ch, texts).writeBuffer == ch.writeBuffer + texts
    ensures Disciplined(SentTexts(ch, texts), errored)
    decreases texts
  {
    if texts != [] {
      assert texts[0] in texts && forall t :: t in texts[1..] ==> t in texts;
      SentTextsQueue(Sent(ch, texts[0]), texts[1..], errored);
      assert ch.writeBuffer + texts == (ch.writeBuffer + [texts[0]]) + texts[1..];
    }
  }

  lemma {:induction false} TextsToNonEmpty(ms: seq<Message>, c: Connection)
    ensures forall t :: t in TextsTo(ms, c) ==> t != ""
  {
    if ms != [] {
      TextsToNonEmpty(ms[1..], c);
    }
  }

  ghost predicate QueueHolds(run: seq<Event>, c: Connection) {
    if c in After(run).all then
      && DeliveredTo(run, c) + After(run).all[c].writeBuffer == RoutedTo(run, c)
      && Disciplined(After(run).all[c], Errored(run, c))
    else
      DeliveredTo(run, c) == [] && RoutedTo(run, c) == [] && !Errored(run, c)
  }

  lemma SendAppends(ch: ChannelState, texts: seq<string>, errored: bool, delivered: seq<string>)
    requires Disciplined(ch, errored) && forall t :: t in texts ==> t != ""
    ensures delivered + SentTexts(ch, texts).writeBuffer == (delivered + ch.writeBuffer) + texts
    ensures Disciplined(SentTexts(ch, texts), errored)
  {
    SentTextsQueue(ch, texts, errored);
    QueuesAppend(delivered, ch.writeBuffer, texts);
  }

  lemma HistoryOfSend(before: seq<Event>, ms: seq<Message>, run: seq<Event>, c: Connection)
    requires run == before + [Send(ms)]
    ensures After(run) == SentAll(After(before), ms)
    ensures RoutedTo(run, c) == RoutedTo(before, c) + if c in After(before).channels then TextsTo(ms, c) else []
    ensures DeliveredTo(run, c) == DeliveredTo(before, c) && Errored(run, c) == Errored(before, c)
  {
  }

  lemma QueueAfterSend(before: seq<Event>, ms: seq<Message>, run: seq<Event>, c: Connection)
    requires QueueHolds(before, c) && run == before + [Send(ms)]
    ensures QueueHolds(run, c)
  {
    var s := After(before);
    HistoryOfSend(before, ms, run, c);
    ViewsAlwaysAgree(before);
    assert LifeCycle(s, c);
    SentAllFrame(s, ms);
    if c in s.all {
      SentAllAt(s, ms, c);
      if c in s.channels {
        TextsToNonEmpty(ms, c);
        SendAppends(s.all[c], TextsTo(ms, c), Errored(before, c), DeliveredTo(before, c));
      }
    }
  }

  lemma QueuesAppend(delivered: seq<string>, queue: seq<string>, texts: seq<string>)
    ensures delivered + (queue + texts) == (delivered + queue) + texts
    ensures delivered + [] == delivered && queue + [] == queue && texts + [] == texts
  {
  }

  lemma HistoryOfWritten(before: seq<Event>, error: bool, run: seq<Event>, c: Connection)
    requires run == before + [Written(c, error)]
    ensures var done := Outstanding(After(before), c);
      && RoutedTo(run, c) == RoutedTo(before, c) + []
      && DeliveredTo(run, c) == DeliveredTo(before, c) + (if done && !error then [After(before).all[c].writing[0]] else [])
      && (Errored(run, c) <==> Errored(before, c) || (done && error))
      && After(run) == Step(After(before), Written(c, error))
  {
  }

  lemma QueueAfterWritten(before: seq<Event>, error: bool, run: seq<Event>, c: Connection)
    requires QueueHolds(before, c) && run == before + [Written(c, error)]
    ensures QueueHolds(run, c)
  {
    HistoryOfWritten(before, error, run, c);
    var s, delivered := After(before), DeliveredTo(before, c);
    QueuesAppend(delivered, RoutedTo(before, c), RoutedTo(before, c));
    if Outstanding(s, c) && !error {
      var buffer := s.all[c].writeBuffer;
      QueuesAppend(delivered, [buffer[0]], buffer[1..]);
      assert buffer == [buffer[0]] + buffer[1..];
    }
  }

  // No other event touches the queue of `c`, or the history of it.
  lemma QueueAfterOther(before: seq<Event>, e: Event, run: seq<Event>, c: Connection)
    requires QueueHolds(before, c) && run == before + [e]
    requires !e.Send? && !(e.Written? && e.connection == c)
    ensures QueueHolds(run, c)
  {
    assert run[..|run| - 1] == before;
    QueuesAppend(DeliveredTo(before, c), RoutedTo(before, c), []);
    ChannelKept(After(before), e, c);
  }

  lemma ChannelKept(s: System, e: Event, c: Connection)
    requires !e.Send? && !(e.Written? && e.connection == c)
    ensures var t := Step(s, e);
      if c in s.all then
        c in t.all && t.all[c].writeBuffer == s.all[c].writeBuffer && t.all[c].writing == s.all[c].writing
      else c in t.all ==> t.all[c].writeBuffer == [] && t.all[c].writing == []
  {
  }

  lemma {:induction false} QueueAlwaysHolds(run: seq<Event>, c: Connection)
    ensures QueueHolds(run, c)
  {
    if run != [] {
      var before, e := run[..|run| - 1], run[|run| - 1];
      assert run == before + [e];
      QueueAlwaysHolds(before, c);
      if e.Send? {
        QueueAfterSend(before, e.messages, run, c);
      } else if e.Written? && e.connection == c {
        QueueAfterWritten(before, e.error, run, c);
      } else {
        QueueAfterOther(before, e, run, c);
      }
    }
  }

  // For every channel in every reachable state: the texts whose writes completed, followed by
  // the queue, are the non-empty texts routed to it since it registered.
  lemma ChannelIsFifo(run: seq<Event>, c: Connection)
    requires c in After(run).all
    ensures DeliveredTo(run, c) + After(run).all[c].writeBuffer == RoutedTo(run, c)
    ensures DeliveredTo(run, c) <= RoutedTo(run, c)
  {
    QueueAlwaysHolds(run, c);
  }

  lemma WriteDiscipline(run: seq<Event>, c: Connection)
    requires c in After(run).all
    ensures Disciplined(After(run).all[c], Errored(run, c))
    ensures Errored(run, c) ==> After(run).all[c].writing == []
  {
    QueueAlwaysHolds(run, c);
  }

  // After an error nothing is ever written again: no write is outstanding and no text more is
  // delivered, whatever follows.
  lemma {:induction false} NothingWrittenAfterError(run: seq<Event>, more: seq<Event>, c: Connection)
    requires Errored(run, c)
    ensures Errored(run + more, c)
    ensures c in After(run + more).all && After(run + more).all[c].writing == []
    ensures DeliveredTo(run + more, c) == DeliveredTo(run, c)
    decreases |more|
  {
    if more == [] {
      assert run + more == run;
    } else {
      var fewer := more[..|more| - 1];
      NothingWrittenAfterError(run, fewer, c);
      assert (run + more)[..|run + more| - 1] == run + fewer;
    }
    QueueAlwaysHolds(run + more, c);
  }

  // ---------- connected channels keep working ----------

  // A step that leaves a channel connected neither failed a write to it nor stopped its reads.
  lemma StaysConnected(s: System, e: Event, c: Connection)
    requires LifeCycle(s, c) && c in Step(s, e).channels
    ensures !(e == Written(c, true) && Outstanding(s, c))
    ensures c in Step(s, e).all
    ensures if c in s.channels then s.all[c].reading ==> Step(s, e).all[c].reading
            else c !in s.all && Step(s, e).all[c].reading
  {
    if e.Send? {
      SentAllFrame(s, e.messages);
      SentAllKeepsReading(s, e.messages, c);
    }
  }

  lemma {:induction false} ConnectedChannelsWork(run: seq<Event>, c: Connection)
    requires c in After(run).channels
    ensures c in After(run).all && After(run).all[c].reading && !Errored(run, c)
    decreases |run|
  {
    var before, e := run[..|run| - 1], run[|run| - 1];
    ViewsAlwaysAgree(before);
    assert LifeCycle(After(before), c);
    StaysConnected(After(before), e, c);
    if c in After(before).channels {
      ConnectedChannelsWork(before, c);
    } else {
      QueueAlwaysHolds(before, c);
    }
  }

  lemma {:induction false} SentAllKeepsReading(s: System, ms: seq<Message>, c: Connection)
    requires c in s.all
    ensures c in SentAll(s, ms).all && SentAll(s, ms).all[c].reading == s.all[c].reading
    decreases ms
  {
    if ms != [] {
      var d := ms[0].connection;
      SentAllKeepsReading(if d in s.channels && d in s.all then s.(all := s.all[d := Sent(s.all[d], ms[0].text)]) else s,
                          ms[1..], c);
    }
  }

  // A connected channel never stalls: a read is pending, and while texts wait, the write of
  // the first is outstanding.
  lemma ConnectedNeverStalls(run: seq<Event>, c: Connection)
    requires c in After(run).channels
    ensures c in After(run).all && After(run).all[c].reading
    ensures var ch := After(run).all[c]; ch.writing == if ch.writeBuffer == [] then [] else [ch.writeBuffer[0]]
  {
    ConnectedChannelsWork(run, c);
    QueueAlwaysHolds(run, c);
  }

  // ---------- broadcasts ----------

  lemma {:induction false} OutgoingTexts(clients: seq<Connection>, text: string, c: Connection)
    requires NoDuplicates(clients)
    ensures TextsTo(Outgoing(clients, text), c) == if c in clients && text != "" then [text] else []
  {
    if clients != [] {
      OutgoingTexts(clients[1..], text, c);
      assert Outgoing(clients, text)[1..] == Outgoing(clients[1..], text);
      assert clients[0] !in clients[1..];
    }
  }

  // The text the game server builds for its clients is routed exactly once to every connected
  // channel, and to no other.
  lemma BroadcastReachesConnected(run: seq<Event>, text: string, c: Connection)
    requires text != ""
    ensures var send := Send(Outgoing(After(run).clients, text));
      RoutedTo(run + [send], c) == RoutedTo(run, c) + if c in After(run).channels then [text] else []
  {
    var send := Send(Outgoing(After(run).clients, text));
    ViewsAlwaysAgree(run);
    OutgoingTexts(After(run).clients, text, c);
    assert (run + [send])[..|run + [send]| - 1] == run;
  }

  // ---------- incoming messages ----------

  // A read of the channel is pending.
  predicate Awaited(s: System, c: Connection) {
    c in s.all && s.all[c].reading
  }

  // The messages whose reads completed.
  function Arrived(run: seq<Event>): seq<Message> {
    if run == [] then [] else
      var before, e := run[..|run| - 1], run[|run| - 1];
      Arrived(before) +
      if e.Read? && !e.error && Awaited(After(before), e.connection) then [Message(e.connection, e.text)] else []
  }

  // What Server::receive returned.
  function Returned(run: seq<Event>): seq<Message> {
    if run == [] then [] else
      var before, e := run[..|run| - 1], run[|run| - 1];
      Returned(before) + if e.Receive? then After(before).incoming else []
  }

  lemma SentAllKeepsIncoming(s: System, ms: seq<Message>)
    ensures SentAll(s, ms).incoming == s.incoming
  {
    SentAllFrame(s, ms);
  }

  // Every message read is returned once, in the order of arrival, or still waits.
  lemma {:induction false} MessagesAreConserved(run: seq<Event>)
    ensures Returned(run) + After(run).incoming == Arrived(run)
  {
    if run != [] {
      var before, e := run[..|run| - 1], run[|run| - 1];
      MessagesAreConserved(before);
      if e.Send? {
        SentAllKeepsIncoming(After(before), e.messages);
      }
    }
  }

  // ---------- what each event does, in every reachable state ----------

  lemma OneMore(run: seq<Event>, e: Event)
    ensures After(run + [e]) == Step(After(run), e)
    ensures (run + [e])[..|run + [e]| - 1] == run
  {
  }

  // `std::remove` keeps the order: only the one element is gone.
  lemma {:induction false} WithoutCuts(cs: seq<Connection>, i: nat)
    requires i < |cs| && NoDuplicates(cs)
    ensures Without(cs, cs[i]) == cs[..i] + cs[i + 1..]
  {
    if i > 0 {
      WithoutCuts(cs[1..], i - 1);
      assert cs[1..][i - 1] == cs[i] && cs[0] != cs[i];
      assert [cs[0]] + (cs[1..][..i - 1] + cs[1..][i..]) == cs[..i] + cs[i + 1..];
    } else {
      WithoutAbsent(cs[1..], cs[0]);
    }
  }

  lemma {:induction false} WithoutAbsent(cs: seq<Connection>, c: Connection)
    requires c !in cs
    ensures Without(cs, c) == cs
  {
    if cs != [] {
      assert cs[0] in cs;
      WithoutAbsent(cs[1..], c);
    }
  }

  lemma {:induction false} WithoutUserCuts(us: seq<User>, i: nat)
    requires i < |us| && forall j, k :: 0 <= j < k < |us| ==> us[j].userConnection != us[k].userConnection
    ensures WithoutUser(us, us[i].userConnection) == us[..i] + us[i + 1..]
  {
    if i > 0 {
      WithoutUserCuts(us[1..], i - 1);
      assert us[1..][i - 1] == us[i] && us[0].userConnection != us[i].userConnection;
      assert [us[0]] + (us[1..][..i - 1] + us[1..][i..]) == us[..i] + us[i + 1..];
    } else {
      WithoutUserAbsent(us[1..], us[0].userConnection);
    }
  }

  lemma {:induction false} WithoutUserAbsent(us: seq<User>, c: Connection)
    requires forall j :: 0 <= j < |us| ==> us[j].userConnection != c
    ensures WithoutUser(us, c) == us
  {
    if us != [] {
      WithoutUserAbsent(us[1..], c);
    }
  }

  // From `s` to `t` the channel has left: marked, out of the map and of both lists, and the
  // handler was told.
  ghost predicate Left(s: System, t: System, c: Connection) {
    && c in s.all && t.all.Keys == s.all.Keys && t.all[c].disconnected
    && t.all[c].writeBuffer == s.all[c].writeBuffer
    && (forall d :: d in s.all && d != c ==> t.all[d] == s.all[d])
    && t.channels == s.channels - {c}
    && t.incoming == s.incoming
    && t.callbacks == s.callbacks + [Disconnected(c)]
    && exists i :: 0 <= i < |s.clients| && i < |s.users| && s.clients[i] == c &&
         t.clients == s.clients[..i] + s.clients[i + 1..] && t.users == s.users[..i] + s.users[i + 1..]
  }

  lemma DroppedLeft(s: System, c: Connection)
    requires ViewsAgree(s) && LifeCycle(s, c) && c in s.channels
    ensures Left(s, Dropped(s, c), c)
    ensures Dropped(s, c).all[c] == s.all[c].(disconnected := true)
  {
    var i :| 0 <= i < |s.clients| && s.clients[i] == c;
    assert s.users[i].userConnection == c;
    WithoutCuts(s.clients, i);
    WithoutUserCuts(s.users, i);
  }

  // A new channel is connected and read from; a failed handshake changes nothing.
  lemma AcceptedRegisters(run: seq<Event>, c: Connection)
    requires c !in After(run).all
    ensures var s, t := After(run), After(run + [Accepted(c, false)]);
      && t.channels == s.channels + {c}
      && t.all == s.all[c := ChannelState(false, [], [], true)]
      && t.incoming == s.incoming
      && t.clients == s.clients + [c]
      && t.users == s.users + [User(ToString(c.id), c)]
      && t.callbacks == s.callbacks + [Connected(c)]
    ensures After(run + [Accepted(c, true)]) == After(run)
  {
    ViewsAlwaysAgree(run);
    assert LifeCycle(After(run), c);
    OneMore(run, Accepted(c, false));
    OneMore(run, Accepted(c, true));
  }

  // A write that completes well delivers the front text, and the next one starts.
  lemma WrittenDelivers(run: seq<Event>, c: Connection)
    requires c in After(run).all && After(run).all[c].writing != []
    ensures var s, more := After(run), run + [Written(c, false)];
      var queue := s.all[c].writeBuffer;
      && queue != []
      && DeliveredTo(more, c) == DeliveredTo(run, c) + [queue[0]]
      && After(more) == s.(all := s.all[c := s.all[c].(
           writeBuffer := queue[1..], writing := if |queue| == 1 then [] else [queue[1]])])
  {
    QueueAlwaysHolds(run, c);
    HistoryOfWritten(run, false, run + [Written(c, false)], c);
    WritesNext(After(run), c);
  }

  lemma WritesNext(s: System, c: Connection)
    requires c in s.all && Disciplined(s.all[c], false) && s.all[c].writing != []
    ensures var queue := s.all[c].writeBuffer;
      && queue != []
      && Step(s, Written(c, false)) == s.(all := s.all[c := s.all[c].(
           writeBuffer := queue[1..], writing := if |queue| == 1 then [] else [queue[1]])])
  {
    var ch := s.all[c];
    assert |ch.writing| == 1 && ch.writing[1..] == [];
    assert |ch.writeBuffer| == 1 ==> ch.writeBuffer[1..] == [];
    var queue := ch.writeBuffer;
    assert WroteFront(ch) == ch.(writeBuffer := queue[1..], writing := if |queue| == 1 then [] else [queue[1]]);
    assert Step(s, Written(c, false)) == s.(all := s.all[c := WroteFront(ch)]);
  }

  // A write that fails leaves the queue; a connected channel then leaves the server.
  lemma FailedWriteLeaves(run: seq<Event>, c: Connection)
    requires c in After(run).all && After(run).all[c].writing != []
    ensures var s, t := After(run), After(run + [Written(c, true)]);
      && c in t.all && t.all[c].writing == [] && t.all[c].reading == s.all[c].reading
      && (c in s.channels ==> Left(s, t, c))
      && (c !in s.channels ==> t == s.(all := s.all[c := s.all[c].(writing := [])]))
  {
    var s := After(run);
    QueueAlwaysHolds(run, c);
    ViewsAlwaysAgree(run);
    OneMore(run, Written(c, true));
    assert LifeCycle(s, c) && s.all[c].writing[1..] == [];
    FailureDrops(s, s.all[c].(writing := []), c);
  }

  // A connected channel whose operation failed leaves the server.
  lemma FailureDrops(s: System, ch: ChannelState, c: Connection)
    requires ViewsAgree(s) && c in s.channels ==> LifeCycle(s, c)
    requires c in s.all && ch.writeBuffer == s.all[c].writeBuffer
    ensures var done := s.(all := s.all[c := ch]);
      ViewsAgree(s) && c in s.channels ==> Left(s, Dropped(done, c), c) && Dropped(done, c).all[c] == ch.(disconnected := true)
  {
    if ViewsAgree(s) && c in s.channels {
      DroppedLeft(s, c);
    }
  }

  // A read that completes well adds its message, and the next read is pending.
  lemma ReadArrives(run: seq<Event>, c: Connection, text: string)
    requires c in After(run).all && After(run).all[c].reading
    ensures var s := After(run);
      After(run + [Read(c, text, false)]) == s.(incoming := s.incoming + [Message(c, text)])
  {
    OneMore(run, Read(c, text, false));
  }

  // After a read that fails none is pending; a connected channel leaves the server.
  lemma FailedReadLeaves(run: seq<Event>, c: Connection, text: string)
    requires c in After(run).all && After(run).all[c].reading
    ensures var s, t := After(run), After(run + [Read(c, text, true)]);
      && c in t.all && !t.all[c].reading && t.all[c].writing == s.all[c].writing
      && (c in s.channels ==> Left(s, t, c))
      && (c !in s.channels ==> t == s.(all := s.all[c := s.all[c].(reading := false)]))
  {
    var s := After(run);
    ViewsAlwaysAgree(run);
    OneMore(run, Read(c, text, true));
    assert LifeCycle(s, c);
    FailureDrops(s, s.all[c].(reading := false), c);
  }

  // A connected channel is disconnected with its operations outstanding; any other is not known.
  lemma DisconnectLeaves(run: seq<Event>, c: Connection)
    ensures var s, t := After(run), After(run + [Disconnect(c)]);
      if c in s.channels then Left(s, t, c) && t.all[c] == s.all[c].(disconnected := true) else t == s
  {
    ViewsAlwaysAgree(run);
    assert LifeCycle(After(run), c);
    OneMore(run, Disconnect(c));
    if c in After(run).channels {
      DroppedLeft(After(run), c);
    }
  }

  // The texts sent are queued at the connected channels, and the first is written at once.
  lemma SendQueues(run: seq<Event>, ms: seq<Message>, c: Connection)
    requires c in After(run).channels
    ensures var s, t := After(run), After(run + [Send(ms)]);
      && c in s.all && c in t.all
      && t.all[c].writeBuffer == s.all[c].writeBuffer + TextsTo(ms, c)
      && t.all[c].writing == (if t.all[c].writeBuffer == [] then [] else [t.all[c].writeBuffer[0]])
      && t == s.(all := t.all)
  {
    var s := After(run);
    ViewsAlwaysAgree(run);
    assert LifeCycle(s, c);
    QueueAlwaysHolds(run, c);
    OneMore(run, Send(ms));
    SentAllFrame(s, ms);
    SentAllAt(s, ms, c);
    TextsToNonEmpty(ms, c);
    SentTextsQueue(s.all[c], TextsTo(ms, c), Errored(run, c));
    ConnectedNeverStalls(run + [Send(ms)], c);
  }

  lemma ReceiveEmpties(run: seq<Event>)
    ensures After(run + [Event.Receive]) == After(run).(incoming := [])
  {
    OneMore(run, Event.Receive);
  }

  // ---------- every waiting text can be delivered ----------

  function Completions(c: Connection, n: nat): seq<Event> {
    if n == 0 then [] else [Written(c, false)] + Completions(c, n - 1)
  }

  // Everything routed to the channel is delivered.
  ghost predicate Drained(run: seq<Event>, c: Connection, routed: seq<string>) {
    && RoutedTo(run, c) == routed && DeliveredTo(run, c) == routed
    && c in After(run).all && After(run).all[c].writeBuffer == [] && After(run).all[c].writing == []
  }

  // Without an error, as many good completions as texts wait deliver everything routed.
  lemma {:induction false} CompletionsDeliverAll(run: seq<Event>, c: Connection)
    requires c in After(run).all && !Errored(run, c)
    ensures Drained(run + Completions(c, |After(run).all[c].writeBuffer|), c, RoutedTo(run, c))
    decreases |After(run).all[c].writeBuffer|
  {
    var queue := After(run).all[c].writeBuffer;
    QueueAlwaysHolds(run, c);
    if queue == [] {
      assert run + Completions(c, 0) == run;
    } else {
      var next := run + [Written(c, false)];
      OneDelivered(run, c);
      CompletionsDeliverAll(next, c);
      CompletionsSplit(run, c, |queue|);
    }
  }

  lemma CompletionsSplit(run: seq<Event>, c: Connection, n: nat)
    requires n > 0
    ensures run + Completions(c, n) == run + [Written(c, false)] + Completions(c, n - 1)
  {
  }

  lemma OneDelivered(run: seq<Event>, c: Connection)
    requires c in After(run).all && After(run).all[c].writing != [] && !Errored(run, c)
    ensures var next := run + [Written(c, false)];
      && c in After(next).all && !Errored(next, c)
      && |After(next).all[c].writeBuffer| == |After(run).all[c].writeBuffer| - 1
      && RoutedTo(next, c) == RoutedTo(run, c)
  {
    var next := run + [Written(c, false)];
    WrittenDelivers(run, c);
    HistoryOfWritten(run, false, next, c);
    assert RoutedTo(run, c) + [] == RoutedTo(run, c);
  }
}
