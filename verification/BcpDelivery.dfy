/** What a broadcast on the spot does: which deliveries it consists of, and what they leave in the boxes. */
module BcpDelivery {
  import opened Common
  import opened BcpState
  import opened BcpNetwork
  import opened BcpLaws

  /* ---- the events of a broadcast ---- */

  // m to the peers 0 .. n - 1, in this order.
  function Deliveries(sender: nat, m: Message, n: nat): (events: seq<Event>)
    ensures |events| == n
  {
    seq(n, i requires 0 <= i < n => Deliver(i, Packet(sender, m)))
  }

  ghost predicate Confirms(c: Config, s: Node, b: Block) {
    Elected(c, s.votes) == Some(b.header) && c.valid(b)
  }

  // A block for verification to the peers 0 .. k - 1; the confirmation of a peer goes to all before the next peer is
  // served.
  ghost function VerifyDeliveries(c: Config, nodes: seq<Node>, sender: nat, b: Block, k: nat): seq<Event>
    requires k <= |nodes|
  {
    if k == 0 then []
    else
      VerifyDeliveries(c, nodes, sender, b, k - 1) + [Deliver(k - 1, Packet(sender, VerifyBlock(b)))]
      + (if Confirms(c, nodes[k - 1], b) then Deliveries(k - 1, CommitBlock(b), |nodes|) else [])
  }

  // The peers that get the packet, in the order in which they get it.
  function Recipients(events: seq<Event>, p: Packet): seq<nat> {
    if |events| == 0 then []
    else
      var last := events[|events| - 1];
      Recipients(events[..|events| - 1], p) + (if last.Deliver? && last.packet == p then [last.node] else [])
  }

  lemma {:induction false} RecipientsConcat(xs: seq<Event>, ys: seq<Event>, p: Packet)
    ensures Recipients(xs + ys, p) == Recipients(xs, p) + Recipients(ys, p)
    decreases |ys|
  {
    if |ys| == 0 {
      assert xs + ys == xs;
    } else {
      var k := |ys| - 1;
      RecipientsConcat(xs, ys[..k], p);
      assert (xs + ys)[..|xs + ys| - 1] == xs + ys[..k];
    }
  }

  function UpTo(n: nat): (s: seq<nat>)
    ensures |s| == n && forall i :: 0 <= i < n ==> s[i] == i
  {
    seq(n, i requires 0 <= i < n => i)
  }

  lemma {:induction false} DeliveriesReach(sender: nat, m: Message, n: nat, p: Packet)
    ensures Recipients(Deliveries(sender, m, n), p) == if p == Packet(sender, m) then UpTo(n) else []
    decreases n
  {
    if n > 0 {
      DeliveriesReach(sender, m, n - 1, p);
      assert Deliveries(sender, m, n)[..n - 1] == Deliveries(sender, m, n - 1);
    }
  }

  lemma {:induction false} VerifyDeliveriesReach(c: Config, nodes: seq<Node>, sender: nat, b: Block, k: nat)
    requires k <= |nodes|
    ensures Recipients(VerifyDeliveries(c, nodes, sender, b, k), Packet(sender, VerifyBlock(b))) == UpTo(k)
    decreases k
  {
    hide Confirms, Recipients;
    var p := Packet(sender, VerifyBlock(b));
    if k == 0 {
      NoRecipients(p);
    } else {
      var xs, d := VerifyDeliveries(c, nodes, sender, b, k - 1), Deliver(k - 1, p);
      VerifyDeliveriesReach(c, nodes, sender, b, k - 1);
      OneRecipient(d, p);
      RecipientsConcat(xs, [d], p);
      var ys := if Confirms(c, nodes[k - 1], b) then Deliveries(k - 1, CommitBlock(b), |nodes|) else [];
      RecipientsConcat(xs + [d], ys, p);
      DeliveriesReach(k - 1, CommitBlock(b), |nodes|, p);
      NoRecipients(p);
    }
  }

  lemma NoRecipients(p: Packet)
    ensures Recipients([], p) == []
  {
  }

  lemma OneRecipient(e: Event, p: Packet)
    requires e.Deliver? && e.packet == p
    ensures Recipients([e], p) == [e.node]
  {
    NoRecipients(p);
  }

  /* ---- what deliveries leave behind ---- */

  // No box loses an entry, and what is elected stays elected.
  ghost predicate Grows(c: Config, s: Node, t: Node) {
    && s.rounds.messages.Keys <= t.rounds.messages.Keys && s.proposed.Keys <= t.proposed.Keys
    && s.votes.box.Keys <= t.votes.box.Keys && s.votes.verified.Keys <= t.votes.verified.Keys
    && (Elected(c, s.votes).Some? ==> Elected(c, t.votes) == Elected(c, s.votes))
  }

  // The sender is recorded in the box of the message; for a confirmed block only with the elected header.
  ghost predicate Got(c: Config, t: Node, sender: int, m: Message) {
    match m
    case NewRound(_) => sender in t.rounds.messages
    case ProposeHeader(_) => sender in t.proposed
    case VoteFor(_) => sender in t.votes.box
    case CommitBlock(b) => Elected(c, t.votes) == Some(b.header) ==> sender in t.votes.verified
    case VerifyBlock(_) => true
  }

  lemma DeliveryEffect(c: Config, s: Node, sender: int, m: Message)
    requires Tally(c, s.votes) && 0 <= sender < c.peers
    ensures var (t, out) := Received(c, s, sender, m);
      && Grows(c, s, t) && Got(c, t, sender, m)
      && (m.VerifyBlock? || m.CommitBlock? ==> Elected(c, t.votes) == Elected(c, s.votes))
      && out == if m.VerifyBlock? && Confirms(c, s, m.block) then Some(CommitBlock(m.block)) else None
  {
    hide Elected, Tally, Received;
    ArrivesExactly(c, s, sender, m);
    ReceivedKeepsTally(c, s, sender, m);
    DeliveryVotes(c, s, sender, m);
  }

  lemma DeliveryVotes(c: Config, s: Node, sender: int, m: Message)
    requires Tally(c, s.votes) && 0 <= sender < c.peers
    ensures var (t, out) := Received(c, s, sender, m);
      && (m.VerifyBlock? || m.CommitBlock? ==> Elected(c, t.votes) == Elected(c, s.votes))
      && out == if m.VerifyBlock? && Confirms(c, s, m.block) then Some(CommitBlock(m.block)) else None
  {
    hide Elected, Tally, Voted, Verified;
    if m.CommitBlock? {
      VerifiedKeepsTally(c, s.votes, sender, m.block);
    }
  }

  // A broadcast of m under way: i peers have been served, with these events.
  ghost predicate Sending(c: Config, start: seq<Node>, now: seq<Node>, sender: nat, m: Message, i: nat,
                          events: seq<Event>)
  {
    && |start| == |now| && i <= |start|
    && (forall j :: 0 <= j < |start| ==> Grows(c, start[j], now[j]))
    && (forall j :: 0 <= j < i ==> Got(c, now[j], sender, m))
    && (m.VerifyBlock? || m.CommitBlock? ==> SameElected(c, start, now))
    && (if m.VerifyBlock? then
          && events == VerifyDeliveries(c, start, sender, m.block, i)
          && (forall j :: 0 <= j < i && Confirms(c, start[j], m.block) ==> Spread(c, now, j, m.block))
        else events == Deliveries(sender, m, i))
  }

  ghost predicate SameElected(c: Config, start: seq<Node>, now: seq<Node>)
    requires |start| == |now|
  {
    forall j :: 0 <= j < |start| ==> Elected(c, now[j].votes) == Elected(c, start[j].votes)
  }

  // Everybody who elected the header of b has recorded the confirmation by peer j.
  ghost predicate Spread(c: Config, now: seq<Node>, j: int, b: Block) {
    forall k :: 0 <= k < |now| ==> Got(c, now[k], j, CommitBlock(b))
  }

  lemma SendingStarts(c: Config, nodes: seq<Node>, sender: nat, m: Message)
    ensures Sending(c, nodes, nodes, sender, m, 0, [])
  {
    hide Elected, Confirms;
  }

  // The boxes of other nodes are left alone by a delivery, and grow in an answer.
  lemma GotStays(c: Config, s: Node, t: Node, sender: int, m: Message)
    requires Got(c, s, sender, m) && Grows(c, s, t) && (m.CommitBlock? ==> Elected(c, t.votes) == Elected(c, s.votes))
    ensures Got(c, t, sender, m)
  {
    hide Elected;
  }

  lemma GrowsOn(c: Config, s: Node, t: Node, u: Node)
    requires Grows(c, s, t) && Grows(c, t, u)
    ensures Grows(c, s, u)
  {
    hide Elected;
  }

  // One more peer is served and does not answer.
  lemma SendingOn(c: Config, start: seq<Node>, now: seq<Node>, sender: nat, m: Message, i: nat, events: seq<Event>)
    requires Sending(c, start, now, sender, m, i, events) && i < |start|
    requires Tally(c, now[i].votes) && sender < c.peers && Received(c, now[i], sender, m).1.None?
    ensures Sending(c, start, now[i := Received(c, now[i], sender, m).0], sender, m, i + 1,
                    events + [Deliver(i, Packet(sender, m))])
  {
    hide Elected, Tally, Received, Grows, Got, Confirms;
    DeliveryEffect(c, now[i], sender, m);
    var t := Received(c, now[i], sender, m).0;
    var later := now[i := t];
    GrowsOn(c, start[i], now[i], t);
    if m.VerifyBlock? {
      VerifyLeaves(c, now[i], sender, m);
      assert later == now;
      ConfirmsStart(c, start[i], now[i], m.block);
    } else {
      assert Deliveries(sender, m, i) + [Deliver(i, Packet(sender, m))] == Deliveries(sender, m, i + 1);
    }
  }

  lemma VerifyLeaves(c: Config, s: Node, sender: int, m: Message)
    requires m.VerifyBlock?
    ensures Received(c, s, sender, m).0 == s
  {
    hide Elected;
  }

  lemma ConfirmsStart(c: Config, s: Node, t: Node, b: Block)
    requires Elected(c, s.votes) == Elected(c, t.votes)
    ensures Confirms(c, s, b) == Confirms(c, t, b)
  {
  }

  // One more peer is served, and its answer is delivered to all.
  lemma SendingAnswered(c: Config, start: seq<Node>, now: seq<Node>, sender: nat, m: Message, i: nat,
                        events: seq<Event>, later: seq<Node>, more: seq<Event>)
    requires Sending(c, start, now, sender, m, i, events) && i < |start|
    requires Tally(c, now[i].votes) && sender < c.peers && Received(c, now[i], sender, m).1.Some?
    requires Sending(c, now[i := Received(c, now[i], sender, m).0], later, i, Received(c, now[i], sender, m).1.value,
                     |start|, more)
    ensures Sending(c, start, later, sender, m, i + 1, events + [Deliver(i, Packet(sender, m))] + more)
  {
    hide Elected, Tally, Received, Grows, Confirms;
    DeliveryEffect(c, now[i], sender, m);
    VerifyLeaves(c, now[i], sender, m);
    assert now[i := now[i]] == now;
    var b := m.block;
    ConfirmsStart(c, start[i], now[i], b);
    forall j | 0 <= j < |start|
      ensures Grows(c, start[j], later[j])
    {
      GrowsOn(c, start[j], now[j], later[j]);
    }
    assert Spread(c, later, i, b);
    forall j | 0 <= j < i && Confirms(c, start[j], b)
      ensures Spread(c, later, j, b)
    {
      SpreadStays(c, now, later, j, b);
    }
  }

  lemma SpreadStays(c: Config, now: seq<Node>, later: seq<Node>, j: int, b: Block)
    requires Spread(c, now, j, b) && |now| == |later| && SameElected(c, now, later)
    requires forall k :: 0 <= k < |now| ==> Grows(c, now[k], later[k])
    ensures Spread(c, later, j, b)
  {
    hide Elected, Grows, Got;
    forall k | 0 <= k < |later|
      ensures Got(c, later[k], j, CommitBlock(b))
    {
      GotStays(c, now[k], later[k], j, CommitBlock(b));
    }
  }

  // What a finished broadcast comes to, written out.
  lemma SendingEnds(c: Config, start: seq<Node>, now: seq<Node>, sender: nat, m: Message, events: seq<Event>)
    requires Sending(c, start, now, sender, m, |start|, events)
    ensures Recipients(events, Packet(sender, m)) == UpTo(|start|)
    ensures m.NewRound? ==> forall j :: 0 <= j < |now| ==> sender in now[j].rounds.messages
    ensures m.ProposeHeader? ==> forall j :: 0 <= j < |now| ==> sender in now[j].proposed
    ensures m.VoteFor? ==> forall j :: 0 <= j < |now| ==> sender in now[j].votes.box
    ensures m.CommitBlock? ==> forall j :: 0 <= j < |now| && Elected(c, now[j].votes) == Some(m.block.header) ==>
      sender in now[j].votes.verified
    ensures m.VerifyBlock? ==> forall i, j :: 0 <= i < |now| && 0 <= j < |now| && Confirms(c, start[i], m.block) ==>
      (Elected(c, now[j].votes) == Some(m.block.header) ==> i in now[j].votes.verified)
  {
    hide Elected, Grows, Confirms, Recipients, Deliveries;
    if m.VerifyBlock? {
      VerifyDeliveriesReach(c, start, sender, m.block, |start|);
    } else {
      DeliveriesReach(sender, m, |start|, Packet(sender, m));
    }
    forall j | 0 <= j < |now|
      ensures Got(c, now[j], sender, m)
    {
    }
    if m.VerifyBlock? {
      forall i, j | 0 <= i < |now| && 0 <= j < |now| && Confirms(c, start[i], m.block)
        ensures Elected(c, now[j].votes) == Some(m.block.header) ==> i in now[j].votes.verified
      {
        assert Spread(c, now, i, m.block);
        assert Got(c, now[j], i, CommitBlock(m.block));
      }
    }
  }

  /* ---- nothing stays undelivered ---- */

  // Every broadcast made by the events reaches every node later among them.
  ghost predicate Delivered(c: Config, a: Net, events: seq<Event>)
    decreases |events|
  {
    |events| == 0 ||
    (Enabled(a, events[0]) && Reaches(c, a, events[0], events[1..]) && Delivered(c, Next(c, a, events[0]), events[1..]))
  }

  ghost predicate Reaches(c: Config, a: Net, e: Event, later: seq<Event>)
    requires Enabled(a, e)
  {
    Reaction(c, a, e).1.Some? ==>
      forall j: nat :: j < |a.nodes| ==> Deliver(j, Packet(e.node, Reaction(c, a, e).1.value)) in later
  }

  lemma {:induction false} DeliveredOn(c: Config, a: Net, events: seq<Event>, b: Net, more: seq<Event>)
    requires Delivered(c, a, events) && Leads(c, a, events, b) && Delivered(c, b, more)
    ensures Delivered(c, a, events + more)
    decreases |events|
  {
    hide Next, Reaction, Enabled;
    if |events| == 0 {
      assert events + more == more;
    } else {
      DeliveredOn(c, Next(c, a, events[0]), events[1..], b, more);
      assert (events + more)[1..] == events[1..] + more;
    }
  }

  lemma {:induction false} ReachedIn(events: seq<Event>, p: Packet, j: nat)
    requires j in Recipients(events, p)
    ensures Deliver(j, p) in events
    decreases |events|
  {
    var k := |events| - 1;
    if !(events[k].Deliver? && events[k].packet == p && events[k].node == j) {
      ReachedIn(events[..k], p, j);
    }
  }

  // An event whose broadcast, if any, is delivered by the events that follow.
  lemma DeliveredFirst(c: Config, a: Net, e: Event, more: seq<Event>)
    requires Enabled(a, e) && Delivered(c, Next(c, a, e), more)
    requires Reaction(c, a, e).1.Some? ==>
      Recipients(more, Packet(e.node, Reaction(c, a, e).1.value)) == UpTo(|a.nodes|)
    ensures Delivered(c, a, [e] + more)
  {
    hide Next, Reaction, Enabled, Recipients;
    assert ([e] + more)[1..] == more;
    var r := Reaction(c, a, e).1;
    if r.Some? {
      forall j: nat | j < |a.nodes|
        ensures Deliver(j, Packet(e.node, r.value)) in more
      {
        assert UpTo(|a.nodes|)[j] == j;
        ReachedIn(more, Packet(e.node, r.value), j);
      }
    }
  }

  /* ---- the calls of process() among the events ---- */

  function Calls(events: seq<Event>): seq<Event> {
    if |events| == 0 then []
    else
      var last := events[|events| - 1];
      Calls(events[..|events| - 1]) + (if last.Process? then [last] else [])
  }

  lemma {:induction false} CallsConcat(xs: seq<Event>, ys: seq<Event>)
    ensures Calls(xs + ys) == Calls(xs) + Calls(ys)
    decreases |ys|
  {
    if |ys| == 0 {
      assert xs + ys == xs;
    } else {
      var k := |ys| - 1;
      CallsConcat(xs, ys[..k]);
      assert (xs + ys)[..|xs + ys| - 1] == xs + ys[..k];
    }
  }

  lemma {:induction false} NoCalls(events: seq<Event>)
    requires forall i :: 0 <= i < |events| ==> events[i].Deliver?
    ensures Calls(events) == []
    decreases |events|
  {
    if |events| > 0 {
      NoCalls(events[..|events| - 1]);
    }
  }

  lemma {:induction false} OnlyDeliveries(c: Config, nodes: seq<Node>, sender: nat, b: Block, k: nat)
    requires k <= |nodes|
    ensures forall i :: 0 <= i < |VerifyDeliveries(c, nodes, sender, b, k)| ==>
      VerifyDeliveries(c, nodes, sender, b, k)[i].Deliver?
    decreases k
  {
    hide Confirms;
    if k > 0 {
      OnlyDeliveries(c, nodes, sender, b, k - 1);
    }
  }

  lemma SendingCalls(c: Config, start: seq<Node>, now: seq<Node>, sender: nat, m: Message, i: nat, events: seq<Event>)
    requires Sending(c, start, now, sender, m, i, events)
    ensures Calls(events) == []
  {
    hide Elected, Grows, Got, Confirms, VerifyDeliveries, Calls;
    if m.VerifyBlock? {
      OnlyDeliveries(c, start, sender, m.block, i);
    }
    NoCalls(events);
  }
}
