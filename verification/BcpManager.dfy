/** The node manager: a broadcast is delivered to every node on the spot, one after the other. */
module BcpManager {
  import opened Common
  import opened BcpState
  import opened BcpNetwork
  import opened BcpDelivery
  import opened BcpServer

  class NodeManager {
    const config: Config
    const servers: seq<Server>
    // Everything broadcast so far.
    ghost var sent: set<Packet>

    ghost predicate Valid()
      reads this, servers
    {
      && |servers| == config.peers
      && (forall i :: 0 <= i < |servers| ==> servers[i].Valid() && servers[i].config == config)
      && (forall i, j :: 0 <= i < j < |servers| ==> servers[i] != servers[j])
    }

    ghost function Net(): Net
      reads this, servers
    {
      BcpNetwork.Net(seq(|servers|, i requires 0 <= i < |servers| reads this, servers => servers[i].State()), sent)
    }

    // One server for each peer; those whose clock is not synchronised stay idle.
    constructor (config: Config, genesis: Block, synced: seq<bool>)
      requires |synced| == config.peers
      ensures Valid() && this.config == config && fresh(servers)
      ensures Quiet(config, Net())
      ensures forall k :: 0 <= k < config.peers ==> servers[k].State() == Started(genesis, synced[k])
    {
      var list := StartServers(config, genesis, synced);
      this.config := config;
      servers := list;
      sent := {};
    }

    // Puts on record what a node broadcast.
    ghost method Record(sender: nat, m: Option<Message>)
      modifies this`sent
      ensures sent == Broadcast(old(sent), sender, m)
    {
      if m.Some? {
        sent := sent + {Packet(sender, m.value)};
      }
    }

    method DeliverTo(i: nat, sender: nat, m: Message) returns (out: Option<Message>)
      requires Valid() && i < |servers| && sender < config.peers && Packet(sender, m) in sent
      modifies this`sent, servers[i]
      ensures Valid() && old(sent) <= sent
      ensures Enabled(old(Net()), Deliver(i, Packet(sender, m)))
      ensures Net() == Next(config, old(Net()), Deliver(i, Packet(sender, m)))
      ensures Net().nodes == old(Net()).nodes[i := Received(config, old(Net()).nodes[i], sender, m).0]
      ensures out == Received(config, old(Net()).nodes[i], sender, m).1
      ensures out.Some? ==> Packet(i, out.value) in sent && m.VerifyBlock? && !out.value.VerifyBlock?
    {
      hide Received, Tally, Leads;
      AnswerKind(config, servers[i].State(), sender, m);
      out := servers[i].OnPeerMessage(sender, m);
      Record(i, out);
    }

    lemma NodesAre(i: nat)
      requires Valid() && i < |servers|
      ensures |Net().nodes| == |servers| == config.peers
      ensures Net().nodes[i] == servers[i].State() && Tally(config, Net().nodes[i].votes)
    {
      hide Tally;
    }

    // Delivers m to every node; what a node broadcasts in answer is delivered before the next node gets m.
    method SendAll(sender: nat, m: Message) returns (ghost events: seq<Event>)
      requires Valid() && sender < config.peers && Packet(sender, m) in sent
      modifies this`sent, servers
      ensures Valid() && old(sent) <= sent
      ensures Leads(config, old(Net()), events, Net()) && Delivered(config, old(Net()), events)
      ensures Sending(config, old(Net()).nodes, Net().nodes, sender, m, |servers|, events)
      // Every node gets it once, in ascending order, with nothing in between but the deliveries of answers.
      ensures Recipients(events, Packet(sender, m)) == UpTo(|servers|)
      ensures !m.VerifyBlock? ==>
        events == seq(|servers|, i requires 0 <= i < |servers| => Deliver(i, Packet(sender, m)))
      // And its box records the sender.
      ensures m.NewRound? ==> forall i :: 0 <= i < |servers| ==> sender in servers[i].newRoundMessages
      ensures m.ProposeHeader? ==> forall i :: 0 <= i < |servers| ==> sender in servers[i].proposedHeaders
      ensures m.VoteFor? ==> forall i :: 0 <= i < |servers| ==> sender in servers[i].voteBox
      ensures m.CommitBlock? ==> forall i :: 0 <= i < |servers| ==>
        (Elected(config, servers[i].Votes()) == Some(m.block.header) ==> sender in servers[i].verifiedBlocks)
      decreases if m.VerifyBlock? then 1 else 0
    {
      hide Next, Leads, Enabled, Sending, Delivered, Received, Reaction, Net, Tally, Elected;
      ghost var start := Net();
      LeadsNowhere(config, start);
      DeliveredNone(config, start);
      SendingStarts(config, start.nodes, sender, m);
      NetSize();
      events := [];
      var i := 0;
      while i < |servers|
        invariant i <= |servers| && Valid() && old(sent) <= sent
        invariant Leads(config, start, events, Net()) && Delivered(config, start, events)
        invariant Sending(config, start.nodes, Net().nodes, sender, m, i, events)
      {
        ghost var net, e := Net(), Deliver(i, Packet(sender, m));
        NodesAre(i);
        var out := DeliverTo(i, sender, m);
        ReactionIs(config, net, e);
        LeadsOneMore(config, start, events, net, e, Net());
        ghost var more: seq<Event> := [];
        if out.Some? {
          ghost var mid := Net();
          more := SendAll(i, out.value);
          SendingAnswered(config, start.nodes, net.nodes, sender, m, i, events, Net().nodes, more);
          LeadsOn(config, start, events + [e], mid, more, Net());
        } else {
          DeliveredNone(config, Net());
          SendingOn(config, start.nodes, net.nodes, sender, m, i, events);
          assert events + [e] + [] == events + [e];
        }
        DeliveredFirst(config, net, e, more);
        DeliveredOn(config, start, events, net, [e] + more);
        assert events + ([e] + more) == events + [e] + more;
        events := events + [e] + more;
        i := i + 1;
      }
      SendingEnds(config, start.nodes, Net().nodes, sender, m, events);
      SendingPlain(config, start.nodes, Net().nodes, sender, m, events);
      NetSize();
      forall k | 0 <= k < |servers|
        ensures Net().nodes[k] == servers[k].State()
      {
        NodesAre(k);
      }
    }

    lemma NetSize()
      requires Valid()
      ensures |Net().nodes| == |servers| == config.peers
    {
    }

    method ProcessAlone(i: nat, around: Surroundings) returns (out: Option<Message>)
      requires Valid() && i < |servers|
      modifies this`sent, servers[i]
      ensures Valid() && old(sent) <= sent
      ensures Enabled(old(Net()), Process(i, around)) && Net() == Next(config, old(Net()), Process(i, around))
      ensures Net().nodes == old(Net()).nodes[i := Processed(config, old(Net()).nodes[i], around).0]
      ensures out == Processed(config, old(Net()).nodes[i], around).1
      ensures out.Some? ==> Packet(i, out.value) in sent
    {
      hide Processed, Tally, Leads;
      out := servers[i].Process(around);
      Record(i, out);
    }

    // One node calls process(), and what it broadcasts is delivered at once.
    method ProcessNode(i: nat, around: Surroundings) returns (ghost events: seq<Event>)
      requires Valid() && i < |servers|
      modifies this`sent, servers
      ensures Valid() && old(sent) <= sent
      ensures Leads(config, old(Net()), events, Net()) && Delivered(config, old(Net()), events)
      // The call comes first and is the only one; every node then gets what it broadcast, once and in order.
      ensures |events| > 0 && events[0] == Process(i, around) && Calls(events) == [Process(i, around)]
      ensures var out := Processed(config, old(Net()).nodes[i], around).1;
        if out.Some? then Recipients(events, Packet(i, out.value)) == UpTo(|servers|) else |events| == 1
    {
      hide Next, Leads, Enabled, Sending, Delivered, Processed, Reaction, Net, Tally, Calls, Recipients;
      ghost var start, e := Net(), Process(i, around);
      NetSize();
      LeadsNowhere(config, start);
      var out := ProcessAlone(i, around);
      ghost var mid := Net();
      NetSize();
      ReactionIs(config, start, e);
      LeadsOneMore(config, start, [], start, e, mid);
      ghost var more: seq<Event> := [];
      if out.Some? {
        more := SendAll(i, out.value);
        LeadsOn(config, start, [] + [e], mid, more, Net());
        SendingCalls(config, mid.nodes, Net().nodes, i, out.value, |servers|, more);
      } else {
        DeliveredNone(config, mid);
        NoCalls(more);
      }
      DeliveredFirst(config, start, e, more);
      CallFirst(e, more);
      if out.Some? {
        RecipientsFirst(e, more, Packet(i, out.value));
      }
      assert [] + [e] == [e] && (out.None? ==> [e] + more == [e]);
      events := [e] + more;
    }

    // One turn of the main loop: every node calls process() once, in order. It is one of the runs of the network, and
    // nothing that is broadcast in it stays undelivered.
    method MainTurn(arounds: seq<Surroundings>) returns (ghost events: seq<Event>)
      requires Valid() && |arounds| == |servers|
      modifies this`sent, servers
      ensures Valid() && old(sent) <= sent
      ensures Leads(config, old(Net()), events, Net()) && Delivered(config, old(Net()), events)
      ensures Calls(events) == seq(|servers|, i requires 0 <= i < |servers| => Process(i, arounds[i]))
    {
      hide Next, Leads, Enabled, Delivered, Processed, Net, Calls, Recipients;
      ghost var start := Net();
      LeadsNowhere(config, start);
      DeliveredNone(config, start);
      NoCalls([]);
      events := [];
      ghost var calls: seq<Event> := [];
      var i := 0;
      while i < |servers|
        invariant i <= |servers| && Valid() && old(sent) <= sent
        invariant Leads(config, start, events, Net()) && Delivered(config, start, events)
        invariant Calls(events) == calls && |calls| == i
        invariant forall k :: 0 <= k < i ==> calls[k] == Process(k, arounds[k])
      {
        ghost var before := Net();
        ghost var more := ProcessNode(i, arounds[i]);
        LeadsOn(config, start, events, before, more, Net());
        DeliveredOn(config, start, events, before, more);
        CallsConcat(events, more);
        events := events + more;
        calls := calls + [Process(i, arounds[i])];
        i := i + 1;
      }
      assert calls == seq(|servers|, k requires 0 <= k < |servers| => Process(k, arounds[k]));
    }
  }

  lemma DeliveredNone(c: Config, a: Net)
    ensures Delivered(c, a, [])
  {
  }

  lemma ReactionIs(c: Config, net: Net, e: Event)
    requires Enabled(net, e)
    ensures Reaction(c, net, e) ==
      if e.Process? then Processed(c, net.nodes[e.node], e.around)
      else Received(c, net.nodes[e.node], e.packet.sender, e.packet.message)
  {
  }

  lemma SendingPlain(c: Config, start: seq<Node>, now: seq<Node>, sender: nat, m: Message, events: seq<Event>)
    requires Sending(c, start, now, sender, m, |start|, events)
    ensures !m.VerifyBlock? ==> events == seq(|start|, i requires 0 <= i < |start| => Deliver(i, Packet(sender, m)))
  {
    hide Elected, Grows, Got;
  }

  lemma CallFirst(e: Event, more: seq<Event>)
    requires e.Process? && Calls(more) == []
    ensures Calls([e] + more) == [e]
  {
    CallsConcat([e], more);
    assert [e][..0] == [];
  }

  lemma RecipientsFirst(e: Event, more: seq<Event>, p: Packet)
    requires e.Process?
    ensures Recipients([e] + more, p) == Recipients(more, p)
  {
    RecipientsConcat([e], more, p);
    assert [e][..0] == [];
  }

  function Started(genesis: Block, synced: bool): Node {
    var step := if synced then Waiting else Null;
    Node(step, 0, Rounds(map[], map[]), genesis, map[], map[], genesis.header, Empty(genesis), [])
  }

  method StartServers(config: Config, genesis: Block, synced: seq<bool>) returns (list: seq<Server>)
    ensures |list| == |synced| && fresh(list)
    ensures forall k :: 0 <= k < |list| ==>
      list[k].Valid() && list[k].config == config && list[k].State() == Started(genesis, synced[k])
    ensures forall j, k :: 0 <= j < k < |list| ==> list[j] != list[k]
  {
    hide *;
    list := [];
    var i := 0;
    while i < |synced|
      invariant i == |list| <= |synced| && fresh(list)
      invariant forall k :: 0 <= k < i ==>
        list[k].Valid() && list[k].config == config && list[k].State() == Started(genesis, synced[k])
      invariant forall j, k :: 0 <= j < k < i ==> list[j] != list[k]
    {
      var server := StartServer(config, genesis, synced[i]);
      list := list + [server];
      i := i + 1;
    }
  }

  method StartServer(config: Config, genesis: Block, synced: bool) returns (server: Server)
    ensures fresh(server) && server.Valid() && server.config == config && server.State() == Started(genesis, synced)
  {
    hide Tally, Empty;
    server := new Server(config, genesis);
    var _ := server.Start(synced);
  }

  lemma AnswerKind(c: Config, s: Node, sender: int, m: Message)
    ensures var r := Received(c, s, sender, m);
            r.1.Some? ==> m.VerifyBlock? && !r.1.value.VerifyBlock?
  {
    hide Elected, Voted, Verified;
  }

  lemma LeadsNowhere(c: Config, a: Net)
    ensures Leads(c, a, [], a)
  {
  }

  lemma LeadsOneMore(c: Config, a: Net, events: seq<Event>, b: Net, e: Event, d: Net)
    requires Leads(c, a, events, b) && Enabled(b, e) && d == Next(c, b, e)
    ensures Leads(c, a, events + [e], d)
  {
    hide Next, Enabled;
    LeadsNowhere(c, d);
    assert [e][1..] == [];
    LeadsOn(c, a, events, b, [e], d);
  }
}
