/** From proposals to elections over whole runs: what is voted for was proposed, equal proposals get equal votes, and a
    majority of equal proposals is elected. */
module BcpElection {
  import opened Common
  import opened IntSets
  import opened BcpState
  import opened BcpNetwork
  import opened BcpLaws

  /* ---- every vote is for a proposal ---- */

  ghost predicate WasProposed(sent: set<Packet>, h: Header) {
    exists q: int :: WasSent(sent, q, ProposeHeader(h))
  }

  // The boxes of proposals hold what was broadcast, and so does every vote.
  ghost predicate Proposals(net: Net) {
    && (forall i, q :: 0 <= i < |net.nodes| && q in net.nodes[i].proposed ==>
        WasSent(net.sent, q, ProposeHeader(net.nodes[i].proposed[q])))
    && (forall p, h :: WasSent(net.sent, p, VoteFor(h)) ==> WasProposed(net.sent, h))
  }

  lemma NextKeepsProposals(c: Config, net: Net, e: Event)
    requires Enabled(net, e) && Proposals(net)
    ensures Proposals(Next(c, net, e))
  {
    hide Processed, Received;
    var t := Next(c, net, e);
    var r := Reaction(c, net, e);
    assert net.sent <= t.sent;
    ReactionProposals(c, net, e);
    forall p, h | WasSent(t.sent, p, VoteFor(h))
      ensures WasProposed(t.sent, h)
    {
      if WasSent(net.sent, p, VoteFor(h)) {
        var q: int :| WasSent(net.sent, q, ProposeHeader(h));
        assert WasSent(t.sent, q, ProposeHeader(h));
      } else {
        assert r.1 == Some(VoteFor(h));
        var q: int :| WasSent(net.sent, q, ProposeHeader(h));
        assert WasSent(t.sent, q, ProposeHeader(h));
      }
    }
  }

  // A node keeps proposals that were broadcast, and votes for one of them.
  lemma ReactionProposals(c: Config, net: Net, e: Event)
    requires Enabled(net, e) && Proposals(net)
    ensures var r := Reaction(c, net, e);
      && (forall q :: q in r.0.proposed ==> WasSent(net.sent, q, ProposeHeader(r.0.proposed[q])))
      && (forall h :: r.1 == Some(VoteFor(h)) ==> WasProposed(net.sent, h))
  {
    hide Processed, Received;
    var s := net.nodes[e.node];
    if e.Process? {
      ClearsExactly(c, s, e.around);
      forall h | Reaction(c, net, e).1 == Some(VoteFor(h))
        ensures WasProposed(net.sent, h)
      {
        VotesExactly(c, s, e.around, h);
        var k: int :| k in s.proposed && s.proposed[k] == h;
        assert WasSent(net.sent, k, ProposeHeader(h));
      }
    } else {
      ArrivesExactly(c, s, e.packet.sender, e.packet.message);
      ReceivedStep(c, s, e.packet.sender, e.packet.message);
    }
  }

  // In any run that starts with nothing proposed and nothing voted, whatever is voted for was broadcast as a proposal.
  lemma VotesWereProposed(c: Config, run: seq<Net>, events: seq<Event>, p: int, h: Header)
    requires IsRun(c, run, events) && Quiet(c, run[0])
    requires forall i :: 0 <= i < |run[0].nodes| ==> run[0].nodes[i].proposed == map[]
    requires WasSent(run[|events|].sent, p, VoteFor(h))
    ensures WasProposed(run[|events|].sent, h)
  {
    hide Next, Enabled;
    assert Proposals(run[0]);
    var k := 0;
    while k < |events|
      invariant k <= |events| && Proposals(run[k])
    {
      NextKeepsProposals(c, run[k], events[k]);
      k := k + 1;
    }
  }

  /* ---- equal proposals, equal votes ---- */

  lemma VoteAlike(c: Config, s: Node, t: Node, e: Surroundings, f: Surroundings, h: Header, h': Header)
    requires s.proposed == t.proposed
    requires Processed(c, s, e).1 == Some(VoteFor(h)) && Processed(c, t, f).1 == Some(VoteFor(h'))
    ensures h == h'
  {
    hide Processed;
    VotesExactly(c, s, e, h);
    VotesExactly(c, t, f, h');
  }

  /* ---- a majority of equal votes is elected ---- */

  // When more than half of the peers are recorded with votes for h, its hash is elected, and h itself when no recorded
  // vote is for another header with that hash.
  lemma MajorityElects(c: Config, s: Tallies, q: set<int>, h: Header)
    requires Tally(c, s) && 2 * |q| > c.peers && forall p :: p in q ==> p in s.box && s.box[p] == h
    ensures Elected(c, s).Some? && Elected(c, s).value.hash == h.hash
    ensures (forall p :: p in s.box && s.box[p].hash == h.hash ==> s.box[p] == h) ==> Elected(c, s) == Some(h)
  {
    var all := set p | p in s.box && s.box[p].hash == h.hash;
    forall p | p in q
      ensures p in all
    {
    }
    SubsetSize(q, all);
    if Elected(c, s) == None {
      NoneElected(c, s, h.hash);
    }
    assert all == Voters(s.box, h.hash);
    MajorityQualifies(c, s, h.hash);
    ElectedIs(c, s, h.hash);
  }

  // Peer p cast a vote at event k of the run, when its box of proposals was the given one.
  ghost predicate CastFrom(c: Config, run: seq<Net>, events: seq<Event>, k: nat, p: int, proposals: map<int, Header>)
    requires IsRun(c, run, events)
  {
    && k < |events| && events[k].node == p && run[k].nodes[events[k].node].proposed == proposals
    && CastsVote(c, run[k], events[k])
  }

  lemma CastIsLowest(c: Config, run: seq<Net>, events: seq<Event>, k: nat, p: int, proposals: map<int, Header>,
                     h: Header)
    requires IsRun(c, run, events) && Quiet(c, run[0]) && CastFrom(c, run, events, k, p, proposals)
    requires HoldsLowest(proposals, h)
    ensures WasSent(run[|events|].sent, p, VoteFor(h))
  {
    hide Processed, Received, HoldsLowest, Quiet, Sound;
    var s, e := run[k].nodes[events[k].node], events[k];
    assert Enabled(run[k], e) && run[k + 1] == Next(c, run[k], e);
    if e.Process? {
      var v := Reaction(c, run[k], e).1.value.header;
      ProcessedStep(c, s, e.around);
      VotesExactly(c, s, e.around, v);
      LowestMeans(proposals, h);
      LowestMeans(proposals, v);
      assert HoldsLowest(proposals, v) by {
        VoteHoldsLowest(c, s, e.around, v);
      }
      assert v == h;
    } else {
      ReceivedStep(c, s, e.packet.sender, e.packet.message);
    }
    assert WasSent(run[k + 1].sent, p, VoteFor(h));
    RunSound(c, run, events, k + 1, |events|);
  }

  lemma VoteHoldsLowest(c: Config, s: Node, e: Surroundings, v: Header)
    requires Processed(c, s, e).1 == Some(VoteFor(v))
    ensures HoldsLowest(s.proposed, v)
  {
    hide Processed;
    VotesExactly(c, s, e, v);
  }

  // When more than half of the peers vote over one and the same box of proposals, its lowest header is elected at every
  // node that has received their votes.
  lemma EqualProposalsElect(c: Config, run: seq<Net>, events: seq<Event>, proposals: map<int, Header>, h: Header,
                            q: set<int>, casts: map<int, nat>, m: nat, i: nat)
    requires IsRun(c, run, events) && Quiet(c, run[0]) && VotesUnique(run[|events|].sent)
    requires HoldsLowest(proposals, h) && 2 * |q| > c.peers
    requires forall p :: p in q ==> p in casts && CastFrom(c, run, events, casts[p], p, proposals)
    requires m < |run| && i < c.peers && |run[m].nodes| == c.peers
    requires forall p :: p in q ==> p in run[m].nodes[i].votes.box
    ensures Elected(c, run[m].nodes[i].votes).Some? && Elected(c, run[m].nodes[i].votes).value.hash == h.hash
    ensures Collisionless(run[|events|].sent) ==> Elected(c, run[m].nodes[i].votes) == Some(h)
  {
    hide Quiet, CastFrom, HoldsLowest, Elected, Next, Enabled, IsRun, Tally;
    RunLength(c, run, events);
    RunSound(c, run, events, m, |events|);
    var s, sent := run[m].nodes[i].votes, run[|events|].sent;
    assert NodeSound(c, run[m].sent, run[m].nodes[i]);
    forall p | p in q
      ensures s.box[p] == h
    {
      CastIsLowest(c, run, events, casts[p], p, proposals, h);
      assert WasSent(run[m].sent, p, VoteFor(s.box[p]));
      assert WasSent(sent, p, VoteFor(s.box[p]));
    }
    if Collisionless(sent) {
      var r := Inhabited(q);
      forall p | p in s.box && s.box[p].hash == h.hash
        ensures s.box[p] == h
      {
        assert WasSent(run[m].sent, p, VoteFor(s.box[p])) && WasSent(run[m].sent, r, VoteFor(s.box[r]));
        assert WasSent(sent, p, VoteFor(s.box[p])) && WasSent(sent, r, VoteFor(h));
      }
    }
    MajorityElects(c, s, q, h);
  }
}
