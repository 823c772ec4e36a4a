/** When a node broadcasts what, and where each step leads, in terms of its boxes, the clock and the messages. */
module BcpLaws {
  import opened Common
  import opened BcpState
  import opened IntSets

  /* ---- the choices: lowest header, elected header, common round ---- */

  // h is in the box, and no header there has a lower hash; among equal hashes it is the one with the lowest key.
  ghost predicate HoldsLowest(box: map<int, Header>, h: Header) {
    exists k: int :: k in box && box[k] == h && NoneLower(box, k)
  }

  ghost predicate NoneLower(box: map<int, Header>, k: int)
    requires k in box
  {
    forall j: int :: j in box ==> !(box[j].hash < box[k].hash) && (box[j].hash == box[k].hash ==> !(j < k))
  }

  // A nonempty box has a lowest header.
  lemma {:induction false} SomeLowest(box: map<int, Header>) returns (k: int)
    requires box != map[]
    ensures k in box && NoneLower(box, k)
    decreases |box|
  {
    var m := LeastOf(box.Keys);
    var rest := box - {m};
    if rest == map[] {
      k := m;
      assert forall j: int :: j in box && j != m ==> j in rest;
    } else {
      var l := SomeLowest(rest);
      k := if box[m].hash <= box[l].hash then m else l;
      forall j: int | j in box
        ensures !(box[j].hash < box[k].hash) && (box[j].hash == box[k].hash ==> !(j < k))
      {
        assert j == m || j in rest;
      }
    }
  }

  lemma LowestMeans(box: map<int, Header>, h: Header)
    ensures Lowest(box) == Some(h) <==> HoldsLowest(box, h)
    ensures Lowest(box) == None <==> box == map[]
  {
    if box == map[] {
      if k: int :| IsLowest(box, k) {
        assert false;
      }
    } else {
      var k := SomeLowest(box);
      LowestIs(box, k);
      if HoldsLowest(box, h) {
        var l: int :| l in box && box[l] == h && NoneLower(box, l);
        LowestIs(box, l);
      }
    }
  }

  lemma LowestIs(box: map<int, Header>, k: int)
    requires k in box && NoneLower(box, k)
    ensures Lowest(box) == Some(box[k])
  {
    assert IsLowest(box, k);
    LowestUnique(box, k);
  }

  // Elected is the recorded header of the hash that more than half of all peers voted for.
  lemma ElectedMeans(c: Config, s: Tallies, h: Header)
    requires Tally(c, s)
    ensures Elected(c, s) == Some(h) <==>
      2 * |set p | p in s.box && s.box[p].hash == h.hash| > c.peers && h.hash in s.headers && s.headers[h.hash] == h
  {
    assert (set p | p in s.box && s.box[p].hash == h.hash) == Voters(s.box, h.hash);
    MajorityQualifies(c, s, h.hash);
    if IsQualified(s.counts, Quorum(c), h.hash) {
      ElectedIs(c, s, h.hash);
    }
    if Elected(c, s) == Some(h) {
      var x :| IsQualified(s.counts, Quorum(c), x) && x in s.headers && Elected(c, s) == Some(s.headers[x]);
    }
  }

  lemma MajorityQualifies(c: Config, s: Tallies, x: int)
    requires Tally(c, s)
    ensures IsQualified(s.counts, Quorum(c), x) <==> 2 * |Voters(s.box, x)| > c.peers
  {
  }

  // And nothing is elected only while no hash has more than half.
  lemma NoneElected(c: Config, s: Tallies, x: int)
    requires Tally(c, s) && Elected(c, s) == None
    ensures 2 * |set p | p in s.box && s.box[p].hash == x| <= c.peers
  {
    assert (set p | p in s.box && s.box[p].hash == x) == Voters(s.box, x);
    MajorityQualifies(c, s, x);
    if IsQualified(s.counts, Quorum(c), x) {
      ElectedIs(c, s, x);
    }
  }

  // A block is found once more than half of all peers reported one; it is the last one reported.
  lemma FoundMeans(c: Config, s: Tallies, b: Block)
    ensures FoundCommit(c, s) == Some(b) <==> 2 * |s.verified| > c.peers && s.commitBlock == b
  {
  }

  /* ---- announced rounds ---- */

  // The number kept for a round is the number of peers that announced it.
  ghost predicate RoundsCounted(r: Rounds) {
    forall k: int :: (if k in r.votes then r.votes[k] else 0) == |Announcers(r.messages, k)|
  }

  function Announcers(messages: map<int, int>, k: int): set<int> {
    set p | p in messages && messages[p] == k
  }

  lemma AnnouncersOfNew(messages: map<int, int>, peer: int, round: int, k: int)
    requires peer !in messages
    ensures Announcers(messages[peer := round], k) == Announcers(messages, k) + (if k == round then {peer} else {})
    ensures peer !in Announcers(messages, k)
  {
  }

  lemma AnnouncementCounted(r: Rounds, peer: int, round: int)
    requires RoundsCounted(r)
    ensures RoundsCounted(RoundAnnounced(r, peer, round))
    ensures peer in RoundAnnounced(r, peer, round).messages
    ensures peer !in r.messages ==> RoundAnnounced(r, peer, round).messages[peer] == round
    ensures forall p :: p in r.messages ==>
      p in RoundAnnounced(r, peer, round).messages && RoundAnnounced(r, peer, round).messages[p] == r.messages[p]
  {
    hide Announcers;
    var t := RoundAnnounced(r, peer, round);
    if peer !in r.messages {
      forall k: int
        ensures (if k in t.votes then t.votes[k] else 0) == |Announcers(t.messages, k)|
      {
        AnnouncersOfNew(r.messages, peer, round, k);
        assert (if k in r.votes then r.votes[k] else 0) == |Announcers(r.messages, k)|;
      }
    }
  }

  lemma RoundsStayCounted(c: Config, s: Node, e: Surroundings, sender: int, m: Message)
    requires RoundsCounted(s.rounds)
    ensures RoundsCounted(Processed(c, s, e).0.rounds) && RoundsCounted(Received(c, s, sender, m).0.rounds)
  {
    hide Elected, Lowest, StartedRound, FoundCommit, Voted, Verified;
    if m.NewRound? {
      AnnouncementCounted(s.rounds, sender, m.round);
    }
    assert RoundsCounted(Rounds(map[], map[])) by {
      forall k: int
        ensures |Announcers(map[], k)| == 0
      {
        assert Announcers(map[], k) == {};
      }
    }
  }

  // Every peer announced the round.
  predicate AllAnnounced(c: Config, r: Rounds, k: int) {
    forall p: int :: 0 <= p < c.peers ==> p in r.messages && r.messages[p] == k
  }

  lemma RoundStartsMeans(c: Config, r: Rounds, k: int)
    requires RoundsCounted(r) && r.messages.Keys <= Peers(c.peers) && c.peers > 0
    ensures RoundStarts(c, r, k) <==> k > c.invalidIndex && AllAnnounced(c, r, k)
  {
    var a, all := Announcers(r.messages, k), Peers(c.peers);
    assert (if k in r.votes then r.votes[k] else 0) == |a|;
    assert a <= all;
    SubsetSize(a, all);
    if |a| >= c.peers {
      SameSize(a, all);
      forall p: int | 0 <= p < c.peers
        ensures p in r.messages && r.messages[p] == k
      {
        assert p in all && p in a;
      }
      assert AllAnnounced(c, r, k);
    }
    if AllAnnounced(c, r, k) {
      assert all <= a;
      SubsetSize(all, a);
    }
  }

  // The round that starts is the one every peer announced.
  lemma StartedMeans(c: Config, r: Rounds, k: int)
    requires RoundsCounted(r) && r.messages.Keys <= Peers(c.peers) && c.peers > 0
    ensures StartedRound(c, r) == Some(k) <==>
      k > c.invalidIndex && forall p: int :: 0 <= p < c.peers ==> p in r.messages && r.messages[p] == k
  {
    hide RoundsCounted, RoundStarts;
    RoundStartsMeans(c, r, k);
    assert AllAnnounced(c, r, k) <==> forall p: int :: 0 <= p < c.peers ==> p in r.messages && r.messages[p] == k;
    forall j: int | RoundStarts(c, r, j)
      ensures AllAnnounced(c, r, j)
    {
      RoundStartsMeans(c, r, j);
    }
    if RoundStarts(c, r, k) {
      StartedIs(c, r, k);
    }
  }

  lemma StartedIs(c: Config, r: Rounds, k: int)
    requires c.peers > 0 && RoundStarts(c, r, k) && forall j: int :: RoundStarts(c, r, j) ==> AllAnnounced(c, r, j)
    ensures StartedRound(c, r) == Some(k)
  {
    hide RoundStarts;
    forall j: int | RoundStarts(c, r, j)
      ensures j == k
    {
      assert AllAnnounced(c, r, j) && AllAnnounced(c, r, k);
      assert r.messages[0] == j && r.messages[0] == k;
    }
  }

  /* ---- what a node broadcasts ---- */

  // A vote goes to the lowest proposal, once the time for proposing is over.
  lemma VotesExactly(c: Config, s: Node, e: Surroundings, h: Header)
    ensures Processed(c, s, e).1 == Some(VoteFor(h)) <==>
      s.step.Propose? && e.time > 10 &&
      exists k: int :: k in s.proposed && s.proposed[k] == h &&
        forall j: int :: j in s.proposed ==>
          h.hash < s.proposed[j].hash || (h.hash == s.proposed[j].hash && k <= j)
  {
    hide Elected, Lowest, StartedRound, FoundCommit;
    LowestMeans(s.proposed, h);
  }

  // The lowest header of the users is proposed, once the time for participating is over.
  lemma ProposesExactly(c: Config, s: Node, e: Surroundings, h: Header)
    ensures Processed(c, s, e).1 == Some(ProposeHeader(h)) <==>
      s.step.Participation? && e.time > 5 &&
      exists k: int :: k in s.userHeaders && s.userHeaders[k] == h &&
        forall j: int :: j in s.userHeaders ==>
          h.hash < s.userHeaders[j].hash || (h.hash == s.userHeaders[j].hash && k <= j)
  {
    hide Elected, Lowest, StartedRound, FoundCommit;
    LowestMeans(s.userHeaders, h);
  }

  // The round after the height of the chain is announced once per block time, early in it.
  lemma AnnouncesExactly(c: Config, s: Node, e: Surroundings, round: int)
    ensures Processed(c, s, e).1 == Some(NewRound(round)) <==>
      s.step.Waiting? && e.time < 5 && e.context > s.timeContext && round == e.height + 1
    ensures Processed(c, s, e).0.timeContext ==
      if Processed(c, s, e).1 == Some(NewRound(e.height + 1)) then e.context else s.timeContext
  {
    hide Elected, Lowest, StartedRound, FoundCommit;
  }

  // A node asks for verification of its own candidate when that is what was elected in time.
  lemma AsksExactly(c: Config, s: Node, e: Surroundings, b: Block)
    requires Tally(c, s.votes)
    ensures Processed(c, s, e).1 == Some(VerifyBlock(b)) <==>
      && s.step.Vote? && e.time <= 15 && b == s.candidate
      && 2 * |set p | p in s.votes.box && s.votes.box[p].hash == b.header.hash| > c.peers
      && b.header.hash in s.votes.headers && s.votes.headers[b.header.hash] == b.header
  {
    hide Elected, Lowest, StartedRound, FoundCommit, Tally;
    ElectedMeans(c, s.votes, b.header);
  }

  // A block sent for verification is confirmed by every node that elected its header, if it is valid; nothing else
  // that arrives is answered, and process() confirms nothing.
  lemma ConfirmsExactly(c: Config, s: Node, e: Surroundings, sender: int, m: Message, out: Message)
    requires Tally(c, s.votes)
    ensures Received(c, s, sender, m).1 == Some(out) <==>
      && m.VerifyBlock? && out == CommitBlock(m.block) && c.valid(m.block)
      && 2 * |set p | p in s.votes.box && s.votes.box[p].hash == m.block.header.hash| > c.peers
      && m.block.header.hash in s.votes.headers && s.votes.headers[m.block.header.hash] == m.block.header
    ensures Processed(c, s, e).1 == Some(out) ==> !out.CommitBlock?
  {
    hide Elected, Lowest, StartedRound, FoundCommit, Voted, Verified, Tally;
    if m.VerifyBlock? {
      ElectedMeans(c, s.votes, m.block.header);
    }
  }

  /* ---- where the steps lead ---- */

  // Every change of step, with the condition for it; nothing else changes it.
  lemma StepsExactly(c: Config, s: Node, e: Surroundings)
    ensures var t := Processed(c, s, e).0.step;
      && (t != s.step <==>
          || (s.step.Waiting? && e.time < 5 && e.context <= s.timeContext && StartedRound(c, s.rounds).Some?)
          || (s.step.Participation? && e.time > 5)
          || (s.step.Propose? && e.time > 10)
          || (s.step.Vote? && (e.time > 15 || Elected(c, s.votes).Some?))
          || (s.step.Commit? && (e.time < 5 || 2 * |s.votes.verified| > c.peers)))
      && (t != s.step ==>
          match s.step
          case Waiting => t.Participation?
          case Participation => t.Propose?
          case Propose => t.Vote?
          case Vote => if e.time > 15 then t.Waiting? else t.Commit?
          case Commit => t.Waiting?
          case Null => false)
  {
    hide Elected, Lowest, StartedRound;
  }

  // A block is appended exactly in time in the commit step once more than half of all peers confirmed one: the last.
  lemma AppendsExactly(c: Config, s: Node, e: Surroundings)
    ensures Processed(c, s, e).0.committed ==
      if s.step.Commit? && e.time >= 5 && 2 * |s.votes.verified| > c.peers then s.committed + [s.votes.commitBlock]
      else s.committed
  {
    hide Elected, Lowest, StartedRound;
  }

  // What a clear leaves: nothing recorded in any box, in exactly three cases.
  lemma ClearsExactly(c: Config, s: Node, e: Surroundings)
    ensures var t := Processed(c, s, e).0;
      if (s.step.Vote? && e.time > 15) || (s.step.Commit? && (e.time < 5 || 2 * |s.votes.verified| > c.peers)) then
        && t.rounds.messages == t.rounds.votes == map[] && t.userHeaders == t.proposed == map[]
        && t.votes.box == t.votes.headers == map[] && t.votes.counts == map[] && t.votes.verified == map[]
        && t.votes.commitBlock == s.votes.commitBlock && t.candidate == s.candidate && t.myVote == s.myVote
      else
        && t.rounds == s.rounds && t.proposed == s.proposed && t.votes == s.votes
        && (!s.step.Waiting? ==> t.userHeaders == s.userHeaders)
        && (!s.step.Waiting? && !s.step.Participation? ==> t.candidate == s.candidate)
        && (!s.step.Propose? ==> t.myVote == s.myVote)
  {
    hide Elected, Lowest, StartedRound;
  }

  /* ---- what arrives ---- */

  // A message of a peer enters the box of its kind, unless the peer already has an entry there; a confirmed block
  // enters only while its header is the elected one. Other boxes stay as they are.
  lemma ArrivesExactly(c: Config, s: Node, sender: int, m: Message)
    ensures var t := Received(c, s, sender, m).0;
      && t.rounds.messages ==
         (if m.NewRound? && sender !in s.rounds.messages then s.rounds.messages[sender := m.round]
          else s.rounds.messages)
      && t.proposed ==
         (if m.ProposeHeader? && sender !in s.proposed then s.proposed[sender := m.header] else s.proposed)
      && t.votes.box ==
         (if m.VoteFor? && sender !in s.votes.box then s.votes.box[sender := m.header] else s.votes.box)
      && t.votes.verified ==
         (if m.CommitBlock? && sender !in s.votes.verified && Elected(c, s.votes) == Some(m.block.header)
          then s.votes.verified[sender := m.block] else s.votes.verified)
      && t.votes.commitBlock ==
         (if m.CommitBlock? && sender !in s.votes.verified && Elected(c, s.votes) == Some(m.block.header)
          then m.block else s.votes.commitBlock)
      && t.userHeaders == s.userHeaders && t.candidate == s.candidate && t.committed == s.committed
      && t.step == s.step && t.timeContext == s.timeContext && t.myVote == s.myVote
  {
    hide Elected;
  }

  // What was proposed becomes the header of the candidate; what was voted for is remembered.
  lemma ChoicesKept(c: Config, s: Node, e: Surroundings, h: Header)
    ensures Processed(c, s, e).1 == Some(ProposeHeader(h)) ==>
      Processed(c, s, e).0.candidate == Block(h, s.candidate.body)
    ensures Processed(c, s, e).1 == Some(VoteFor(h)) ==>
      Processed(c, s, e).0.myVote == h && Processed(c, s, e).0.candidate == s.candidate
  {
    hide Elected, Lowest, StartedRound, FoundCommit;
  }

  // The node's own block takes part: it joins the user headers under the node's address as the round starts.
  lemma TakesPart(c: Config, s: Node, e: Surroundings)
    requires s.step.Waiting? && Processed(c, s, e).0.step.Participation? && e.created.Some?
    ensures var t := Processed(c, s, e).0;
      && t.candidate == e.created.value && e.address in t.userHeaders
      && (e.address !in s.userHeaders ==> t.userHeaders[e.address] == e.created.value.header)
      && forall a :: a in s.userHeaders ==> a in t.userHeaders && t.userHeaders[a] == s.userHeaders[a]
  {
    hide Elected, Lowest, StartedRound, FoundCommit;
  }
}
