/** The protocol server of one node, updated in place, with the callbacks of its node server. */
module BcpServer {
  import opened Common
  import opened BcpState
  import opened IntSets

  lemma StartedRoundIs(c: Config, r: Rounds, k: int)
    requires RoundStarts(c, r, k) && forall j :: RoundStarts(c, r, j) ==> k <= j
    ensures StartedRound(c, r) == Some(k)
  {
    var l :| RoundStarts(c, r, l) && (forall j :: RoundStarts(c, r, j) ==> l <= j) && StartedRound(c, r) == Some(l);
    assert l == k;
  }

  // The header with the lowest hash, the first of them in the order of the keys.
  method SelectLowest(m: map<int, Header>) returns (r: Option<Header>)
    ensures r == Lowest(m)
  {
    var keys := m.Keys;
    var selected := None;
    while keys != {}
      invariant keys <= m.Keys
      invariant selected.None? <==> keys == m.Keys
      invariant selected.Some? ==> selected.value in m && selected.value !in keys
      invariant selected.Some? ==> forall j :: j in m && j !in keys ==>
        m[selected.value].hash < m[j].hash || (m[selected.value].hash == m[j].hash && selected.value <= j)
      invariant forall i, j :: i in m && i !in keys && j in keys ==> i < j
      decreases keys
    {
      var k := Least(keys);
      if selected.None? || m[k].hash < m[selected.value].hash {
        selected := Some(k);
      }
      keys := keys - {k};
    }
    if selected.None? {
      return None;
    }
    LowestUnique(m, selected.value);
    return Some(m[selected.value]);
  }

  class Server {
    const config: Config

    var step: Step
    var timeContext: int
    var newRoundMessages: map<int, int>
    var newRoundVotes: map<int, int>
    var candidate: Block
    var userHeaders: map<int, Header>
    var proposedHeaders: map<int, Header>
    var myVote: Header
    var voteBox: map<int, Header>
    var voteHeaders: map<int, Header>
    var voteCounts: map<int, int>
    var verifiedBlocks: map<int, Block>
    var commitBlock: Block
    // The blocks handed to the chain so far.
    var committed: seq<Block>

    ghost function Votes(): Tallies
      reads this
    {
      Tallies(voteBox, voteHeaders, voteCounts, verifiedBlocks, commitBlock)
    }

    ghost function State(): Node
      reads this
    {
      Node(step, timeContext, Rounds(newRoundMessages, newRoundVotes), candidate, userHeaders, proposedHeaders, myVote,
           Votes(), committed)
    }

    ghost predicate Valid()
      reads this
    {
      Tally(config, Votes())
    }

    constructor (config: Config, genesis: Block)
      ensures Valid() && this.config == config
      ensures State() == Node(Null, 0, Rounds(map[], map[]), genesis, map[], map[], genesis.header, Empty(genesis), [])
    {
      this.config := config;
      step, timeContext, committed := Null, 0, [];
      newRoundMessages, newRoundVotes := map[], map[];
      candidate, myVote, commitBlock := genesis, genesis.header, genesis;
      userHeaders, proposedHeaders := map[], map[];
      voteBox, voteHeaders, voteCounts, verifiedBlocks := map[], map[], map[], map[];
      new;
      EmptyTally(config, genesis);
    }

    // Waits for a round once the clock is synchronised; otherwise the server stays idle.
    method Start(synced: bool) returns (ok: bool)
      requires Valid()
      modifies this`step
      ensures Valid() && ok == synced
      ensures State() == if synced then old(State()).(step := Waiting) else old(State())
    {
      if !synced {
        return false;
      }
      step := Waiting;
      return true;
    }

    method ClearIntermediateData()
      modifies this
      ensures Valid() && State() == Cleared(old(State()))
    {
      hide Tally;
      newRoundMessages := map[];
      newRoundVotes := map[];
      userHeaders := map[];
      proposedHeaders := map[];
      ClearVotes();
    }

    // The part of clear_intermediate_data that empties the vote box, its tallies and the verified blocks.
    method ClearVotes()
      modifies this`voteBox, this`voteHeaders, this`voteCounts, this`verifiedBlocks
      ensures Valid() && Votes() == Empty(old(commitBlock))
    {
      hide Tally;
      voteBox := map[];
      voteHeaders := map[];
      voteCounts := map[];
      verifiedBlocks := map[];
      EmptyTally(config, commitBlock);
    }

    method AppendNewRoundMessage(peer: int, round: int) returns (ok: bool)
      requires Valid()
      modifies this`newRoundMessages, this`newRoundVotes
      ensures Valid() && ok == (peer !in old(newRoundMessages))
      ensures State() == old(State()).(rounds := RoundAnnounced(old(State()).rounds, peer, round))
    {
      if peer in newRoundMessages {
        return false;
      }
      newRoundMessages := newRoundMessages[peer := round];
      newRoundVotes := newRoundVotes[round := if round in newRoundVotes then newRoundVotes[round] + 1 else 1];
      return true;
    }

    method NewRoundStart() returns (r: Option<int>)
      ensures r == StartedRound(config, State().rounds)
    {
      var keys := newRoundVotes.Keys;
      while keys != {}
        invariant keys <= newRoundVotes.Keys
        invariant forall k :: k !in keys ==> !RoundStarts(config, State().rounds, k)
        decreases keys
      {
        var k := Least(keys);
        if newRoundVotes[k] >= config.peers && k > config.invalidIndex {
          StartedRoundIs(config, State().rounds, k);
          return Some(k);
        }
        keys := keys - {k};
      }
      return None;
    }

    method AppendUserHeader(address: int, h: Header) returns (ok: bool)
      requires Valid()
      modifies this`userHeaders
      ensures Valid() && ok == (address !in old(userHeaders))
      ensures State() == old(State()).(userHeaders := FirstWins(old(userHeaders), address, h))
    {
      if address in userHeaders {
        return false;
      }
      userHeaders := userHeaders[address := h];
      return true;
    }

    method AppendProposedHeader(peer: int, h: Header) returns (ok: bool)
      requires Valid()
      modifies this`proposedHeaders
      ensures Valid() && ok == (peer !in old(proposedHeaders))
      ensures State() == old(State()).(proposed := FirstWins(old(proposedHeaders), peer, h))
    {
      if peer in proposedHeaders {
        return false;
      }
      proposedHeaders := proposedHeaders[peer := h];
      return true;
    }

    method VoteFor(peer: int, h: Header) returns (ok: bool)
      requires Valid() && 0 <= peer < config.peers
      modifies this`voteBox, this`voteHeaders, this`voteCounts
      ensures Valid() && ok == (peer !in old(voteBox))
      ensures State() == old(State()).(votes := Voted(old(Votes()), peer, h))
    {
      hide Tally, Elected;
      ElectionStays(config, Votes(), peer, h);
      if peer in voteBox {
        return false;
      }
      voteBox := voteBox[peer := h];
      if h.hash !in voteHeaders {
        voteHeaders := voteHeaders[h.hash := h];
      }
      voteCounts := voteCounts[h.hash := if h.hash in voteCounts then voteCounts[h.hash] + 1 else 1];
      return true;
    }

    method GetElectedHeader() returns (r: Option<Header>)
      requires Valid()
      ensures r == Elected(config, Votes())
    {
      var qualify := config.peers / 2 + 1;
      var keys := voteCounts.Keys;
      while keys != {}
        invariant keys <= voteCounts.Keys
        invariant forall k :: k !in keys ==> !IsQualified(voteCounts, qualify, k)
        decreases keys
      {
        var k := Least(keys);
        if voteCounts[k] >= qualify {
          ElectedIs(config, Votes(), k);
          return Some(voteHeaders[k]);
        }
        keys := keys - {k};
      }
      return None;
    }

    method AddVerifiedBlock(peer: int, b: Block) returns (ok: bool)
      requires Valid() && 0 <= peer < config.peers
      modifies this`verifiedBlocks, this`commitBlock
      ensures Valid() && ok == (peer !in old(verifiedBlocks) && old(Elected(config, Votes())) == Some(b.header))
      ensures State() == old(State()).(votes := Verified(config, old(Votes()), peer, b))
    {
      VerifiedKeepsTally(config, Votes(), peer, b);
      if peer in verifiedBlocks {
        return false;
      }
      var elected := GetElectedHeader();
      if elected.Some? && b.header == elected.value {
        verifiedBlocks := verifiedBlocks[peer := b];
        commitBlock := b;
        return true;
      }
      return false;
    }

    method FindCommitBlock() returns (r: Option<Block>)
      ensures r == FoundCommit(config, Votes())
    {
      if |verifiedBlocks| >= config.peers / 2 + 1 {
        return Some(commitBlock);
      }
      return None;
    }

    /* ---- process() and its callbacks; what they broadcast is returned ---- */

    method ProcessWaiting(e: Surroundings) returns (out: Option<Message>)
      requires Valid()
      modifies this
      ensures Valid() && (State(), out) == ProcessedWaiting(config, old(State()), e)
    {
      out := None;
      if e.time < PARTICIPATION_TIMEOUT {
        if e.context > timeContext {
          timeContext := e.context;
          return Some(NewRound(e.height + 1));
        }
        var round := NewRoundStart();
        if round.Some? {
          if e.created.Some? {
            candidate := e.created.value;
            var _ := AppendUserHeader(e.address, candidate.header);
          }
          step := Participation;
        }
      }
    }

    method ProcessParticipation(e: Surroundings) returns (out: Option<Message>)
      requires Valid()
      modifies this
      ensures Valid() && (State(), out) == ProcessedParticipation(old(State()), e)
    {
      out := None;
      if e.time > PARTICIPATION_TIMEOUT {
        var user := SelectLowest(userHeaders);
        if user.Some? {
          candidate := candidate.(header := user.value);
          out := Some(ProposeHeader(user.value));
        }
        step := Propose;
      }
    }

    method ProcessPropose(e: Surroundings) returns (out: Option<Message>)
      requires Valid()
      modifies this
      ensures Valid() && (State(), out) == ProcessedPropose(old(State()), e)
    {
      out := None;
      if e.time > PROPOSE_TIMEOUT {
        var vote := SelectLowest(proposedHeaders);
        if vote.Some? {
          myVote := vote.value;
          out := Some(Message.VoteFor(vote.value));
        }
        step := Step.Vote;
      }
    }

    method ProcessVote(e: Surroundings) returns (out: Option<Message>)
      requires Valid()
      modifies this
      ensures Valid() && (State(), out) == ProcessedVote(config, old(State()), e)
    {
      out := None;
      if e.time > VOTE_TIMEOUT {
        ClearIntermediateData();
        step := Waiting;
        return;
      }
      var elected := GetElectedHeader();
      if elected.Some? {
        if elected.value == candidate.header {
          out := Some(VerifyBlock(candidate));
        }
        step := Step.Commit;
      }
    }

    method ProcessCommit(e: Surroundings) returns (out: Option<Message>)
      requires Valid()
      modifies this
      ensures Valid() && (State(), out) == ProcessedCommit(config, old(State()), e)
    {
      out := None;
      if e.time < PARTICIPATION_TIMEOUT {
        ClearIntermediateData();
        step := Waiting;
        return;
      }
      var found := FindCommitBlock();
      if found.Some? {
        committed := committed + [found.value];
        ClearIntermediateData();
        step := Waiting;
      }
    }

    method Process(e: Surroundings) returns (out: Option<Message>)
      requires Valid()
      modifies this
      ensures Valid() && (State(), out) == Processed(config, old(State()), e)
    {
      match step
      case Null => out := None;
      case Waiting => out := ProcessWaiting(e);
      case Participation => out := ProcessParticipation(e);
      case Propose => out := ProcessPropose(e);
      case Vote => out := ProcessVote(e);
      case Commit => out := ProcessCommit(e);
    }

    method OnPeerMessage(sender: int, m: Message) returns (out: Option<Message>)
      requires Valid() && 0 <= sender < config.peers
      modifies this
      ensures Valid() && (State(), out) == Received(config, old(State()), sender, m)
    {
      out := None;
      match m
      case NewRound(round) => var _ := AppendNewRoundMessage(sender, round);
      case ProposeHeader(h) => var _ := AppendProposedHeader(sender, h);
      case VoteFor(h) => var _ := VoteFor(sender, h);
      case CommitBlock(b) => var _ := AddVerifiedBlock(sender, b);
      case VerifyBlock(b) =>
        var elected := GetElectedHeader();
        if elected.Some? && elected.value == b.header && config.valid(b) {
          out := Some(CommitBlock(b));
        }
    }
  }
}
