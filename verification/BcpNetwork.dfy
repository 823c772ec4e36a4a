/** Nodes that exchange messages in any order: agreement over whole runs. */
module BcpNetwork {
  import opened Common
  import opened BcpState
  import opened IntSets

  datatype Packet = Packet(sender: int, message: Message)

  // The nodes, and everything ever broadcast.
  datatype Net = Net(nodes: seq<Node>, sent: set<Packet>)

  // A node calls process(), or a packet that was broadcast reaches a node; packets arrive in any order,
  // late, more than once or never.
  datatype Event = Process(node: nat, around: Surroundings) | Deliver(node: nat, packet: Packet)

  ghost predicate Enabled(net: Net, e: Event) {
    e.node < |net.nodes| && (e.Deliver? ==> e.packet in net.sent)
  }

  function Broadcast(sent: set<Packet>, sender: int, m: Option<Message>): set<Packet> {
    if m.Some? then sent + {Packet(sender, m.value)} else sent
  }

  ghost function Reaction(c: Config, net: Net, e: Event): (Node, Option<Message>)
    requires Enabled(net, e)
  {
    if e.Process? then Processed(c, net.nodes[e.node], e.around)
    else Received(c, net.nodes[e.node], e.packet.sender, e.packet.message)
  }

  ghost function Next(c: Config, net: Net, e: Event): Net
    requires Enabled(net, e)
  {
    var r := Reaction(c, net, e);
    Net(net.nodes[e.node := r.0], Broadcast(net.sent, e.node, r.1))
  }

  ghost predicate IsRun(c: Config, run: seq<Net>, events: seq<Event>) {
    && |run| == |events| + 1
    && forall k :: 0 <= k < |events| ==> Enabled(run[k], events[k]) && run[k + 1] == Next(c, run[k], events[k])
  }

  // Nobody has voted and all tallies are empty: the start of an epoch.
  ghost predicate Quiet(c: Config, net: Net) {
    && |net.nodes| == c.peers
    && (forall i :: 0 <= i < c.peers ==> net.nodes[i].votes == Empty(net.nodes[i].votes.commitBlock))
    && (forall i :: 0 <= i < c.peers ==> BeforeVote(net.nodes[i].step) && net.nodes[i].committed == [])
    && (forall p :: p in net.sent ==> 0 <= p.sender < c.peers && !p.message.VoteFor? && !p.message.CommitBlock?)
  }

  predicate BeforeVote(s: Step) {
    s.Null? || s.Waiting? || s.Participation? || s.Propose?
  }

  ghost predicate HasVoted(sent: set<Packet>, p: int, hash: int) {
    exists h :: WasSent(sent, p, VoteFor(h)) && h.hash == hash
  }

  ghost predicate VotesUnique(sent: set<Packet>) {
    forall p, h, h' :: WasSent(sent, p, VoteFor(h)) && WasSent(sent, p, VoteFor(h')) ==> h == h'
  }

  predicate Majority(c: Config, q: set<int>) {
    q <= Peers(c.peers) && |q| >= Quorum(c)
  }

  ghost predicate AllVoted(sent: set<Packet>, q: set<int>, hash: int) {
    forall p :: p in q ==> HasVoted(sent, p, hash)
  }

  ghost predicate AllVerified(c: Config, sent: set<Packet>, q: set<int>, header: Header) {
    forall p :: p in q ==> HasVerified(c, sent, p, header)
  }

  // A majority of the peers voted for the hash, and one of all votes was for this very header.
  ghost predicate Chosen(c: Config, sent: set<Packet>, h: Header) {
    && (exists q :: Majority(c, q) && AllVoted(sent, q, h.hash))
    && (exists p :: WasSent(sent, p, VoteFor(h)))
  }

  // A majority of the peers broadcast a verified block with the header.
  ghost predicate Backed(c: Config, sent: set<Packet>, header: Header) {
    exists q :: Majority(c, q) && AllVerified(c, sent, q, header)
  }

  ghost predicate HasVerified(c: Config, sent: set<Packet>, p: int, header: Header) {
    exists b :: WasSent(sent, p, CommitBlock(b)) && b.header == header && c.valid(b)
  }

  /* ---- what every step keeps ---- */

  ghost predicate NodeSound(c: Config, sent: set<Packet>, s: Node) {
    && Tally(c, s.votes)
    && (forall p :: p in s.votes.box ==> WasSent(sent, p, VoteFor(s.votes.box[p])))
    && (forall p :: p in s.votes.verified ==> WasSent(sent, p, CommitBlock(s.votes.verified[p])))
    && (forall k :: 0 <= k < |s.committed| ==> CommitSound(c, sent, s.committed[k]))
  }

  predicate WasSent(sent: set<Packet>, sender: int, m: Message) {
    Packet(sender, m) in sent
  }

  ghost predicate CommitSound(c: Config, sent: set<Packet>, b: Block) {
    Chosen(c, sent, b.header) && Backed(c, sent, b.header)
  }

  ghost predicate PacketSound(c: Config, sent: set<Packet>, p: Packet) {
    && 0 <= p.sender < c.peers
    && (p.message.CommitBlock? ==> Chosen(c, sent, p.message.block.header) && c.valid(p.message.block))
  }

  ghost predicate Sound(c: Config, net: Net) {
    && |net.nodes| == c.peers
    && (forall i :: 0 <= i < c.peers ==> NodeSound(c, net.sent, net.nodes[i]))
    && (forall p :: p in net.sent ==> PacketSound(c, net.sent, p))
  }

  lemma QuietIsSound(c: Config, net: Net)
    requires Quiet(c, net)
    ensures Sound(c, net)
  {
    forall i | 0 <= i < c.peers
      ensures NodeSound(c, net.sent, net.nodes[i])
    {
      EmptyTally(c, net.nodes[i].votes.commitBlock);
    }
  }

  // What was broadcast stays broadcast, so majorities stay.
  lemma ChosenStays(c: Config, sent: set<Packet>, sent': set<Packet>, header: Header)
    requires sent <= sent' && Chosen(c, sent, header)
    ensures Chosen(c, sent', header)
  {
    var q :| Majority(c, q) && AllVoted(sent, q, header.hash);
    forall p | p in q
      ensures HasVoted(sent', p, header.hash)
    {
      var h :| WasSent(sent, p, VoteFor(h)) && h.hash == header.hash;
      assert WasSent(sent', p, VoteFor(h));
    }
    assert AllVoted(sent', q, header.hash);
    var p :| WasSent(sent, p, VoteFor(header));
    assert WasSent(sent', p, VoteFor(header));
  }

  lemma BackedStays(c: Config, sent: set<Packet>, sent': set<Packet>, header: Header)
    requires sent <= sent' && Backed(c, sent, header)
    ensures Backed(c, sent', header)
  {
    var q :| Majority(c, q) && AllVerified(c, sent, q, header);
    forall p | p in q
      ensures HasVerified(c, sent', p, header)
    {
      var b :| WasSent(sent, p, CommitBlock(b)) && b.header == header && c.valid(b);
      assert WasSent(sent', p, CommitBlock(b));
    }
    assert AllVerified(c, sent', q, header);
  }

  lemma NodeStaysSound(c: Config, sent: set<Packet>, sent': set<Packet>, s: Node)
    requires sent <= sent' && NodeSound(c, sent, s)
    ensures NodeSound(c, sent', s)
  {
    hide Tally, Chosen, Backed;
    forall k | 0 <= k < |s.committed|
      ensures CommitSound(c, sent', s.committed[k])
    {
      ChosenStays(c, sent, sent', s.committed[k].header);
      BackedStays(c, sent, sent', s.committed[k].header);
    }
  }

  // A header elected at a node was chosen by a majority of votes that were broadcast.
  lemma ElectedIsChosen(c: Config, sent: set<Packet>, s: Node, h: Header)
    requires NodeSound(c, sent, s) && Elected(c, s.votes) == Some(h)
    ensures Chosen(c, sent, h)
  {
    ElectedByMajority(c, s.votes, h);
    var q := Voters(s.votes.box, h.hash);
    forall p | p in q
      ensures HasVoted(sent, p, h.hash)
    {
      assert WasSent(sent, p, VoteFor(s.votes.box[p]));
    }
    assert Majority(c, q) && AllVoted(sent, q, h.hash);
    var p :| p in s.votes.box && s.votes.box[p] == h;
    assert WasSent(sent, p, VoteFor(h));
  }

  // A block found for commit has both majorities behind it.
  lemma FoundIsSound(c: Config, net: Net, i: nat, b: Block)
    requires Sound(c, net) && i < c.peers && FoundCommit(c, net.nodes[i].votes) == Some(b)
    ensures CommitSound(c, net.sent, b)
  {
    var s := net.nodes[i];
    CommitHasQuorum(c, s.votes, b);
    ElectedIsChosen(c, net.sent, s, b.header);
    var q := s.votes.verified.Keys;
    forall p | p in q
      ensures HasVerified(c, net.sent, p, b.header)
    {
      var packet := Packet(p, CommitBlock(s.votes.verified[p]));
      assert packet in net.sent && PacketSound(c, net.sent, packet);
    }
    assert Majority(c, q) && AllVerified(c, net.sent, q, b.header);
  }

  // What is appended to the chain is the block found for commit, and every other step appends nothing.
  lemma ProcessedCommits(c: Config, s: Node, e: Surroundings)
    ensures var t := Processed(c, s, e).0;
            t.committed == s.committed ||
            (FoundCommit(c, s.votes).Some? && t.committed == s.committed + [FoundCommit(c, s.votes).value])
  {
    hide Elected, Lowest, StartedRound, FoundCommit;
  }

  lemma ProcessKeepsNode(c: Config, net: Net, i: nat, around: Surroundings)
    requires Sound(c, net) && i < c.peers
    ensures NodeSound(c, net.sent, Processed(c, net.nodes[i], around).0)
  {
    hide Tally, Processed, Clears, FoundCommit, CommitSound, Elected;
    var s := net.nodes[i];
    assert NodeSound(c, net.sent, s);
    ProcessedKeepsTally(c, s, around);
    ProcessedVotes(c, s, around);
    ProcessedCommits(c, s, around);
    if FoundCommit(c, s.votes).Some? {
      FoundIsSound(c, net, i, FoundCommit(c, s.votes).value);
    }
  }

  lemma DeliverKeepsNode(c: Config, net: Net, i: nat, p: Packet)
    requires Sound(c, net) && i < c.peers && p in net.sent
    ensures NodeSound(c, net.sent, Received(c, net.nodes[i], p.sender, p.message).0)
  {
    hide Tally, CommitSound, Elected;
    assert NodeSound(c, net.sent, net.nodes[i]) && PacketSound(c, net.sent, p);
    ReceivedKeepsTally(c, net.nodes[i], p.sender, p.message);
    assert WasSent(net.sent, p.sender, p.message);
  }

  // Every broadcast of a block for commit has an elected header behind it.
  lemma ReactionPacket(c: Config, net: Net, e: Event)
    requires Sound(c, net) && Enabled(net, e) && Reaction(c, net, e).1.Some?
    ensures PacketSound(c, net.sent, Packet(e.node, Reaction(c, net, e).1.value))
  {
    hide Tally, Elected, Lowest, StartedRound, FoundCommit, Chosen;
    var s := net.nodes[e.node];
    assert NodeSound(c, net.sent, s);
    if e.Deliver? && e.packet.message.VerifyBlock? {
      ElectedIsChosen(c, net.sent, s, e.packet.message.block.header);
    }
  }

  lemma NextKeepsSound(c: Config, net: Net, e: Event)
    requires Sound(c, net) && Enabled(net, e)
    ensures Sound(c, Next(c, net, e)) && net.sent <= Next(c, net, e).sent
  {
    hide NodeSound, PacketSound, Processed, Received;
    var t := Next(c, net, e);
    if e.Process? {
      ProcessKeepsNode(c, net, e.node, e.around);
    } else {
      DeliverKeepsNode(c, net, e.node, e.packet);
    }
    var r := Reaction(c, net, e);
    forall i | 0 <= i < c.peers
      ensures NodeSound(c, t.sent, t.nodes[i])
    {
      NodeStaysSound(c, net.sent, t.sent, t.nodes[i]);
    }
    if r.1.Some? {
      ReactionPacket(c, net, e);
    }
    forall p | p in t.sent
      ensures PacketSound(c, t.sent, p)
    {
      PacketStaysSound(c, net.sent, t.sent, p);
    }
  }

  lemma PacketStaysSound(c: Config, sent: set<Packet>, sent': set<Packet>, p: Packet)
    requires sent <= sent' && PacketSound(c, sent, p)
    ensures PacketSound(c, sent', p)
  {
    if p.message.CommitBlock? {
      ChosenStays(c, sent, sent', p.message.block.header);
    }
  }

  /* ---- agreement ---- */

  lemma {:induction false} RunSound(c: Config, run: seq<Net>, events: seq<Event>, k: nat, m: nat)
    requires IsRun(c, run, events) && Quiet(c, run[0]) && k <= m < |run|
    ensures Sound(c, run[k]) && Sound(c, run[m]) && run[k].sent <= run[m].sent
    decreases m
  {
    hide Sound, Next, Quiet, Enabled;
    if m == 0 {
      QuietIsSound(c, run[0]);
    } else {
      RunSound(c, run, events, if k < m then k else 0, m - 1);
      NextKeepsSound(c, run[m - 1], events[m - 1]);
    }
  }

  // No two different headers among the votes have one hash.
  ghost predicate Collisionless(sent: set<Packet>) {
    forall p, q, h, h' :: WasSent(sent, p, VoteFor(h)) && WasSent(sent, q, VoteFor(h')) && h.hash == h'.hash ==> h == h'
  }

  // Two majorities share a voter, who has one vote.
  lemma ChosenUnique(c: Config, sent: set<Packet>, h: Header, h': Header)
    requires VotesUnique(sent) && Chosen(c, sent, h) && Chosen(c, sent, h')
    ensures h.hash == h'.hash
    ensures Collisionless(sent) ==> h == h'
  {
    var q :| Majority(c, q) && AllVoted(sent, q, h.hash);
    var q' :| Majority(c, q') && AllVoted(sent, q', h'.hash);
    var p := MajoritiesMeet(q, q', c.peers);
    assert HasVoted(sent, p, h.hash) && HasVoted(sent, p, h'.hash);
  }

  // Any two nodes that elect a header, at whatever times of a run in which every node casts one vote,
  // elect the same hash, and the same header unless voted headers collide.
  lemma ElectionAgreement(c: Config, run: seq<Net>, events: seq<Event>, k: nat, m: nat, i: nat, j: nat,
                          h: Header, h': Header)
    requires IsRun(c, run, events) && Quiet(c, run[0]) && VotesUnique(run[|events|].sent)
    requires k < |run| && m < |run| && i < c.peers && j < c.peers && |run[k].nodes| == |run[m].nodes| == c.peers
    requires Elected(c, run[k].nodes[i].votes) == Some(h) && Elected(c, run[m].nodes[j].votes) == Some(h')
    ensures h.hash == h'.hash
    ensures Collisionless(run[|events|].sent) ==> h == h'
  {
    hide Quiet, Elected, NodeSound, VotesUnique, Collisionless, Next, Enabled, Chosen;
    var sent := run[|events|].sent;
    RunSound(c, run, events, k, |events|);
    RunSound(c, run, events, m, |events|);
    ElectedIsChosen(c, run[k].sent, run[k].nodes[i], h);
    ElectedIsChosen(c, run[m].sent, run[m].nodes[j], h');
    ChosenStays(c, run[k].sent, sent, h);
    ChosenStays(c, run[m].sent, sent, h');
    ChosenUnique(c, sent, h, h');
  }

  // Any two blocks that nodes append to their chains in such a run carry the same header,
  // and a majority of the nodes broadcast a verified block with it.
  lemma CommitAgreement(c: Config, run: seq<Net>, events: seq<Event>, k: nat, m: nat, i: nat, j: nat,
                        b: Block, b': Block)
    requires IsRun(c, run, events) && Quiet(c, run[0]) && VotesUnique(run[|events|].sent)
    requires k < |run| && m < |run| && i < c.peers && j < c.peers && |run[k].nodes| == |run[m].nodes| == c.peers
    requires b in run[k].nodes[i].committed && b' in run[m].nodes[j].committed
    ensures b.header.hash == b'.header.hash
    ensures Collisionless(run[|events|].sent) ==> b.header == b'.header
    ensures Backed(c, run[|events|].sent, b.header)
  {
    hide Quiet, VotesUnique, Collisionless, Next, Enabled, Chosen, Backed, Tally, IsRun;
    RunLength(c, run, events);
    var sent := run[|events|].sent;
    RunSound(c, run, events, k, |events|);
    RunSound(c, run, events, m, |events|);
    assert NodeSound(c, run[k].sent, run[k].nodes[i]) && NodeSound(c, run[m].sent, run[m].nodes[j]);
    assert CommitSound(c, run[k].sent, b) && CommitSound(c, run[m].sent, b');
    ChosenStays(c, run[k].sent, sent, b.header);
    ChosenStays(c, run[m].sent, sent, b'.header);
    BackedStays(c, run[k].sent, sent, b.header);
    ChosenUnique(c, sent, b.header, b'.header);
  }

  lemma RunLength(c: Config, run: seq<Net>, events: seq<Event>)
    requires IsRun(c, run, events)
    ensures |run| == |events| + 1
  {
  }

  /* ---- one vote per node until a clear ---- */

  ghost predicate IsClear(c: Config, net: Net, e: Event)
    requires Enabled(net, e)
  {
    e.Process? && Clears(c, net.nodes[e.node], e.around)
  }

  ghost predicate CastsVote(c: Config, net: Net, e: Event)
    requires Enabled(net, e)
  {
    Reaction(c, net, e).1.Some? && Reaction(c, net, e).1.value.VoteFor?
  }

  // Nodes have one vote each, and those that voted are past voting or have cleared.
  ghost predicate OneVote(net: Net, cleared: set<int>) {
    && VotesUnique(net.sent)
    && (forall i, h :: 0 <= i < |net.nodes| && WasSent(net.sent, i, VoteFor(h)) ==>
        !BeforeVote(net.nodes[i].step) || i in cleared)
  }

  lemma ProcessedStep(c: Config, s: Node, e: Surroundings)
    ensures var r := Processed(c, s, e);
            && (r.1.Some? && r.1.value.VoteFor? ==> s.step.Propose? && r.0.step.Vote?)
            && (!Clears(c, s, e) && !BeforeVote(s.step) ==> !BeforeVote(r.0.step))
  {
    hide Elected, Lowest, StartedRound, FoundCommit;
  }

  lemma ReceivedStep(c: Config, s: Node, sender: int, m: Message)
    ensures var r := Received(c, s, sender, m);
            r.0.step == s.step && !(r.1.Some? && r.1.value.VoteFor?)
  {
    hide Elected, Voted, Verified;
  }

  lemma NextKeepsOneVote(c: Config, net: Net, e: Event, cleared: set<int>)
    requires Enabled(net, e) && OneVote(net, cleared) && (CastsVote(c, net, e) ==> e.node !in cleared)
    ensures OneVote(Next(c, net, e), cleared + (if IsClear(c, net, e) then {e.node} else {}))
  {
    hide Processed, Received, Clears;
    var t := Next(c, net, e);
    if e.Process? {
      ProcessedStep(c, net.nodes[e.node], e.around);
    } else {
      ReceivedStep(c, net.nodes[e.node], e.packet.sender, e.packet.message);
    }
    forall p, h | WasSent(t.sent, p, VoteFor(h))
      ensures WasSent(net.sent, p, VoteFor(h)) || (p == e.node && Reaction(c, net, e).1 == Some(VoteFor(h)))
    {
    }
  }

  // The nodes that cleared before the event k.
  ghost function ClearedBefore(c: Config, run: seq<Net>, events: seq<Event>, k: nat): set<int>
    requires IsRun(c, run, events) && k <= |events|
  {
    if k == 0 then {}
    else
      ClearedBefore(c, run, events, k - 1) +
      (if IsClear(c, run[k - 1], events[k - 1]) then {events[k - 1].node} else {})
  }

  // One round of voting: no node votes again after it has cleared, as it does when it appends a block or gives up.
  ghost predicate OneRound(c: Config, run: seq<Net>, events: seq<Event>)
    requires IsRun(c, run, events)
  {
    forall k :: 0 <= k < |events| && CastsVote(c, run[k], events[k]) ==>
      events[k].node !in ClearedBefore(c, run, events, k)
  }

  // Over one round every node broadcasts at most one vote.
  lemma OneVoteInRound(c: Config, run: seq<Net>, events: seq<Event>)
    requires IsRun(c, run, events) && Quiet(c, run[0]) && OneRound(c, run, events)
    ensures VotesUnique(run[|events|].sent)
  {
    hide Next, IsClear, Enabled, CastsVote;
    var k := 0;
    assert OneVote(run[0], {});
    while k < |events|
      invariant k <= |events| && OneVote(run[k], ClearedBefore(c, run, events, k))
    {
      NextKeepsOneVote(c, run[k], events[k], ClearedBefore(c, run, events, k));
      k := k + 1;
    }
  }

  // No node fails and none appends a block.
  ghost predicate Unclear(c: Config, run: seq<Net>, events: seq<Event>)
    requires IsRun(c, run, events)
  {
    forall k :: 0 <= k < |events| ==> !IsClear(c, run[k], events[k])
  }

  lemma {:induction false} NobodyCleared(c: Config, run: seq<Net>, events: seq<Event>, k: nat)
    requires IsRun(c, run, events) && Unclear(c, run, events) && k <= |events|
    ensures ClearedBefore(c, run, events, k) == {}
  {
    hide Next, IsClear, Enabled;
    if k > 0 {
      NobodyCleared(c, run, events, k - 1);
    }
  }

  // While nobody clears, every node broadcasts at most one vote.
  lemma OneVoteUntilClear(c: Config, run: seq<Net>, events: seq<Event>)
    requires IsRun(c, run, events) && Quiet(c, run[0]) && Unclear(c, run, events)
    ensures OneRound(c, run, events) && VotesUnique(run[|events|].sent)
  {
    hide Next, IsClear, Enabled, CastsVote, Quiet, VotesUnique;
    forall k | 0 <= k < |events| && CastsVote(c, run[k], events[k])
      ensures events[k].node !in ClearedBefore(c, run, events, k)
    {
      NobodyCleared(c, run, events, k);
    }
    OneVoteInRound(c, run, events);
  }

  // In a run in which nobody clears, any two elections, at any nodes and times, agree.
  lemma ElectionsAgreeUntilClear(c: Config, run: seq<Net>, events: seq<Event>, k: nat, m: nat, i: nat, j: nat,
                                 h: Header, h': Header)
    requires IsRun(c, run, events) && Quiet(c, run[0]) && Unclear(c, run, events)
    requires k < |run| && m < |run| && i < c.peers && j < c.peers && |run[k].nodes| == |run[m].nodes| == c.peers
    requires Elected(c, run[k].nodes[i].votes) == Some(h) && Elected(c, run[m].nodes[j].votes) == Some(h')
    ensures h.hash == h'.hash
    ensures Collisionless(run[|events|].sent) ==> h == h'
  {
    hide Quiet, Elected, NodeSound, VotesUnique, Collisionless, Next, Enabled, Chosen, Unclear, OneRound;
    OneVoteUntilClear(c, run, events);
    ElectionAgreement(c, run, events, k, m, i, j, h, h');
  }

  // In one round of voting any two elections and any two appended blocks agree: the same hash, the same header unless
  // voted headers collide, and for blocks a majority that verified one.
  lemma RoundAgreement(c: Config, run: seq<Net>, events: seq<Event>, k: nat, m: nat, i: nat, j: nat)
    requires IsRun(c, run, events) && Quiet(c, run[0]) && OneRound(c, run, events)
    requires k < |run| && m < |run| && i < c.peers && j < c.peers && |run[k].nodes| == |run[m].nodes| == c.peers
    ensures var h, h' := Elected(c, run[k].nodes[i].votes), Elected(c, run[m].nodes[j].votes);
      h.Some? && h'.Some? ==> h.value.hash == h'.value.hash && (Collisionless(run[|events|].sent) ==> h == h')
    ensures forall b, b' :: b in run[k].nodes[i].committed && b' in run[m].nodes[j].committed ==>
      && b.header.hash == b'.header.hash && (Collisionless(run[|events|].sent) ==> b.header == b'.header)
      && Backed(c, run[|events|].sent, b.header)
  {
    hide Quiet, Elected, NodeSound, VotesUnique, Collisionless, Next, Enabled, Chosen, OneRound, Backed;
    OneVoteInRound(c, run, events);
    var h, h' := Elected(c, run[k].nodes[i].votes), Elected(c, run[m].nodes[j].votes);
    if h.Some? && h'.Some? {
      ElectionAgreement(c, run, events, k, m, i, j, h.value, h'.value);
    }
    forall b, b' | b in run[k].nodes[i].committed && b' in run[m].nodes[j].committed
      ensures b.header.hash == b'.header.hash && (Collisionless(run[|events|].sent) ==> b.header == b'.header)
      ensures Backed(c, run[|events|].sent, b.header)
    {
      CommitAgreement(c, run, events, k, m, i, j, b, b');
    }
  }

  // An elected header stays elected at its node until that node clears.
  lemma ElectedUntilClear(c: Config, net: Net, e: Event, i: nat)
    requires Sound(c, net) && Enabled(net, e) && !(IsClear(c, net, e) && e.node == i) && i < c.peers
    requires Elected(c, net.nodes[i].votes).Some?
    ensures Elected(c, Next(c, net, e).nodes[i].votes) == Elected(c, net.nodes[i].votes)
  {
    hide Processed, Received, Clears, Elected, Tally;
    assert NodeSound(c, net.sent, net.nodes[i]);
    if e.node == i {
      if e.Process? {
        ProcessedKeepsTally(c, net.nodes[i], e.around);
      } else {
        assert PacketSound(c, net.sent, e.packet);
        ReceivedKeepsTally(c, net.nodes[i], e.packet.sender, e.packet.message);
      }
    }
  }

  /* ---- runs end to end ---- */

  // The events, taken one after the other, lead from a to b.
  ghost predicate Leads(c: Config, a: Net, events: seq<Event>, b: Net)
    decreases |events|
  {
    if |events| == 0 then a == b
    else Enabled(a, events[0]) && Leads(c, Next(c, a, events[0]), events[1..], b)
  }

  lemma {:induction false} LeadsOn(c: Config, a: Net, events: seq<Event>, b: Net, more: seq<Event>, d: Net)
    requires Leads(c, a, events, b) && Leads(c, b, more, d)
    ensures Leads(c, a, events + more, d)
    decreases |events|
  {
    if |events| == 0 {
      assert events + more == more;
    } else {
      LeadsOn(c, Next(c, a, events[0]), events[1..], b, more, d);
      assert (events + more)[1..] == events[1..] + more;
    }
  }

  lemma {:induction false} LeadsIsRun(c: Config, a: Net, events: seq<Event>, b: Net) returns (run: seq<Net>)
    requires Leads(c, a, events, b)
    ensures IsRun(c, run, events) && run[0] == a && run[|events|] == b
    decreases |events|
  {
    hide Next;
    if |events| == 0 {
      run := [a];
    } else {
      var rest := LeadsIsRun(c, Next(c, a, events[0]), events[1..], b);
      run := [a] + rest;
      forall k | 0 <= k < |events|
        ensures Enabled(run[k], events[k]) && run[k + 1] == Next(c, run[k], events[k])
      {
        if k > 0 {
          assert events[k] == events[1..][k - 1];
        }
      }
    }
  }

  // What the events lead to is the end of a run, so its elections agree.
  lemma EndsAgree(c: Config, a: Net, events: seq<Event>, b: Net, i: nat, j: nat, h: Header, h': Header)
    requires Quiet(c, a) && Leads(c, a, events, b) && VotesUnique(b.sent)
    requires i < c.peers && j < c.peers && |b.nodes| == c.peers
    requires Elected(c, b.nodes[i].votes) == Some(h) && Elected(c, b.nodes[j].votes) == Some(h')
    ensures h.hash == h'.hash
    ensures Collisionless(b.sent) ==> h == h'
  {
    hide Quiet, Elected, VotesUnique, Collisionless, Leads, IsRun;
    var run := LeadsIsRun(c, a, events, b);
    RunLength(c, run, events);
    ElectionAgreement(c, run, events, |events|, |events|, i, j, h, h');
  }
}
