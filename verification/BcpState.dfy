/** One node of the block commit protocol: its boxes and tallies, and what its steps do to them. */
module BcpState {
  import opened Common
  import opened IntSets

  // Equality compares whole headers; hash is what get_header_hash gives for the contents, collisions included.
  datatype Header = Header(contents: int, hash: int)

  datatype Block = Block(header: Header, body: int)

  datatype Step = Null | Waiting | Participation | Propose | Vote | Commit

  datatype Message =
    | NewRound(round: int)
    | ProposeHeader(header: Header)
    | VoteFor(header: Header)
    | VerifyBlock(block: Block)
    | CommitBlock(block: Block)

  // Peers are numbered 0 .. peers - 1; user addresses are numbered in the order of their texts.
  datatype Config = Config(peers: nat, invalidIndex: int, valid: Block -> bool)

  // Who announced which round, and how many announced each.
  datatype Rounds = Rounds(messages: map<int, int>, votes: map<int, int>)

  // The vote box, the first header recorded for each hash, the votes for each hash;
  // the blocks peers reported as verified, and the last of them.
  datatype Tallies = Tallies(
    box: map<int, Header>,
    headers: map<int, Header>,
    counts: map<int, int>,
    verified: map<int, Block>,
    commitBlock: Block)

  datatype Node = Node(
    step: Step,
    timeContext: int,
    rounds: Rounds,
    candidate: Block,
    userHeaders: map<int, Header>,
    proposed: map<int, Header>,
    myVote: Header,
    votes: Tallies,
    committed: seq<Block>)

  // What a call of process() finds outside: the clock, the height of the chain,
  // its own address, the block it can create.
  datatype Surroundings = Surroundings(context: int, time: int, height: int, address: int, created: Option<Block>)

  const PARTICIPATION_TIMEOUT := 5
  const PROPOSE_TIMEOUT := 10
  const VOTE_TIMEOUT := 15

  function Quorum(c: Config): nat {
    c.peers / 2 + 1
  }

  /* ---- updates of the boxes ---- */

  function Cleared(s: Node): Node {
    s.(rounds := Rounds(map[], map[]), userHeaders := map[], proposed := map[], votes := Empty(s.votes.commitBlock))
  }

  // clear_intermediate_data leaves the block to be committed.
  function Empty(commitBlock: Block): Tallies {
    Tallies(map[], map[], map[], map[], commitBlock)
  }

  function Increment(counts: map<int, int>, k: int): map<int, int> {
    counts[k := if k in counts then counts[k] + 1 else 1]
  }

  // The first message of a peer counts, later ones do not.
  function FirstWins<V>(box: map<int, V>, k: int, v: V): map<int, V> {
    if k in box then box else box[k := v]
  }

  function RoundAnnounced(r: Rounds, peer: int, round: int): Rounds {
    if peer in r.messages then r else Rounds(r.messages[peer := round], Increment(r.votes, round))
  }

  function Voted(s: Tallies, peer: int, h: Header): Tallies {
    if peer in s.box then s
    else s.(box := s.box[peer := h], headers := FirstWins(s.headers, h.hash, h), counts := Increment(s.counts, h.hash))
  }

  ghost predicate IsQualified(counts: map<int, int>, quorum: int, hash: int) {
    hash in counts && counts[hash] >= quorum
  }

  ghost function ElectedBy(counts: map<int, int>, headers: map<int, Header>, quorum: int): Option<Header> {
    if hash :| IsQualified(counts, quorum, hash) && hash in headers then Some(headers[hash]) else None
  }

  ghost function Elected(c: Config, s: Tallies): Option<Header> {
    ElectedBy(s.counts, s.headers, Quorum(c))
  }

  ghost function Verified(c: Config, s: Tallies, peer: int, b: Block): Tallies {
    if peer in s.verified || Elected(c, s) != Some(b.header) then s
    else s.(verified := s.verified[peer := b], commitBlock := b)
  }

  function FoundCommit(c: Config, s: Tallies): Option<Block> {
    if |s.verified| >= Quorum(c) then Some(s.commitBlock) else None
  }

  // k holds the lowest hash; among equal hashes the lowest key.
  ghost predicate IsLowest(m: map<int, Header>, k: int) {
    k in m && forall j: int :: j in m ==> m[k].hash < m[j].hash || (m[k].hash == m[j].hash && k <= j)
  }

  ghost function Lowest(m: map<int, Header>): Option<Header> {
    if k: int :| IsLowest(m, k) then Some(m[k]) else None
  }

  lemma LowestUnique(m: map<int, Header>, k: int)
    requires IsLowest(m, k)
    ensures Lowest(m) == Some(m[k])
  {
    var j: int :| IsLowest(m, j) && Lowest(m) == Some(m[j]);
    assert IsLowest(m, j);
    assert j in m;
    assert j == k;
  }

  ghost predicate RoundStarts(c: Config, r: Rounds, round: int) {
    round in r.votes && r.votes[round] >= c.peers && round > c.invalidIndex
  }

  // The lowest round that every peer announced.
  ghost function StartedRound(c: Config, r: Rounds): Option<int> {
    if k :| RoundStarts(c, r, k) && forall j :: RoundStarts(c, r, j) ==> k <= j then Some(k) else None
  }

  /* ---- the steps ---- */

  ghost function ProcessedWaiting(c: Config, s: Node, e: Surroundings): (Node, Option<Message>) {
    if e.time >= PARTICIPATION_TIMEOUT then (s, None)
    else if e.context > s.timeContext then (s.(timeContext := e.context), Some(NewRound(e.height + 1)))
    else if StartedRound(c, s.rounds).None? then (s, None)
    else if e.created.None? then (s.(step := Participation), None)
    else (CandidateSet(s, e.address, e.created.value).(step := Participation), None)
  }

  // The node's own new block is its candidate and joins the user headers.
  function CandidateSet(s: Node, address: int, b: Block): Node {
    s.(candidate := b, userHeaders := FirstWins(s.userHeaders, address, b.header))
  }

  ghost function ProcessedParticipation(s: Node, e: Surroundings): (Node, Option<Message>) {
    if e.time <= PARTICIPATION_TIMEOUT then (s, None)
    else
      match Lowest(s.userHeaders)
      case None => (s.(step := Propose), None)
      case Some(h) => (s.(step := Propose, candidate := s.candidate.(header := h)), Some(ProposeHeader(h)))
  }

  ghost function ProcessedPropose(s: Node, e: Surroundings): (Node, Option<Message>) {
    if e.time <= PROPOSE_TIMEOUT then (s, None)
    else
      match Lowest(s.proposed)
      case None => (s.(step := Vote), None)
      case Some(h) => (s.(step := Vote, myVote := h), Some(VoteFor(h)))
  }

  ghost function ProcessedVote(c: Config, s: Node, e: Surroundings): (Node, Option<Message>) {
    if e.time > VOTE_TIMEOUT then (Cleared(s).(step := Waiting), None)
    else
      match Elected(c, s.votes)
      case None => (s, None)
      case Some(h) => (s.(step := Commit), if h == s.candidate.header then Some(VerifyBlock(s.candidate)) else None)
  }

  ghost function ProcessedCommit(c: Config, s: Node, e: Surroundings): (Node, Option<Message>) {
    if e.time < PARTICIPATION_TIMEOUT then (Cleared(s).(step := Waiting), None)
    else
      match FoundCommit(c, s.votes)
      case None => (s, None)
      case Some(b) => (Cleared(s).(step := Waiting, committed := s.committed + [b]), None)
  }

  // One call of process(): the new state and the message broadcast.
  ghost function Processed(c: Config, s: Node, e: Surroundings): (Node, Option<Message>) {
    match s.step
    case Null => (s, None)
    case Waiting => ProcessedWaiting(c, s, e)
    case Participation => ProcessedParticipation(s, e)
    case Propose => ProcessedPropose(s, e)
    case Vote => ProcessedVote(c, s, e)
    case Commit => ProcessedCommit(c, s, e)
  }

  // process() reached on_bcp_consensus_fail or on_bcp_new_block_commit_for.
  ghost predicate Clears(c: Config, s: Node, e: Surroundings) {
    || (s.step.Vote? && e.time > VOTE_TIMEOUT)
    || (s.step.Commit? && (e.time < PARTICIPATION_TIMEOUT || FoundCommit(c, s.votes).Some?))
  }

  // Delivery of a peer's message: the new state and the message broadcast in turn.
  ghost function Received(c: Config, s: Node, sender: int, m: Message): (Node, Option<Message>) {
    match m
    case NewRound(round) => (s.(rounds := RoundAnnounced(s.rounds, sender, round)), None)
    case ProposeHeader(h) => (s.(proposed := FirstWins(s.proposed, sender, h)), None)
    case VoteFor(h) => (s.(votes := Voted(s.votes, sender, h)), None)
    case CommitBlock(b) => (s.(votes := Verified(c, s.votes, sender, b)), None)
    case VerifyBlock(b) =>
      (s, if Elected(c, s.votes) == Some(b.header) && c.valid(b) then Some(CommitBlock(b)) else None)
  }

  /* ---- the tally ---- */

  // The peers whose recorded vote has this hash.
  function Voters(box: map<int, Header>, hash: int): set<int> {
    set p | p in box && box[p].hash == hash
  }

  ghost predicate Counted(s: Tallies) {
    && (forall x :: x in s.counts <==> Voters(s.box, x) != {})
    && (forall x :: x in s.counts ==> s.counts[x] == |Voters(s.box, x)|)
  }

  ghost predicate SomeoneHas<V>(box: map<int, V>, v: V) {
    exists p :: p in box && box[p] == v
  }

  ghost predicate HeadersKept(s: Tallies) {
    && s.headers.Keys == s.counts.Keys
    && (forall x :: x in s.headers ==> s.headers[x].hash == x && SomeoneHas(s.box, s.headers[x]))
  }

  // Every block in the box of verified blocks carries the elected header, and so does the one to be committed.
  ghost predicate BlocksElected(c: Config, s: Tallies) {
    && (forall p :: p in s.verified ==> 0 <= p < c.peers && Elected(c, s) == Some(s.verified[p].header))
    && (s.verified != map[] ==> SomeoneHas(s.verified, s.commitBlock))
  }

  ghost predicate Tally(c: Config, s: Tallies) {
    && (forall p :: p in s.box ==> 0 <= p < c.peers)
    && Counted(s)
    && HeadersKept(s)
    && BlocksElected(c, s)
  }

  // At most one hash is ever qualified.
  lemma QualifiedUnique(c: Config, s: Tallies, x: int, y: int)
    requires Tally(c, s) && IsQualified(s.counts, Quorum(c), x) && IsQualified(s.counts, Quorum(c), y)
    ensures x == y
  {
    var p := MajoritiesMeet(Voters(s.box, x), Voters(s.box, y), c.peers);
  }

  lemma ElectedIs(c: Config, s: Tallies, x: int)
    requires Tally(c, s) && IsQualified(s.counts, Quorum(c), x)
    ensures x in s.headers && Elected(c, s) == Some(s.headers[x])
  {
    var y :| IsQualified(s.counts, Quorum(c), y) && y in s.headers && Elected(c, s) == Some(s.headers[y]);
    QualifiedUnique(c, s, x, y);
  }

  // A header is elected exactly when more than half of the peers voted for its hash.
  lemma ElectedByMajority(c: Config, s: Tallies, h: Header)
    requires Tally(c, s)
    ensures Elected(c, s) == Some(h) ==> |Voters(s.box, h.hash)| >= Quorum(c) && SomeoneHas(s.box, h)
    ensures Elected(c, s) == None ==> |Voters(s.box, h.hash)| < Quorum(c)
  {
    if Elected(c, s) == Some(h) {
      var x :| IsQualified(s.counts, Quorum(c), x) && x in s.headers && Elected(c, s) == Some(s.headers[x]);
    }
    if |Voters(s.box, h.hash)| >= Quorum(c) {
      assert Voters(s.box, h.hash) != {};
      ElectedIs(c, s, h.hash);
    }
  }

  /* ---- every update keeps the tally ---- */

  lemma VotersOfNew(box: map<int, Header>, peer: int, h: Header, x: int)
    requires peer !in box
    ensures Voters(box[peer := h], x) == if x == h.hash then Voters(box, x) + {peer} else Voters(box, x)
  {
  }

  lemma VoteCounted(s: Tallies, peer: int, h: Header)
    requires Counted(s) && HeadersKept(s) && peer !in s.box
    ensures Counted(Voted(s, peer, h)) && HeadersKept(Voted(s, peer, h))
  {
    var t := Voted(s, peer, h);
    forall x
      ensures x in t.counts <==> Voters(t.box, x) != {}
      ensures x in t.counts ==> t.counts[x] == |Voters(t.box, x)|
    {
      VotersOfNew(s.box, peer, h, x);
    }
    HeaderRecorded(s, peer, h);
  }

  lemma HeaderRecorded(s: Tallies, peer: int, h: Header)
    requires HeadersKept(s) && peer !in s.box
    ensures HeadersKept(Voted(s, peer, h))
  {
    var t := Voted(s, peer, h);
    assert t.box[peer] == h;
    forall x | x in s.headers
      ensures SomeoneHas(t.box, s.headers[x])
    {
      var p :| p in s.box && s.box[p] == s.headers[x];
      assert t.box[p] == s.headers[x];
    }
  }

  // Once elected, a header stays elected: a later vote does not change it.
  lemma ElectionStays(c: Config, s: Tallies, peer: int, h: Header)
    requires Tally(c, s) && 0 <= peer < c.peers
    ensures Tally(c, Voted(s, peer, h))
    ensures Elected(c, s).Some? ==> Elected(c, Voted(s, peer, h)) == Elected(c, s)
  {
    var t := Voted(s, peer, h);
    if peer !in s.box {
      VoteCounted(s, peer, h);
      if Elected(c, s).Some? {
        var x :| IsQualified(s.counts, Quorum(c), x) && x in s.headers && Elected(c, s) == Some(s.headers[x]);
        assert IsQualified(t.counts, Quorum(c), x);
        ElectedIs(c, t.(verified := map[]), x);
      }
    }
  }

  lemma VerifiedKeepsTally(c: Config, s: Tallies, peer: int, b: Block)
    requires Tally(c, s) && 0 <= peer < c.peers
    ensures Tally(c, Verified(c, s, peer, b)) && Elected(c, Verified(c, s, peer, b)) == Elected(c, s)
  {
    var t := Verified(c, s, peer, b);
    if peer !in s.verified && Elected(c, s) == Some(b.header) {
      assert t.verified[peer] == b;
    }
  }

  // Whatever message arrives from a peer, the tally stays right and what is elected stays elected.
  lemma ReceivedKeepsTally(c: Config, s: Node, sender: int, m: Message)
    requires Tally(c, s.votes) && 0 <= sender < c.peers
    ensures Tally(c, Received(c, s, sender, m).0.votes)
    ensures Elected(c, s.votes).Some? ==> Elected(c, Received(c, s, sender, m).0.votes) == Elected(c, s.votes)
  {
    hide Tally, Elected, Voted, Verified;
    match m
    case VoteFor(h) => ElectionStays(c, s.votes, sender, h);
    case CommitBlock(b) => VerifiedKeepsTally(c, s.votes, sender, b);
    case _ =>
  }

  lemma EmptyTally(c: Config, b: Block)
    ensures Tally(c, Empty(b))
  {
  }

  // Only a clear touches the tallies.
  lemma ProcessedVotes(c: Config, s: Node, e: Surroundings)
    ensures Processed(c, s, e).0.votes == if Clears(c, s, e) then Empty(s.votes.commitBlock) else s.votes
  {
    hide Elected, Lowest, StartedRound, FoundCommit;
  }

  // process() keeps the tally, and only a clear undoes an election.
  lemma ProcessedKeepsTally(c: Config, s: Node, e: Surroundings)
    requires Tally(c, s.votes)
    ensures Tally(c, Processed(c, s, e).0.votes)
    ensures !Clears(c, s, e) ==> Elected(c, Processed(c, s, e).0.votes) == Elected(c, s.votes)
  {
    hide Tally, Elected, Processed, Clears;
    ProcessedVotes(c, s, e);
    EmptyTally(c, s.votes.commitBlock);
  }

  // A block to be committed carries the elected header, and more than half of the peers sent one that does.
  lemma CommitHasQuorum(c: Config, s: Tallies, b: Block)
    requires Tally(c, s) && FoundCommit(c, s) == Some(b)
    ensures Elected(c, s) == Some(b.header)
    ensures |s.verified.Keys| >= Quorum(c) && s.verified.Keys <= Peers(c.peers)
    ensures forall p :: p in s.verified ==> s.verified[p].header == b.header
  {
    assert s.verified != map[];
  }
}
