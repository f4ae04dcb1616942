/** The consensus engine of node.py: admission of proposed transactions
    (`process_transaction`), weighted vote tallying and confirmation
    (`receive_vote`). Every call runs to completion and is a pure transition
    from one `State` to the next; broadcasts are recorded in an outbox. */
module Consensus {
  import opened Wrappers
  import opened Config
  import opened Blocks
  import opened Ledger
  import opened NodeRegistry

  /** One recorded vote: who voted, how, and with what weight. */
  datatype Vote = Vote(voter: Address, yes: bool, weight: real)

  /** The tally for one proposed transaction (`vote_pool[tx_id]`). */
  datatype Pool = Pool(votes: seq<Vote>, threshold: real, confirmed: bool, tx: Transaction)

  /** A message handed to the peer network for broadcast. */
  datatype Event =
    | TransactionBroadcast(tx: Transaction)
    | VoteBroadcast(txId: TxId, voter: Address, yes: bool)

  datatype State = State(nodes: Registry, pools: map<TxId, Pool>, ledger: Accounts, outbox: seq<Event>)

  /** Why a proposal or a vote is turned away. `UnknownTransaction` stands for
      the lookup failure of a vote on a transaction that has no pool. */
  datatype Rejection =
    | InvalidSignature
    | InvalidPrevious
    | Overspend
    | InvalidOpen
    | NotEligible
    | UnknownTransaction
  {
    /** The reason string returned to the caller. */
    function Reason(): string {
      match this
      case InvalidSignature => "invalid signature"
      case InvalidPrevious => "invalid previous"
      case Overspend => "overspend"
      case InvalidOpen => "invalid open"
      case NotEligible => "not eligible to vote"
      case UnknownTransaction => "unknown transaction"
    }
  }

  /** Each rejection reads differently, so a caller can tell them apart by
      the reason string alone. */
  lemma ReasonsDistinct(x: Rejection, y: Rejection)
    ensures x != y ==> x.Reason() != y.Reason()
  {
  }

  datatype Response =
    | Rejected(reason: Rejection)
    | Pending(txId: TxId)
    | VoteReceived(yesWeight: real)
    | Confirmed(tx: Transaction)

  /** What a call returns together with the state it leaves behind. */
  datatype Outcome = Outcome(response: Response, next: State)

  /** Checks a transaction against its sender's head: the link to the head,
      no overspend, and the sentinel when the account has no head. */
  function CheckHistory(ledger: Accounts, tx: Transaction): (r: Option<Rejection>)
    ensures r.None? <==>
      && tx.previous == HeadIdOrGenesis(ledger, tx.address)
      && (|Chain(ledger, tx.address)| > 0 ==> tx.balance <= GetBalance(ledger, tx.address))
    ensures r == Some(InvalidOpen) <==> |Chain(ledger, tx.address)| == 0 && tx.previous != GENESIS_SENTINEL
    ensures r == Some(InvalidPrevious) <==>
      |Chain(ledger, tx.address)| > 0 && tx.previous != HeadIdOrGenesis(ledger, tx.address)
    ensures r == Some(Overspend) <==>
      && |Chain(ledger, tx.address)| > 0
      && tx.previous == HeadIdOrGenesis(ledger, tx.address)
      && tx.balance > GetBalance(ledger, tx.address)
    ensures r.Some? ==> r.value in {InvalidPrevious, Overspend, InvalidOpen}
  {
    match GetHeadBlock(ledger, tx.address)
    case Success(head) =>
      if tx.previous != head.Id() then Some(InvalidPrevious)
      else if tx.balance > head.Balance() then Some(Overspend)
      else None
    case Failure(_) =>
      if tx.previous != GENESIS_SENTINEL then Some(InvalidOpen) else None
  }

  /** Validates a proposed transaction and, when it passes, opens a fresh
      vote pool for it (replacing any pool with the same id) whose threshold
      is fixed from the current full-node weights. `verify` stands for the
      signature check of the transaction against its own address. */
  function ProcessTransaction(st: State, tx: Transaction, verify: Transaction -> bool): (r: Outcome)
    ensures r.response.Rejected? || r.response == Pending(tx.id)
    ensures r.response.Rejected? ==> r.next == st
    ensures !verify(tx) ==> r.response == Rejected(InvalidSignature)
    ensures verify(tx) && GetHeadBlock(st.ledger, tx.address).Success? ==>
      var head := GetHeadBlock(st.ledger, tx.address).value;
      && (tx.previous != head.Id() ==> r.response == Rejected(InvalidPrevious))
      && (tx.previous == head.Id() && tx.balance > head.Balance() ==> r.response == Rejected(Overspend))
    ensures verify(tx) && GetHeadBlock(st.ledger, tx.address).Failure? && tx.previous != GENESIS_SENTINEL ==>
      r.response == Rejected(InvalidOpen)
    ensures r.response.Pending? <==>
      && verify(tx)
      && tx.previous == HeadIdOrGenesis(st.ledger, tx.address)
      && (GetHeadBlock(st.ledger, tx.address).Success? ==> tx.balance <= GetBalance(st.ledger, tx.address))
    ensures r.response.Pending? ==>
      && r.next.ledger == st.ledger
      && r.next.nodes == st.nodes
      && r.next.pools.Keys == st.pools.Keys + {tx.id}
      && r.next.pools[tx.id] == Pool([], CONSENSUS_THRESHOLD * TotalFullWeight(st.nodes), false, tx)
      && (forall id :: id in st.pools && id != tx.id ==> r.next.pools[id] == st.pools[id])
      && r.next.outbox == st.outbox + [TransactionBroadcast(tx)]
  {
    if !verify(tx) then Outcome(Rejected(InvalidSignature), st)
    else
      match CheckHistory(st.ledger, tx)
      case Some(reason) => Outcome(Rejected(reason), st)
      case None =>
        var threshold := CONSENSUS_THRESHOLD * TotalFullWeight(st.nodes);
        var pools := st.pools[tx.id := Pool([], threshold, false, tx)];
        Outcome(Pending(tx.id), st.(pools := pools, outbox := st.outbox + [TransactionBroadcast(tx)]))
  }

  /** Every vote in `votes` is a no. */
  predicate AllNo(votes: seq<Vote>) {
    forall i :: 0 <= i < |votes| ==> !votes[i].yes
  }

  /** No vote in `votes` carries a negative weight. */
  predicate NonNegativeWeights(votes: seq<Vote>) {
    forall i :: 0 <= i < |votes| ==> votes[i].weight >= 0.0
  }

  /** The summed weight of the yes-votes among `votes`: no-votes add
      nothing, and with no negative weight the tally is not negative. */
  function YesWeight(votes: seq<Vote>): (w: real)
    ensures AllNo(votes) ==> w == 0.0
    ensures NonNegativeWeights(votes) ==> w >= 0.0
  {
    if |votes| == 0 then 0.0
    else (if votes[0].yes then votes[0].weight else 0.0) + YesWeight(votes[1..])
  }

  /** A new vote adds its weight to the tally exactly when it is a yes. */
  lemma {:induction false} YesWeightAppend(votes: seq<Vote>, v: Vote)
    ensures YesWeight(votes + [v]) == YesWeight(votes) + (if v.yes then v.weight else 0.0)
  {
    if |votes| > 0 {
      assert (votes + [v])[1..] == votes[1..] + [v];
      YesWeightAppend(votes[1..], v);
    }
  }

  /** The net reputation change `votes` bring to `a`. */
  function ReputationDelta(votes: seq<Vote>, a: Address): (d: int)
    ensures (forall i :: 0 <= i < |votes| ==> votes[i].voter != a) ==> d == 0
  {
    if |votes| == 0 then 0
    else (if votes[0].voter == a then ReputationChange(votes[0].yes) else 0) + ReputationDelta(votes[1..], a)
  }

  /** Rewards every recorded yes-voter and penalises every recorded no-voter,
      once per recorded vote, in recording order. */
  function UpdateReputations(reg: Registry, votes: seq<Vote>): (r: Registry)
    ensures Addresses(r) == Addresses(reg)
    ensures forall a :: Lookup(reg, a).None? ==> Lookup(r, a).None?
    ensures forall a :: Lookup(reg, a).Some? ==>
      var before := Lookup(reg, a).value;
      Lookup(r, a) == Some(before.(reputation := before.reputation + ReputationDelta(votes, a)))
    decreases votes
  {
    if |votes| == 0 then reg
    else UpdateReputations(UpdateReputation(reg, votes[0].voter, votes[0].yes), votes[1..])
  }

  /** The receive block credited to `tx`'s receiver, built against `ledger`. */
  function ReceiveFor(ledger: Accounts, tx: Transaction): (b: Block)
    requires HasReceiver(tx)
    ensures b.ReceiveBlock? && b.source == tx.id
    ensures b.Id() == tx.id + RECEIVE_SUFFIX
    ensures b.Previous() == HeadIdOrGenesis(ledger, tx.receiver.value)
    ensures b.Balance() == GetBalance(ledger, tx.receiver.value) + tx.balance
  {
    var receiver := tx.receiver.value;
    match GetHeadBlock(ledger, receiver)
    case Success(head) => ReceiveBlock(tx.id + RECEIVE_SUFFIX, tx.id, head.Id(), head.Balance() + tx.balance)
    case Failure(_) => ReceiveBlock(tx.id + RECEIVE_SUFFIX, tx.id, GENESIS_SENTINEL, tx.balance)
  }

  /** Writes a confirmed transaction: the transaction itself to its sender's
      chain, then, when it names a receiver, a receive block to the
      receiver's chain (read after the sender's append). */
  function Commit(ledger: Accounts, tx: Transaction): (r: Accounts)
    ensures r.Keys == ledger.Keys + {tx.address} + (if HasReceiver(tx) then {tx.receiver.value} else {})
    ensures forall a :: a in ledger && a != tx.address && !(HasReceiver(tx) && a == tx.receiver.value) ==>
      r[a] == ledger[a]
    ensures !HasReceiver(tx) || tx.receiver.value != tx.address ==>
      Chain(r, tx.address) == Chain(ledger, tx.address) + [TxBlock(tx)]
    ensures HasReceiver(tx) && tx.receiver.value != tx.address ==>
      var receiver := tx.receiver.value;
      Chain(r, receiver) == Chain(ledger, receiver) + [ReceiveBlock(
        tx.id + RECEIVE_SUFFIX, tx.id, HeadIdOrGenesis(ledger, receiver), GetBalance(ledger, receiver) + tx.balance)]
    ensures HasReceiver(tx) && tx.receiver.value == tx.address ==>
      Chain(r, tx.address) == Chain(ledger, tx.address) + [TxBlock(tx), ReceiveBlock(
        tx.id + RECEIVE_SUFFIX, tx.id, tx.id, tx.balance + tx.balance)]
  {
    var sent := AppendBlock(ledger, tx.address, TxBlock(tx));
    if HasReceiver(tx) then
      var receiver := tx.receiver.value;
      assert receiver != tx.address ==> Chain(sent, receiver) == Chain(ledger, receiver);
      AppendBlock(sent, receiver, ReceiveFor(sent, tx))
    else
      sent
  }

  /** Records a vote from a full node on the pool of `txId` (even one already
      confirmed) and confirms the pool the first time the yes-weight reaches
      its threshold: the ledger gets the transaction's blocks and every
      recorded voter's reputation is adjusted. Nothing changes on a rejection. */
  function ReceiveVote(st: State, txId: TxId, voter: Address, voteYes: bool): (r: Outcome)
    ensures !IsFullNode(st.nodes, voter) ==> r == Outcome(Rejected(NotEligible), st)
    ensures IsFullNode(st.nodes, voter) && txId !in st.pools ==> r == Outcome(Rejected(UnknownTransaction), st)
    ensures r.response.Rejected? ==> r.next == st
    ensures IsFullNode(st.nodes, voter) && txId in st.pools ==>
      && r.next.pools.Keys == st.pools.Keys
      && (forall id :: id in st.pools && id != txId ==> r.next.pools[id] == st.pools[id])
      && r.next.outbox == st.outbox + [VoteBroadcast(txId, voter, voteYes)]
      && var p, q := st.pools[txId], r.next.pools[txId];
      && q.votes == p.votes + [Vote(voter, voteYes, VotingWeight(st.nodes, voter))]
      && q.threshold == p.threshold
      && q.tx == p.tx
      && q.confirmed == (p.confirmed || YesWeight(q.votes) >= p.threshold)
      && (r.response.Confirmed? <==> !p.confirmed && q.confirmed)
      && (r.response.Confirmed? ==>
            && r.response.tx == p.tx
            && r.next.ledger == Commit(st.ledger, p.tx)
            && r.next.nodes == UpdateReputations(st.nodes, q.votes))
      && (!r.response.Confirmed? ==>
            && r.response == VoteReceived(YesWeight(q.votes))
            && r.next.ledger == st.ledger
            && r.next.nodes == st.nodes)
  {
    if !IsFullNode(st.nodes, voter) then Outcome(Rejected(NotEligible), st)
    else if txId !in st.pools then Outcome(Rejected(UnknownTransaction), st)
    else
      var pool := st.pools[txId];
      var votes := pool.votes + [Vote(voter, voteYes, VotingWeight(st.nodes, voter))];
      var yes := YesWeight(votes);
      var outbox := st.outbox + [VoteBroadcast(txId, voter, voteYes)];
      if !pool.confirmed && yes >= pool.threshold then
        var pools := st.pools[txId := pool.(votes := votes, confirmed := true)];
        Outcome(Confirmed(pool.tx), State(UpdateReputations(st.nodes, votes), pools, Commit(st.ledger, pool.tx), outbox))
      else
        var pools := st.pools[txId := pool.(votes := votes)];
        Outcome(VoteReceived(yes), st.(pools := pools, outbox := outbox))
  }
}
