/** Properties of runs of the consensus engine: chain linkage, commit at most
    once per pool, and thresholds that reputation feedback cannot move. */
module Invariants {
  import opened Wrappers
  import opened Blocks
  import opened Ledger
  import opened NodeRegistry
  import opened Consensus

  /** A linked chain stays linked when its last block is dropped. */
  lemma LinkedPrefix(c: seq<Block>, b: Block)
    requires Linked(c + [b])
    ensures Linked(c)
  {
    forall k | 0 < k < |c|
      ensures c[k].Previous() == c[k - 1].Id()
    {
      assert (c + [b])[k] == c[k] && (c + [b])[k - 1] == c[k - 1];
    }
    if |c| > 0 {
      assert (c + [b])[0] == c[0];
    }
  }

  /** Committing a transaction keeps every chain linked exactly when the
      transaction still points at its sender's current head; the receive
      block always points at the receiver's head. */
  lemma CommitKeepsLinked(ledger: Accounts, tx: Transaction)
    requires AllLinked(ledger)
    ensures AllLinked(Commit(ledger, tx)) <==> tx.previous == HeadIdOrGenesis(ledger, tx.address)
  {
    var sent := AppendBlock(ledger, tx.address, TxBlock(tx));
    AppendKeepsLinked(ledger, tx.address, TxBlock(tx));
    if HasReceiver(tx) {
      var receiver := tx.receiver.value;
      var rb := ReceiveFor(sent, tx);
      assert Commit(ledger, tx) == AppendBlock(sent, receiver, rb);
      assert rb.Previous() == HeadIdOrGenesis(sent, receiver);
      if tx.previous == HeadIdOrGenesis(ledger, tx.address) {
        AppendKeepsLinked(sent, receiver, rb);
      } else {
        assert !Linked(sent[tx.address]) by {
          forall x | x in sent && x != tx.address
            ensures Linked(sent[x])
          {
            assert sent[x] == ledger[x];
          }
        }
        var r := Commit(ledger, tx);
        if receiver == tx.address {
          assert r[tx.address] == sent[tx.address] + [rb];
          if Linked(r[tx.address]) {
            LinkedPrefix(sent[tx.address], rb);
          }
        } else {
          assert r[tx.address] == sent[tx.address];
        }
      }
    }
  }

  /** A vote keeps the ledger linked unless it confirms a transaction whose
      `previous` is no longer its sender's head. */
  lemma ReceiveVoteKeepsLinked(st: State, txId: TxId, voter: Address, voteYes: bool)
    requires AllLinked(st.ledger)
    ensures
      var r := ReceiveVote(st, txId, voter, voteYes);
      && (!r.response.Confirmed? ==> AllLinked(r.next.ledger))
      && (r.response.Confirmed? ==>
            (AllLinked(r.next.ledger) <==> r.response.tx.previous == HeadIdOrGenesis(st.ledger, r.response.tx.address)))
  {
    var r := ReceiveVote(st, txId, voter, voteYes);
    if r.response.Confirmed? {
      CommitKeepsLinked(st.ledger, r.response.tx);
    }
  }

  /** Two transactions admitted against the same head of one account break
      that account's chain once both are confirmed: the second still points
      at the head the first replaced. The first commit must move the head to
      a new id: the first transaction's own id, or for a send to oneself the
      id of its receive block. */
  lemma SameHeadProposalsBreakLinkage(ledger: Accounts, tx1: Transaction, tx2: Transaction)
    requires AllLinked(ledger)
    requires tx1.address == tx2.address
    requires tx1.previous == HeadIdOrGenesis(ledger, tx1.address)
    requires tx2.previous == HeadIdOrGenesis(ledger, tx2.address)
    requires tx1.id != tx2.previous
    requires HasReceiver(tx1) && tx1.receiver.value == tx1.address ==> tx1.id + RECEIVE_SUFFIX != tx2.previous
    ensures AllLinked(Commit(ledger, tx1))
    ensures !AllLinked(Commit(Commit(ledger, tx1), tx2))
  {
    var once := Commit(ledger, tx1);
    CommitKeepsLinked(ledger, tx1);
    if HasReceiver(tx1) && tx1.receiver.value == tx1.address {
      var c := Chain(once, tx1.address);
      assert c[|c| - 1].Id() == tx1.id + RECEIVE_SUFFIX;
      assert HeadIdOrGenesis(once, tx2.address) == tx1.id + RECEIVE_SUFFIX;
    } else {
      assert GetHeadBlock(once, tx1.address) == Success(TxBlock(tx1));
      assert HeadIdOrGenesis(once, tx2.address) == tx1.id;
    }
    CommitKeepsLinked(once, tx2);
  }

  /** A ballot as a voter casts it. */
  datatype Ballot = Ballot(voter: Address, yes: bool)

  /** The state after casting `ballots` on `txId`, one `ReceiveVote` each. */
  function CastVotes(st: State, txId: TxId, ballots: seq<Ballot>): State
    decreases |ballots|
  {
    if |ballots| == 0 then st
    else CastVotes(ReceiveVote(st, txId, ballots[0].voter, ballots[0].yes).next, txId, ballots[1..])
  }

  /** However many votes arrive on one pool, it keeps its transaction and
      threshold, never goes back from confirmed, and its transaction reaches
      the ledger at most once: the ledger ends either untouched or with
      exactly one commit, and it is the commit exactly when this run
      confirmed the pool. Once confirmed, the ledger and registry are frozen
      against further votes. */
  lemma {:induction false} VotesCommitAtMostOnce(st: State, txId: TxId, ballots: seq<Ballot>)
    requires txId in st.pools
    ensures
      var end := CastVotes(st, txId, ballots);
      var p := st.pools[txId];
      && txId in end.pools
      && end.pools[txId].tx == p.tx
      && end.pools[txId].threshold == p.threshold
      && (p.confirmed ==> end.pools[txId].confirmed && end.ledger == st.ledger && end.nodes == st.nodes)
      && (end.ledger == st.ledger || end.ledger == Commit(st.ledger, p.tx))
      && (end.ledger != st.ledger ==> end.pools[txId].confirmed)
      && (!p.confirmed && end.pools[txId].confirmed ==> end.ledger == Commit(st.ledger, p.tx))
    decreases |ballots|
  {
    if |ballots| > 0 {
      var next := ReceiveVote(st, txId, ballots[0].voter, ballots[0].yes).next;
      assert txId in next.pools;
      VotesCommitAtMostOnce(next, txId, ballots[1..]);
    }
  }

  /** Reputation feedback on confirmation leaves the total full weight, and so
      the threshold of every later proposal, unchanged. */
  lemma {:induction false} UpdateReputationsKeepsTotalFullWeight(reg: Registry, votes: seq<Vote>)
    ensures TotalFullWeight(UpdateReputations(reg, votes)) == TotalFullWeight(reg)
    decreases votes
  {
    if |votes| > 0 {
      UpdateReputationKeepsTotalFullWeight(reg, votes[0].voter, votes[0].yes);
      UpdateReputationsKeepsTotalFullWeight(UpdateReputation(reg, votes[0].voter, votes[0].yes), votes[1..]);
    }
  }

  /** The yes-weight a vote reports is the previous yes-weight plus the
      voter's weight when it votes yes. */
  lemma VoteAddsItsWeight(st: State, txId: TxId, voter: Address, voteYes: bool)
    requires IsFullNode(st.nodes, voter) && txId in st.pools
    ensures
      var r := ReceiveVote(st, txId, voter, voteYes);
      YesWeight(r.next.pools[txId].votes)
        == YesWeight(st.pools[txId].votes) + (if voteYes then VotingWeight(st.nodes, voter) else 0.0)
  {
    YesWeightAppend(st.pools[txId].votes, Vote(voter, voteYes, VotingWeight(st.nodes, voter)));
  }
}
