/** Concrete runs of the engine on a five-node example network: full nodes
    A, B, C, D, E with weights 5, 5, 50, 50 and 20 (the first five nodes of
    performance_test.py), and B sending from its genesis to A as in
    simulate_network.py. The node addresses are any five
    distinct strings. */
module Scenario {
  import opened Wrappers
  import opened Config
  import opened Blocks
  import opened Ledger
  import opened NodeRegistry
  import opened Consensus
  import opened Invariants

  datatype Names = Names(a: Address, b: Address, c: Address, d: Address, e: Address) {
    /** Five different addresses; A, the receiver below, is not empty. */
    predicate WellFormed() {
      && a != ""
      && a != b && a != c && a != d && a != e
      && b != c && b != d && b != e
      && c != d && c != e
      && d != e
    }
  }

  function Full(weight: real): NodeRecord {
    NodeRecord(true, weight, REPUTATION_INIT, None)
  }

  /** A full node joining under a fresh address goes to the end. */
  lemma Join(reg: Registry, a: Address, weight: real)
    requires forall i :: 0 <= i < |reg| ==> reg[i].address != a
    ensures Register(reg, a, true, weight, None) == reg + [Entry(a, Full(weight))]
  {
    LookupFindsEntry(reg, a);
    RegisterAppendsNew(reg, a, true, weight, None);
  }

  /** Registering the five nodes one after the other appends them in order. */
  lemma RegistrationBuildsRoster(n: Names)
    requires n.WellFormed()
    ensures
      var r1 := Register([], n.a, true, 5.0, None);
      var r2 := Register(r1, n.b, true, 5.0, None);
      var r3 := Register(r2, n.c, true, 50.0, None);
      var r4 := Register(r3, n.d, true, 50.0, None);
      Register(r4, n.e, true, 20.0, None) == Roster(n)
  {
    var a, b, c, d, e := Entry(n.a, Full(5.0)), Entry(n.b, Full(5.0)), Entry(n.c, Full(50.0)),
                         Entry(n.d, Full(50.0)), Entry(n.e, Full(20.0));
    var r1 := Register([], n.a, true, 5.0, None);
    assert r1 == [a] by { Join([], n.a, 5.0); }
    var r2 := Register(r1, n.b, true, 5.0, None);
    assert r2 == [a, b] by { Join([a], n.b, 5.0); }
    var r3 := Register(r2, n.c, true, 50.0, None);
    assert r3 == [a, b, c] by { Join([a, b], n.c, 50.0); }
    var r4 := Register(r3, n.d, true, 50.0, None);
    assert r4 == [a, b, c, d] by { Join([a, b, c], n.d, 50.0); }
    assert Register(r4, n.e, true, 20.0, None) == [a, b, c, d, e] by { Join([a, b, c, d], n.e, 20.0); }
  }

  /** B sends from its genesis to A, leaving itself a balance of 90. */
  function Send(n: Names): Transaction {
    Transaction("t1", "send", n.b, Some(n.a), GENESIS_SENTINEL, 90.0, "sig")
  }

  function AcceptAll(tx: Transaction): bool { true }

  /** The registered network with no ledger, pools or broadcasts yet. */
  function Start(n: Names): State {
    State(Roster(n), map[], map[], [])
  }

  /** The registry the five registrations produce (RegistrationBuildsRoster).
      It is written out as a literal so that the runs below need not unfold
      `Register` five times, which the solver handles poorly. */
  function Roster(n: Names): Registry {
    [Entry(n.a, Full(5.0)), Entry(n.b, Full(5.0)), Entry(n.c, Full(50.0)),
     Entry(n.d, Full(50.0)), Entry(n.e, Full(20.0))]
  }

  /** Who may vote and with what weight. */
  lemma RosterLookups(n: Names)
    requires n.WellFormed()
    ensures Lookup(Roster(n), n.a) == Some(Full(5.0))
    ensures Lookup(Roster(n), n.c) == Some(Full(50.0))
    ensures Lookup(Roster(n), n.d) == Some(Full(50.0))
    ensures Lookup(Roster(n), n.e) == Some(Full(20.0))
  {
    var ea, eb, ec, ed, ee := Entry(n.a, Full(5.0)), Entry(n.b, Full(5.0)), Entry(n.c, Full(50.0)),
                              Entry(n.d, Full(50.0)), Entry(n.e, Full(20.0));
    assert Roster(n) == [ea] + ([eb] + ([ec] + ([ed] + [ee])));
    ConsFacts(ea, [eb] + ([ec] + ([ed] + [ee])));
    ConsFacts(eb, [ec] + ([ed] + [ee]));
    ConsFacts(ec, [ed] + [ee]);
    ConsFacts(ed, [ee]);
    ConsFacts(ee, []);
  }

  /** The total full weight is 130. */
  lemma RosterWeight(n: Names)
    ensures TotalFullWeight(Roster(n)) == 130.0
  {
    var reg := Roster(n);
    assert TotalFullWeight(reg[4..]) == 20.0 by { assert reg[4..][1..] == []; }
    assert TotalFullWeight(reg[3..]) == 70.0 by { assert reg[3..][1..] == reg[4..]; }
    assert TotalFullWeight(reg[2..]) == 120.0 by { assert reg[2..][1..] == reg[3..]; }
    assert TotalFullWeight(reg[1..]) == 125.0 by { assert reg[1..][1..] == reg[2..]; }
  }

  /** B's send is admitted: a pool with threshold 0.66 * 130 = 85.8 opens. */
  lemma Proposal(n: Names)
    requires n.WellFormed()
    ensures
      var r := ProcessTransaction(Start(n), Send(n), AcceptAll);
      && r.response == Pending("t1")
      && r.next == Admitted(n)
  {
    RosterWeight(n);
  }

  /** An address outside the network is not a full node. */
  lemma StrangerCannotVote(n: Names, stranger: Address)
    requires n.WellFormed()
    requires stranger !in {n.a, n.b, n.c, n.d, n.e}
    ensures !IsFullNode(Roster(n), stranger)
  {
    var reg := Roster(n);
    assert stranger !in Addresses(reg) by {
      forall i | 0 <= i < |reg|
        ensures Addresses(reg)[i] != stranger
      {
        assert Addresses(reg)[i] == reg[i].address;
      }
    }
  }

  /** The state after B's send is admitted. */
  function Admitted(n: Names): State {
    Start(n).(pools := map["t1" := Pool([], 85.8, false, Send(n))], outbox := [TransactionBroadcast(Send(n))])
  }

  /** A yes-vote from any full node on an unconfirmed pool whose tally stays
      below the threshold only adds the voter's weight to the tally. */
  lemma YesVoteBelowThreshold(st: State, txId: TxId, voter: Address)
    requires txId in st.pools && !st.pools[txId].confirmed
    requires IsFullNode(st.nodes, voter)
    requires YesWeight(st.pools[txId].votes) + VotingWeight(st.nodes, voter) < st.pools[txId].threshold
    ensures
      var w := VotingWeight(st.nodes, voter);
      var r := ReceiveVote(st, txId, voter, true);
      && r.response == VoteReceived(YesWeight(st.pools[txId].votes) + w)
      && r.next.ledger == st.ledger && r.next.nodes == st.nodes
      && r.next.pools[txId] == st.pools[txId].(votes := st.pools[txId].votes + [Vote(voter, true, w)])
  {
    VoteAddsItsWeight(st, txId, voter, true);
  }

  /** Yes-votes from A and C total 55, short of 85.8: the pool stays pending
      and the ledger empty. */
  lemma FiftyFiveStaysPending(n: Names)
    requires n.WellFormed()
    ensures
      var v1 := ReceiveVote(Admitted(n), "t1", n.a, true);
      var v2 := ReceiveVote(v1.next, "t1", n.c, true);
      && v1.response == VoteReceived(5.0)
      && v2.response == VoteReceived(55.0)
      && !v2.next.pools["t1"].confirmed
      && v2.next.ledger == map[]
  {
    RosterLookups(n);
    var v1 := ReceiveVote(Admitted(n), "t1", n.a, true);
    YesVoteBelowThreshold(Admitted(n), "t1", n.a);
    assert YesWeight(v1.next.pools["t1"].votes) == 5.0;
    YesVoteBelowThreshold(v1.next, "t1", n.c);
  }

  /** C votes yes once and E twice: E's repeated vote counts again, and the
      tally reaches 90 >= 85.8, which confirms the pool. */
  lemma NinetyConfirms(n: Names)
    requires n.WellFormed()
    ensures
      var v1 := ReceiveVote(Admitted(n), "t1", n.c, true);
      var v2 := ReceiveVote(v1.next, "t1", n.e, true);
      var v3 := ReceiveVote(v2.next, "t1", n.e, true);
      && v2.response == VoteReceived(70.0)
      && v3.response == Confirmed(Send(n))
      && v3.next.pools["t1"].confirmed
  {
    RosterLookups(n);
    var v1 := ReceiveVote(Admitted(n), "t1", n.c, true);
    YesVoteBelowThreshold(Admitted(n), "t1", n.c);
    var v2 := ReceiveVote(v1.next, "t1", n.e, true);
    YesVoteBelowThreshold(v1.next, "t1", n.e);
    VoteAddsItsWeight(v2.next, "t1", n.e, true);
  }

  /** The receive block of transaction t1 is named t1_recv. */
  lemma ReceiveIdOfSend()
    ensures "t1" + RECEIVE_SUFFIX == "t1_recv"
  {
    var id := "t1" + RECEIVE_SUFFIX;
    assert |id| == 7;
    assert id[0] == 't' && id[1] == '1' && id[2] == '_' && id[3] == 'r';
    assert id[4] == 'e' && id[5] == 'c' && id[6] == 'v';
  }

  /** Committing B's send to the empty ledger writes the send to B and a
      receive block crediting 90 from the sentinel to A. */
  lemma CommitOfSend(n: Names)
    requires n.WellFormed()
    ensures Commit(map[], Send(n)) == map[
      n.b := [TxBlock(Send(n))],
      n.a := [ReceiveBlock("t1_recv", "t1", GENESIS_SENTINEL, 90.0)]]
  {
    var ledger := Commit(map[], Send(n));
    ReceiveIdOfSend();
    assert Chain(ledger, n.b) == [TxBlock(Send(n))];
    assert Chain(ledger, n.a) == [ReceiveBlock("t1_recv", "t1", GENESIS_SENTINEL, 90.0)];
  }

  /** After C and D approve, both gain reputation once; A, who did not
      vote, keeps its initial reputation. */
  lemma ApprovalReputations(n: Names)
    requires n.WellFormed()
    ensures
      var after := UpdateReputations(Roster(n), [Vote(n.c, true, 50.0), Vote(n.d, true, 50.0)]);
      && Lookup(after, n.c) == Some(Full(50.0).(reputation := REPUTATION_INIT + 1))
      && Lookup(after, n.d) == Some(Full(50.0).(reputation := REPUTATION_INIT + 1))
      && Lookup(after, n.a) == Some(Full(5.0))
  {
    RosterLookups(n);
    var votes := [Vote(n.c, true, 50.0), Vote(n.d, true, 50.0)];
    assert votes[1..] == [Vote(n.d, true, 50.0)];
    assert ReputationDelta(votes, n.c) == 1;
    assert ReputationDelta(votes, n.d) == 1;
    assert ReputationDelta(votes, n.a) == 0;
  }

  /** C and D approve (100 >= 85.8): the engine reports the send confirmed,
      commits it to B's and A's chains and rewards exactly the two voters. */
  lemma EndToEnd(n: Names)
    requires n.WellFormed()
    ensures
      var v1 := ReceiveVote(Admitted(n), "t1", n.c, true);
      var v2 := ReceiveVote(v1.next, "t1", n.d, true);
      && v1.response == VoteReceived(50.0)
      && v2.response == Confirmed(Send(n))
      && v2.next.ledger == map[
           n.b := [TxBlock(Send(n))],
           n.a := [ReceiveBlock("t1_recv", "t1", GENESIS_SENTINEL, 90.0)]]
      && v2.next.nodes == UpdateReputations(Roster(n), [Vote(n.c, true, 50.0), Vote(n.d, true, 50.0)])
  {
    var v1 := ReceiveVote(Admitted(n), "t1", n.c, true);
    assert v1.response == VoteReceived(50.0) && v1.next.pools["t1"].votes == [Vote(n.c, true, 50.0)]
        && v1.next.nodes == Roster(n) && v1.next.ledger == map[] by {
      RosterLookups(n);
      YesVoteBelowThreshold(Admitted(n), "t1", n.c);
    }
    var v2 := ReceiveVote(v1.next, "t1", n.d, true);
    assert v2.next.pools["t1"].votes == [Vote(n.c, true, 50.0), Vote(n.d, true, 50.0)]
        && YesWeight(v2.next.pools["t1"].votes) == 100.0 by {
      RosterLookups(n);
      VoteAddsItsWeight(v1.next, "t1", n.d, true);
    }
    CommitOfSend(n);
  }

  /** A second send from B, again from the sentinel, with no receiver. */
  function SecondSend(n: Names): Transaction {
    Transaction("t2", "send", n.b, None, GENESIS_SENTINEL, 80.0, "sig")
  }

  /** While t1 is still pending, B's second send passes the same checks
      against the same (absent) head and is admitted as well; once both are
      confirmed, B's chain is no longer linked. */
  lemma DoubleAdmission(n: Names)
    requires n.WellFormed()
    ensures ProcessTransaction(Admitted(n), SecondSend(n), AcceptAll).response == Pending("t2")
    ensures AllLinked(Commit(map[], Send(n)))
    ensures !AllLinked(Commit(Commit(map[], Send(n)), SecondSend(n)))
  {
    assert GENESIS_SENTINEL != "t1";
    SameHeadProposalsBreakLinkage(map[], Send(n), SecondSend(n));
  }
}
