# Weighted-vote ledger node: consensus core in Dafny

This project models the consensus state machine of a minimal account-based
ledger node (`node.py`) together with the ledger it writes to (`ledger.py`),
and proves properties of that model.

The node keeps three pieces of state, modelled as one immutable `State`:

- the **node registry** (`connected_nodes`): address → full/light flag,
  voting weight, reputation, public key. It is a list of entries in
  registration order, which is how the source's dictionary behaves: a new
  address is added at the end and re-registration overwrites in place;
- the **vote pools** (`vote_pool`): transaction id → recorded votes,
  threshold, confirmed flag, transaction;
- the **ledger**: account → append-only sequence of blocks, the last being
  the head. A block is either a confirmed transaction stored verbatim or
  the receive block synthesised for its receiver.

`process_transaction` and `receive_vote` are total functions
`State × input → (response, State)`. Each call runs to completion, as
one atomic step. The signature check is a function parameter `verify`.
Broadcasts to peers become events appended to an `outbox`. Weights and
balances are exact `real` numbers. Module layout: `Wrappers`, `Config`
(the constants of config.py), `Blocks`, `Ledger`, `NodeRegistry`,
`Consensus`, `Invariants` (properties of runs), `Scenario` (concrete runs
on the five-node example network with weights 5, 5, 50, 50, 20).

Behaviour the model makes explicit, all following the code as written:

- `process_transaction` checks a proposal against the sender's head but
  leaves the ledger alone until the transaction is confirmed. A second
  proposal against the same head is therefore admitted too, even when calls
  run one at a time. Once both are confirmed, the sender's chain is no
  longer linked (`Invariants.SameHeadProposalsBreakLinkage`,
  `Scenario.DoubleAdmission`). The chain stays linked on every confirmation
  whose transaction still points at the sender's head
  (`Invariants.ReceiveVoteKeepsLinked`).
- Votes are not de-duplicated. A full node that votes twice has its weight
  counted twice (`Scenario.NinetyConfirms`), and its reputation adjusted
  twice on confirmation.
- Admitting a transaction replaces any pool with the same id, including a
  confirmed one.
- The receiver's head is read after the sender's block has been appended.
  In a send to oneself, the receive block therefore points at the
  transaction itself and carries twice its balance (`Consensus.Commit`).
- `get_voting_weight` returns the registered weight for light nodes too. It
  returns 0 only for unknown addresses. Voting is still limited to full
  nodes by `is_full_node`.
- The rejection for a first block that does not point at the sentinel is
  named `InvalidOpen` after the code's "invalid open".

## Model

| member | source | states |
|---|---|---|
| Ledger.GetHeadBlock | ledger.py:13-21 | fails with AccountNotFound for an account with no chain and NoBlocks for an empty chain; otherwise returns the chain's last block; fails exactly when the chain is empty |
| Ledger.AppendBlock | ledger.py:23-26 | the account exists afterwards and its new chain is the old one plus the block: the old chain is a prefix, the length grows by one, the head is the new block and the account's balance is the block's balance; every other account, and its balance, is untouched |
| Ledger.GetBalance | ledger.py:28-33 | the balance of the last block of the account's chain, and 0.0 when the chain is empty or the account has none |
| Ledger.AppendKeepsLinked | ledger.py:23-26 | on a ledger whose chains are all linked, an append keeps them linked if and only if the block's previous is the current head id (the sentinel on an empty chain) |
| NodeRegistry.LookupFindsEntry | node.py:29-33 | the contract of `Lookup`, the dictionary `.get` of `get_voting_weight` and `is_full_node`: an address has a record exactly when it is registered, and the record found is the one stored with it |
| NodeRegistry.LookupAt | node.py:29-33 | with no repeated addresses, looking up any entry's address returns that entry's record |
| NodeRegistry.Register | node.py:14-20 | afterwards the address maps to the given flag, weight and key with reputation REPUTATION_INIT; every other address's record is unchanged; the address order is kept, a new address is added at the end |
| NodeRegistry.RegisterAppendsNew | node.py:14-20 | registering an unknown address appends exactly its entry |
| NodeRegistry.RegisterReplacesInPlace | node.py:14-20 | re-registering a known address overwrites its entry at the same position and nothing else |
| NodeRegistry.RegisterKeepsDistinct | node.py:14-20 | registration never produces two entries for one address |
| NodeRegistry.UpdateReputation | node.py:22-27 | a known node's reputation rises by REPUTATION_INCREMENT when correct, else falls by REPUTATION_PENALTY, with no other field changed; an unknown address leaves the registry identical; other nodes and the order are unchanged |
| NodeRegistry.ReputationChange | node.py:24-27 | a correct outcome raises the reputation and an incorrect one lowers it; it is never left unchanged |
| NodeRegistry.VotingWeight | node.py:29-30 | 0.0 for an unregistered address, otherwise the registered weight |
| NodeRegistry.IsFullNode | node.py:32-33 | true exactly for a registered node whose flag is full; false for an unregistered address |
| NodeRegistry.TotalFullWeightBounds | node.py:58 | the total that TotalFullWeight sums for the threshold counts light nodes as nothing: a registry without full nodes totals 0.0; with no negative weight registered the total is not negative |
| NodeRegistry.TotalFullWeightAppend | node.py:58 | the total is summed in registration order: a node added last contributes its weight if it is full and nothing otherwise |
| NodeRegistry.UpdateReputationKeepsTotalFullWeight | node.py:22-27 | a reputation update leaves the total full-node weight unchanged |
| NodeRegistry.RegisterTotalFullWeight | node.py:58-59 | registering replaces the old record's full weight in the total by the new one's |
| Consensus.ProcessTransaction | node.py:36-65 | rejects with invalid signature, invalid previous (head exists, previous is not its id), overspend (balance above the head's), invalid open (no head, previous is not the sentinel); a rejection changes no state; it is pending exactly when none applies, and then it opens a pool with no votes, not confirmed, holding the tx, threshold CONSENSUS_THRESHOLD times the total full weight; it returns the tx id, leaves ledger and registry alone and broadcasts the tx |
| Consensus.ReasonsDistinct | node.py:44-72 | the reason strings "invalid signature", "invalid previous", "overspend", "invalid open" and "not eligible to vote" of the source, plus the model's own "unknown transaction" for a vote on a transaction with no pool (a KeyError in the source), are pairwise different |
| Consensus.CheckHistory | node.py:47-55 | passes exactly when the previous is the head id (the sentinel when the account has no block) and, when there is a head, the balance does not exceed the head's; with a head, invalid previous exactly when the previous is not the head id, and overspend exactly when the previous is right but the balance exceeds the head's (the link is checked first); invalid open exactly for a non-sentinel previous on an empty chain |
| Consensus.YesWeightAppend | node.py:75-78 | a new vote adds its weight to the yes tally exactly when it is a yes |
| Consensus.YesWeight | node.py:78 | no-votes add nothing, so a pool of no-votes tallies 0.0; with no negative weight the tally is not negative |
| Consensus.ReputationDelta | node.py:111-113 | an address with no recorded vote has its reputation changed by zero |
| Consensus.UpdateReputations | node.py:111-113 | every registered node's reputation changes by the net effect of its recorded votes and nothing else changes; the address list is unchanged and unknown addresses stay unknown |
| Consensus.Commit | node.py:80-106 | the sender's chain gains exactly the tx; a named receiver's chain gains a block with id tx.id + "_recv", source tx.id, previous the receiver's old head id or the sentinel, balance the receiver's old balance plus tx.balance; a self-send gains both blocks; every other account is unchanged |
| Consensus.ReceiveFor | node.py:88-104 | the receive block of a tx with a receiver: a receive block sourced at the tx, named tx.id + "_recv", pointing at the receiver's head id (the sentinel when it has none) and carrying the receiver's balance plus the tx balance |
| Consensus.ReceiveVote | node.py:68-121 | a non-full or unknown voter is rejected as not eligible and nothing changes; an eligible vote is appended to the pool even when confirmed; threshold and tx stay fixed; confirmed never goes back; the response is confirmed exactly on the false-to-true transition, which happens when the yes tally reaches the threshold; only then are the ledger committed and the voters' reputations updated; otherwise it reports the yes tally and leaves ledger and registry unchanged; each eligible vote is broadcast |
| Invariants.CommitKeepsLinked | node.py:84-106 | committing keeps every chain linked if and only if the tx still points at its sender's current head |
| Invariants.ReceiveVoteKeepsLinked | node.py:79-106 | a vote that does not confirm keeps the ledger linked; a confirming vote keeps it linked if and only if the tx points at the sender's head at that moment |
| Invariants.SameHeadProposalsBreakLinkage | node.py:47-60 | two transactions admitted against the same head of one account break that account's chain once both are committed, provided the first commit moves the head to an id the second does not point at: the first transaction's id, or its receive block's id when it is a send to oneself |
| Invariants.VotesCommitAtMostOnce | node.py:75-113 | over any sequence of votes on one pool, its tx and threshold are kept and confirmed is never undone; the ledger ends either unchanged or with exactly one commit of the tx, and it is the commit exactly when this run confirmed the pool; a pool already confirmed freezes ledger and registry |
| Invariants.UpdateReputationsKeepsTotalFullWeight | node.py:111-113 | reputation feedback on confirmation does not move the total full weight, so later thresholds are unaffected |
| Invariants.VoteAddsItsWeight | node.py:74-78 | after an eligible vote, the pool's yes tally is the old tally plus the voter's weight if the vote is yes |
| Scenario.RegistrationBuildsRoster | node.py:14-20 | registering the five example nodes one after the other yields them in registration order with reputation 10 |
| Scenario.RosterLookups | node.py:29-33 | the example nodes are found with their weights 5, 50, 50, 20 |
| Scenario.RosterWeight | node.py:58 | the example network's total full weight is 130 |
| Scenario.StrangerCannotVote | node.py:71-72 | an address outside the example network is not a full node |
| Scenario.Proposal | node.py:47-65 | B's first send from the sentinel is admitted with threshold 0.66 × 130 = 85.8 |
| Scenario.YesVoteBelowThreshold | node.py:71-79 | a yes-vote from any full node on an unconfirmed pool, when the tally plus the voter's weight stays below the threshold, only records the vote and reports the new tally; ledger and registry are unchanged |
| Scenario.FiftyFiveStaysPending | node.py:78-79 | yes-votes of 5 and 50 report tallies 5 and 55, leave the pool unconfirmed and the ledger empty |
| Scenario.NinetyConfirms | node.py:75-79 | yes-votes of 50, 20 and 20 (the last a repeat) report 70 and then confirm at 90 |
| Scenario.CommitOfSend | node.py:84-106 | committing B's send to an empty ledger gives B the send and A a receive block t1_recv crediting 90 from the sentinel |
| Scenario.ApprovalReputations | node.py:111-113 | after C and D approve, each gains one reputation point and A keeps 10 |
| Scenario.EndToEnd | node.py:68-117 | C's yes (50) is recorded, D's yes (100 ≥ 85.8) confirms the send, the ledger then holds exactly B's send and A's receive block, and the registry is the reputation-updated one |
| Scenario.DoubleAdmission | node.py:47-60 | a second send from B against the same absent head is admitted while the first is pending; after both commit, B's chain is not linked |

## Left out

- Signature checking (crypto_utils.py: Ed25519 signing and verification) is the parameter `verify` of `Consensus.ProcessTransaction`; canonical encoding and key handling are not modelled.
- network.py (websocket handshake, RSA/AES envelopes, peer table, broadcast loops) is I/O; `broadcast_transaction` and `broadcast_vote` are modelled only as events appended to the state's outbox.
- The asynchronous interleaving of calls and the per-account race it allows: each call is one atomic step.
- File and JSON persistence in ledger.py (directory creation, one JSON line per block, `get_account_file_path`, `get_all_accounts`): the ledger is a map from account to block sequence, and a file that exists but is empty is an account mapped to the empty sequence.
- Parsing balances from decimal strings with `float` and writing the receive balance back with `str`: balances and weights are exact reals, and the failures these conversions could raise are not modelled.
- Transactions are typed records with every field present; a dictionary missing a field (a KeyError in the source) is not modelled, and `timestamp_submitted` is dropped. A vote on an unknown transaction id, which raises a KeyError in the source, is the explicit rejection `UnknownTransaction` and changes nothing.
- Exceptions from the signature check, the ledger appends and the broadcasts: in the model these calls never fail. In the source, `verify_signature` can raise on a malformed address or signature (crypto_utils.py:31-34) before any rejection is returned. A failing `broadcast_transaction` raises after the pool has been written (node.py:60-63). A failing receiver append leaves the sender's block written and the pool unconfirmed (node.py:85-109), so the next crossing vote would append the sender's block again.
- The vote flag is a boolean, so the source's `voted_yes is True` test is plain truth.
- Demo and benchmark scripts (cli.py, run.py, simulate_network.py, performance_test.py, print_ledger.py).
