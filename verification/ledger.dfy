/** The ledger of ledger.py: one append-only chain of blocks per account, the
    last block being the account's head. A file that exists but holds no line
    is an account mapped to the empty chain. */
module Ledger {
  import opened Wrappers
  import opened Blocks

  type Accounts = map<Address, seq<Block>>

  /** Why a head lookup fails: no file for the account, or an empty file. */
  datatype LedgerError = AccountNotFound | NoBlocks

  /** The blocks recorded for `a`, empty when it has none. */
  function Chain(ledger: Accounts, a: Address): seq<Block> {
    if a in ledger then ledger[a] else []
  }

  /** The head of `a`'s chain: its last block. */
  function GetHeadBlock(ledger: Accounts, a: Address): (r: Result<Block, LedgerError>)
    ensures r.Failure? <==> |Chain(ledger, a)| == 0
    ensures a !in ledger ==> r == Failure(AccountNotFound)
    ensures a in ledger && |ledger[a]| == 0 ==> r == Failure(NoBlocks)
    ensures r.Success? ==> r.value == Chain(ledger, a)[|Chain(ledger, a)| - 1]
  {
    if a !in ledger then Failure(AccountNotFound)
    else if |ledger[a]| == 0 then Failure(NoBlocks)
    else Success(ledger[a][|ledger[a]| - 1])
  }

  /** Appends `b` to `a`'s chain, creating the account when it is absent. */
  function AppendBlock(ledger: Accounts, a: Address, b: Block): (r: Accounts)
    ensures r.Keys == ledger.Keys + {a}
    ensures Chain(ledger, a) <= Chain(r, a)
    ensures |Chain(r, a)| == |Chain(ledger, a)| + 1
    ensures GetHeadBlock(r, a) == Success(b)
    ensures GetBalance(r, a) == b.Balance()
    ensures forall x :: x != a ==> GetBalance(r, x) == GetBalance(ledger, x)
    ensures forall x :: x != a && x in ledger ==> r[x] == ledger[x]
  {
    ledger[a := Chain(ledger, a) + [b]]
  }

  /** The balance recorded on `a`'s head, or zero when there is no head. */
  function GetBalance(ledger: Accounts, a: Address): (r: real)
    ensures |Chain(ledger, a)| > 0 ==> r == Chain(ledger, a)[|Chain(ledger, a)| - 1].Balance()
    ensures |Chain(ledger, a)| == 0 ==> r == 0.0
  {
    match GetHeadBlock(ledger, a)
    case Success(head) => head.Balance()
    case Failure(_) => 0.0
  }

  /** The `previous` a block appended to `a` next must carry to keep the chain linked. */
  function HeadIdOrGenesis(ledger: Accounts, a: Address): BlockId {
    match GetHeadBlock(ledger, a)
    case Success(head) => head.Id()
    case Failure(_) => GENESIS_SENTINEL
  }

  /** Each block points at its predecessor, and the first at the sentinel. */
  ghost predicate Linked(chain: seq<Block>) {
    && (|chain| > 0 ==> chain[0].Previous() == GENESIS_SENTINEL)
    && forall k :: 0 < k < |chain| ==> chain[k].Previous() == chain[k - 1].Id()
  }

  ghost predicate AllLinked(ledger: Accounts) {
    forall a :: a in ledger ==> Linked(ledger[a])
  }

  /** Appending a block whose `previous` is the current head id (or the
      sentinel on an empty chain) keeps every chain linked; appending any
      other block breaks `a`'s chain. */
  lemma AppendKeepsLinked(ledger: Accounts, a: Address, b: Block)
    requires AllLinked(ledger)
    ensures AllLinked(AppendBlock(ledger, a, b)) <==> b.Previous() == HeadIdOrGenesis(ledger, a)
  {
    var r := AppendBlock(ledger, a, b);
    var c := Chain(ledger, a);
    assert r[a] == c + [b];
    assert Linked(c) by {
      if a in ledger {
        assert Linked(ledger[a]);
      }
    }
    if b.Previous() == HeadIdOrGenesis(ledger, a) {
      forall x | x in r
        ensures Linked(r[x])
      {
        if x != a {
          assert r[x] == ledger[x];
        } else {
          forall k | 0 < k < |r[a]|
            ensures r[a][k].Previous() == r[a][k - 1].Id()
          {
            if k < |c| {
              assert r[a][k] == c[k] && r[a][k - 1] == c[k - 1];
            }
          }
        }
      }
    } else {
      if |c| == 0 {
        assert r[a][0] == b;
      } else {
        assert r[a][|c|] == b && r[a][|c| - 1] == c[|c| - 1];
      }
      assert !Linked(r[a]);
    }
  }
}
