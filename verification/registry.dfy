/** The node registry of node.py (`connected_nodes`). The source keeps it in a
    dictionary, whose entries stay in insertion order and are overwritten in
    place; the model keeps the same shape as a list of entries. */
module NodeRegistry {
  import opened Wrappers
  import opened Config
  import opened Blocks

  datatype NodeRecord = NodeRecord(isFull: bool, weight: real, reputation: int, publicKey: Option<string>)

  datatype Entry = Entry(address: Address, record: NodeRecord)

  type Registry = seq<Entry>

  /** The registered addresses, in registration order. */
  function Addresses(reg: Registry): (r: seq<Address>)
    ensures |r| == |reg|
    ensures forall i :: 0 <= i < |reg| ==> r[i] == reg[i].address
  {
    if |reg| == 0 then [] else [reg[0].address] + Addresses(reg[1..])
  }

  /** No address is registered twice, as with dictionary keys. */
  ghost predicate Distinct(reg: Registry) {
    forall i, j :: 0 <= i < j < |reg| ==> reg[i].address != reg[j].address
  }

  /** The record registered for `a`, if any: the dictionary `.get`. */
  function Lookup(reg: Registry, a: Address): Option<NodeRecord> {
    if |reg| == 0 then None
    else if reg[0].address == a then Some(reg[0].record)
    else Lookup(reg[1..], a)
  }

  /** An address has a record exactly when it is registered, and the record
      found is the one stored beside it. */
  lemma {:induction false} LookupFindsEntry(reg: Registry, a: Address)
    ensures Lookup(reg, a).Some? <==> a in Addresses(reg)
    ensures Lookup(reg, a).Some? ==> Entry(a, Lookup(reg, a).value) in reg
  {
    if |reg| > 0 {
      LookupFindsEntry(reg[1..], a);
      assert Addresses(reg) == [reg[0].address] + Addresses(reg[1..]);
    }
  }

  /** How lookups and addresses see an entry put in front of a registry. */
  lemma ConsFacts(e: Entry, rest: Registry)
    ensures ([e] + rest)[1..] == rest
    ensures Addresses([e] + rest) == [e.address] + Addresses(rest)
    ensures forall b :: Lookup([e] + rest, b) == if e.address == b then Some(e.record) else Lookup(rest, b)
  {
    assert ([e] + rest)[1..] == rest;
  }

  /** In a registry without repeated addresses, looking up the address of
      any entry finds that entry's record. */
  lemma {:induction false} LookupAt(reg: Registry, i: nat)
    requires Distinct(reg) && i < |reg|
    ensures Lookup(reg, reg[i].address) == Some(reg[i].record)
  {
    if i > 0 {
      assert reg[0].address != reg[i].address;
      assert Distinct(reg[1..]) by {
        forall j, k | 0 <= j < k < |reg[1..]|
          ensures reg[1..][j].address != reg[1..][k].address
        {
          assert reg[1..][j] == reg[j + 1] && reg[1..][k] == reg[k + 1];
        }
      }
      LookupAt(reg[1..], i - 1);
    }
  }

  /** Inserts or overwrites the record for `a`; the reputation always starts
      over at REPUTATION_INIT. A new address is added at the end. */
  function Register(reg: Registry, a: Address, isFull: bool := true, weight: real := 0.0, publicKey: Option<string> := None): (r: Registry)
    ensures Lookup(r, a) == Some(NodeRecord(isFull, weight, REPUTATION_INIT, publicKey))
    ensures forall b :: b != a ==> Lookup(r, b) == Lookup(reg, b)
    ensures Addresses(r) == if Lookup(reg, a).Some? then Addresses(reg) else Addresses(reg) + [a]
  {
    var created := Entry(a, NodeRecord(isFull, weight, REPUTATION_INIT, publicKey));
    if |reg| == 0 then [created]
    else if reg[0].address == a then [created] + reg[1..]
    else
      var rest := Register(reg[1..], a, isFull, weight, publicKey);
      ConsFacts(reg[0], rest);
      ConsFacts(reg[0], reg[1..]);
      [reg[0]] + rest
  }

  /** Registering a new address appends its entry and leaves the others as
      they were. */
  lemma {:induction false} RegisterAppendsNew(reg: Registry, a: Address, isFull: bool, weight: real, publicKey: Option<string>)
    requires Lookup(reg, a).None?
    ensures Register(reg, a, isFull, weight, publicKey) == reg + [Entry(a, NodeRecord(isFull, weight, REPUTATION_INIT, publicKey))]
  {
    if |reg| > 0 {
      var created := Entry(a, NodeRecord(isFull, weight, REPUTATION_INIT, publicKey));
      RegisterAppendsNew(reg[1..], a, isFull, weight, publicKey);
      assert [reg[0]] + (reg[1..] + [created]) == reg + [created];
    }
  }

  /** Re-registering a known address overwrites its entry where it stands,
      leaving every other entry and the order as they were. */
  lemma {:induction false} RegisterReplacesInPlace(reg: Registry, a: Address, isFull: bool, weight: real, publicKey: Option<string>)
    requires Lookup(reg, a).Some?
    ensures exists i :: (0 <= i < |reg| && reg[i].address == a &&
      Register(reg, a, isFull, weight, publicKey) == reg[i := Entry(a, NodeRecord(isFull, weight, REPUTATION_INIT, publicKey))])
  {
    var created := Entry(a, NodeRecord(isFull, weight, REPUTATION_INIT, publicKey));
    if reg[0].address == a {
      assert Register(reg, a, isFull, weight, publicKey) == reg[0 := created];
      assert reg[0].address == a;
    } else {
      RegisterReplacesInPlace(reg[1..], a, isFull, weight, publicKey);
      var rest := Register(reg[1..], a, isFull, weight, publicKey);
      var i :| 0 <= i < |reg[1..]| && reg[1..][i].address == a && rest == reg[1..][i := created];
      assert Register(reg, a, isFull, weight, publicKey) == reg[i + 1 := created] by {
        assert Register(reg, a, isFull, weight, publicKey) == [reg[0]] + rest;
        ConsUpdate(reg, i, created);
      }
      assert reg[i + 1].address == a;
    }
  }

  lemma ConsUpdate(reg: Registry, i: nat, e: Entry)
    requires i + 1 < |reg|
    ensures [reg[0]] + reg[1..][i := e] == reg[i + 1 := e]
  {
    var r, target := [reg[0]] + reg[1..][i := e], reg[i + 1 := e];
    forall k | 0 <= k < |reg|
      ensures r[k] == target[k]
    {
      if k > 0 {
        assert r[k] == reg[1..][i := e][k - 1];
      }
    }
  }

  /** Re-registering never creates a second entry for an address. */
  lemma RegisterKeepsDistinct(reg: Registry, a: Address, isFull: bool, weight: real, publicKey: Option<string>)
    requires Distinct(reg)
    ensures Distinct(Register(reg, a, isFull, weight, publicKey))
  {
    var r := Register(reg, a, isFull, weight, publicKey);
    var before, after := Addresses(reg), Addresses(r);
    forall i, j | 0 <= i < j < |r|
      ensures r[i].address != r[j].address
    {
      assert after[i] == r[i].address && after[j] == r[j].address;
      if j < |reg| {
        assert before[i] == reg[i].address && before[j] == reg[j].address;
      } else {
        LookupFindsEntry(reg, a);
        assert after[j] == a && a !in before;
        assert before[i] == reg[i].address;
      }
    }
  }

  /** The change a vote outcome makes to a reputation: a reward raises it,
      a penalty lowers it. */
  function ReputationChange(correct: bool): (d: int)
    ensures d > 0 <==> correct
    ensures d < 0 <==> !correct
  {
    if correct then REPUTATION_INCREMENT else -REPUTATION_PENALTY
  }

  /** Rewards (`correct`) or penalises the node at `a`; unknown addresses are
      ignored and no field other than the reputation changes. */
  function UpdateReputation(reg: Registry, a: Address, correct: bool := true): (r: Registry)
    ensures Addresses(r) == Addresses(reg)
    ensures Lookup(reg, a).None? ==> r == reg
    ensures Lookup(reg, a).Some? ==>
      var before := Lookup(reg, a).value;
      Lookup(r, a) == Some(before.(reputation := before.reputation + ReputationChange(correct)))
    ensures forall b :: b != a ==> Lookup(r, b) == Lookup(reg, b)
  {
    if |reg| == 0 then reg
    else if reg[0].address == a then
      var rec := reg[0].record;
      [Entry(a, rec.(reputation := rec.reputation + ReputationChange(correct)))] + reg[1..]
    else
      var rest := UpdateReputation(reg[1..], a, correct);
      ConsFacts(reg[0], rest);
      ConsFacts(reg[0], reg[1..]);
      [reg[0]] + rest
  }

  /** The weight registered for `a`, whether or not it is a full node; zero
      for an unknown address. */
  function VotingWeight(reg: Registry, a: Address): (w: real)
    ensures a !in Addresses(reg) ==> w == 0.0
    ensures Lookup(reg, a).Some? ==> w == Lookup(reg, a).value.weight
  {
    LookupFindsEntry(reg, a);
    match Lookup(reg, a)
    case Some(rec) => rec.weight
    case None => 0.0
  }

  /** Whether `a` is registered as a full node; false when unknown. */
  function IsFullNode(reg: Registry, a: Address): (full: bool)
    ensures full <==> Lookup(reg, a).Some? && Lookup(reg, a).value.isFull
    ensures a !in Addresses(reg) ==> !full
  {
    LookupFindsEntry(reg, a);
    match Lookup(reg, a)
    case Some(rec) => rec.isFull
    case None => false
  }

  /** The weight a record contributes to the total: zero unless full. */
  function FullWeight(rec: NodeRecord): real {
    if rec.isFull then rec.weight else 0.0
  }

  /** Every registered node is a light node. */
  predicate NoFullNodes(reg: Registry) {
    forall i :: 0 <= i < |reg| ==> !reg[i].record.isFull
  }

  /** No registered node carries a negative weight. */
  predicate NoNegativeWeights(reg: Registry) {
    forall i :: 0 <= i < |reg| ==> reg[i].record.weight >= 0.0
  }

  /** The sum of the weights of all full nodes. What it adds up is stated by
      the lemmas below rather than here, so that the lemmas about registry
      updates do not carry it along. */
  function TotalFullWeight(reg: Registry): real {
    if |reg| == 0 then 0.0 else FullWeight(reg[0].record) + TotalFullWeight(reg[1..])
  }

  /** Light nodes add nothing to the total, and with no negative weight
      registered the total is not negative. */
  lemma {:induction false} TotalFullWeightBounds(reg: Registry)
    ensures NoFullNodes(reg) ==> TotalFullWeight(reg) == 0.0
    ensures NoNegativeWeights(reg) ==> TotalFullWeight(reg) >= 0.0
  {
    if |reg| > 0 {
      assert NoFullNodes(reg) ==> NoFullNodes(reg[1..]) by {
        if NoFullNodes(reg) {
          forall i | 0 <= i < |reg[1..]| ensures !reg[1..][i].record.isFull {
            assert reg[1..][i] == reg[i + 1];
          }
        }
      }
      assert NoNegativeWeights(reg) ==> NoNegativeWeights(reg[1..]) by {
        if NoNegativeWeights(reg) {
          forall i | 0 <= i < |reg[1..]| ensures reg[1..][i].record.weight >= 0.0 {
            assert reg[1..][i] == reg[i + 1];
          }
        }
      }
      TotalFullWeightBounds(reg[1..]);
    }
  }

  /** The total summed in registration order: a node registered last adds
      its full weight on top of everyone before it. */
  lemma {:induction false} TotalFullWeightAppend(reg: Registry, e: Entry)
    ensures TotalFullWeight(reg + [e]) == TotalFullWeight(reg) + FullWeight(e.record)
  {
    if |reg| > 0 {
      assert (reg + [e])[1..] == reg[1..] + [e];
      TotalFullWeightAppend(reg[1..], e);
    }
  }

  /** Reputation updates leave the total full weight, and so every later
      threshold, unchanged. */
  lemma {:induction false} UpdateReputationKeepsTotalFullWeight(reg: Registry, a: Address, correct: bool)
    ensures TotalFullWeight(UpdateReputation(reg, a, correct)) == TotalFullWeight(reg)
  {
    if |reg| > 0 && reg[0].address != a {
      var r := UpdateReputation(reg, a, correct);
      assert r[0] == reg[0] && r[1..] == UpdateReputation(reg[1..], a, correct);
      UpdateReputationKeepsTotalFullWeight(reg[1..], a, correct);
    }
  }

  /** Registering `a` replaces the contribution of its old record (if any)
      by that of the new one. */
  lemma {:induction false} RegisterTotalFullWeight(reg: Registry, a: Address, isFull: bool, weight: real, publicKey: Option<string>)
    requires Distinct(reg)
    ensures
      var prior := if Lookup(reg, a).Some? then FullWeight(Lookup(reg, a).value) else 0.0;
      TotalFullWeight(Register(reg, a, isFull, weight, publicKey))
        == TotalFullWeight(reg) - prior + (if isFull then weight else 0.0)
  {
    if |reg| == 0 {
    } else if reg[0].address == a {
      LookupFindsEntry(reg[1..], a);
      assert a !in Addresses(reg[1..]) by {
        forall i | 0 <= i < |reg[1..]|
          ensures Addresses(reg[1..])[i] != a
        {
          assert reg[1..][i] == reg[i + 1];
        }
      }
      var r := Register(reg, a, isFull, weight, publicKey);
      assert r[1..] == reg[1..];
    } else {
      var r := Register(reg, a, isFull, weight, publicKey);
      assert r[0] == reg[0] && r[1..] == Register(reg[1..], a, isFull, weight, publicKey);
      assert Distinct(reg[1..]) by {
        forall i, j | 0 <= i < j < |reg[1..]|
          ensures reg[1..][i].address != reg[1..][j].address
        {
          assert reg[1..][i] == reg[i + 1] && reg[1..][j] == reg[j + 1];
        }
      }
      RegisterTotalFullWeight(reg[1..], a, isFull, weight, publicKey);
    }
  }
}
