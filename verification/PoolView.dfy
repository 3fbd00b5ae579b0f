/** The explorer's picture of the transaction pool, and how the two callbacks of an update change it. */
module PoolView {
  import opened Bytes

  type Hash = seq<byte>

  datatype TransactionDetails = TransactionDetails(hash: Hash, content: seq<byte>)

  function ToSet(hashes: seq<Hash>): set<Hash> {
    set h | h in hashes
  }

  function HashesOf(txs: seq<TransactionDetails>): set<Hash> {
    set tx | tx in txs :: tx.hash
  }

  //////////////////////////////////////////////////////////////////////////////
  // The difference and its application
  //////////////////////////////////////////////////////////////////////////////

  /** The hashes of a list that are known, or that are not. */
  function Select(known: map<Hash, TransactionDetails>, hashes: seq<Hash>, wantKnown: bool): seq<Hash> {
    if hashes == [] then []
    else
      var rest := Select(known, hashes[..|hashes| - 1], wantKnown);
      var h := hashes[|hashes| - 1];
      if (h in known) == wantKnown then rest + [h] else rest
  }

  function Insert(known: map<Hash, TransactionDetails>, txs: seq<TransactionDetails>): map<Hash, TransactionDetails> {
    if txs == [] then known
    else
      var rest := Insert(known, txs[..|txs| - 1]);
      var tx := txs[|txs| - 1];
      if tx.hash in rest then rest else rest[tx.hash := tx]
  }

  lemma {:induction false} SelectSet(known: map<Hash, TransactionDetails>, hashes: seq<Hash>, wantKnown: bool)
    ensures ToSet(Select(known, hashes, wantKnown))
         == if wantKnown then ToSet(hashes) * known.Keys else ToSet(hashes) - known.Keys
  {
    if hashes != [] {
      var last := |hashes| - 1;
      SelectSet(known, hashes[..last], wantKnown);
      assert hashes == hashes[..last] + [hashes[last]];
      assert ToSet(hashes) == ToSet(hashes[..last]) + {hashes[last]};
      var rest := Select(known, hashes[..last], wantKnown);
      assert ToSet(rest + [hashes[last]]) == ToSet(rest) + {hashes[last]};
    }
  }

  /** Every hash is selected as often as it is listed, if it is selected at all. */
  lemma {:induction false} SelectCount(known: map<Hash, TransactionDetails>, hashes: seq<Hash>, wantKnown: bool, h: Hash)
    ensures multiset(Select(known, hashes, wantKnown))[h] == if (h in known) == wantKnown then multiset(hashes)[h] else 0
  {
    if hashes != [] {
      var last := |hashes| - 1;
      SelectCount(known, hashes[..last], wantKnown, h);
      assert hashes == hashes[..last] + [hashes[last]];
    }
  }

  /** Selection keeps the order of the list. */
  lemma {:induction false} SelectConcat(known: map<Hash, TransactionDetails>, a: seq<Hash>, b: seq<Hash>, wantKnown: bool)
    ensures Select(known, a + b, wantKnown) == Select(known, a, wantKnown) + Select(known, b, wantKnown)
    decreases |b|
  {
    if b == [] {
      assert a + b == a;
    } else {
      var last := |b| - 1;
      assert (a + b)[..|a + b| - 1] == a + b[..last];
      SelectConcat(known, a, b[..last], wantKnown);
    }
  }

  /** Of several transactions with one new hash the first is inserted. */
  lemma {:induction false} InsertFirst(known: map<Hash, TransactionDetails>, txs: seq<TransactionDetails>, k: nat)
    requires k < |txs| && txs[k].hash !in known
    requires forall j :: 0 <= j < k ==> txs[j].hash != txs[k].hash
    ensures txs[k].hash in Insert(known, txs) && Insert(known, txs)[txs[k].hash] == txs[k]
    decreases |txs|
  {
    var last := |txs| - 1;
    var front := txs[..last];
    if k < last {
      InsertFirst(known, front, k);
    } else {
      InsertKeys(known, front);
      assert txs[k].hash !in HashesOf(front);
    }
  }

  /** What was known stays as it was; everything listed becomes known. */
  lemma {:induction false} InsertKeys(known: map<Hash, TransactionDetails>, txs: seq<TransactionDetails>)
    ensures Insert(known, txs).Keys == known.Keys + HashesOf(txs)
    ensures forall h :: h in known ==> Insert(known, txs)[h] == known[h]
    ensures forall h :: h in Insert(known, txs) && h !in known ==>
      Insert(known, txs)[h] in txs && Insert(known, txs)[h].hash == h
  {
    if txs != [] {
      var last := |txs| - 1;
      InsertKeys(known, txs[..last]);
      assert txs == txs[..last] + [txs[last]];
      assert HashesOf(txs) == HashesOf(txs[..last]) + {txs[last].hash};
    }
  }

  /** The map the explorer keeps, with the loops of the two callbacks. */
  class KnownPool {
    var knownPoolState: map<Hash, TransactionDetails>

    constructor ()
      ensures knownPoolState == map[]
    {
      knownPoolState := map[];
    }

    /** The first callback: which transactions to ask for, and which are gone. */
    method Difference(added: seq<Hash>, removed: seq<Hash>) returns (wanted: seq<Hash>, gone: seq<Hash>)
      ensures wanted == Select(knownPoolState, added, false)
      ensures gone == Select(knownPoolState, removed, true)
      ensures ToSet(wanted) == ToSet(added) - knownPoolState.Keys
      ensures ToSet(gone) == ToSet(removed) * knownPoolState.Keys
    {
      wanted, gone := [], [];
      for i := 0 to |added|
        invariant wanted == Select(knownPoolState, added[..i], false)
      {
        assert added[..i + 1][..i] == added[..i];
        if added[i] !in knownPoolState {
          wanted := wanted + [added[i]];
        }
      }
      for i := 0 to |removed|
        invariant gone == Select(knownPoolState, removed[..i], true)
      {
        assert removed[..i + 1][..i] == removed[..i];
        if removed[i] in knownPoolState {
          gone := gone + [removed[i]];
        }
      }
      assert added[..|added|] == added && removed[..|removed|] == removed;
      SelectSet(knownPoolState, added, false);
      SelectSet(knownPoolState, removed, true);
    }

    /** The second callback: insert what is new, then erase what is gone. */
    method Update(txs: seq<TransactionDetails>, gone: seq<Hash>)
      modifies this
      ensures knownPoolState == Insert(old(knownPoolState), txs) - ToSet(gone)
      ensures knownPoolState.Keys == old(knownPoolState).Keys + HashesOf(txs) - ToSet(gone)
    {
      for i := 0 to |txs|
        invariant knownPoolState == Insert(old(knownPoolState), txs[..i])
      {
        assert txs[..i + 1][..i] == txs[..i];
        if txs[i].hash !in knownPoolState {
          knownPoolState := knownPoolState[txs[i].hash := txs[i]];
        }
      }
      assert txs[..|txs|] == txs;
      ghost var inserted := knownPoolState;
      for i := 0 to |gone|
        invariant knownPoolState == inserted - ToSet(gone[..i])
      {
        assert ToSet(gone[..i + 1]) == ToSet(gone[..i]) + {gone[i]};
        if gone[i] in knownPoolState {
          knownPoolState := knownPoolState - {gone[i]};
        }
      }
      assert gone[..|gone|] == gone;
      InsertKeys(old(knownPoolState), txs);
    }
  }

  /** The map's keys after the second callback are the pool the node answered from. */
  lemma Applied(known: map<Hash, TransactionDetails>, txs: seq<TransactionDetails>, gone: seq<Hash>, snapshot: set<Hash>)
    requires HashesOf(txs) == snapshot - known.Keys && ToSet(gone) == known.Keys - snapshot
    ensures (Insert(known, txs) - ToSet(gone)).Keys == snapshot
  {
    hide HashesOf, ToSet, Insert;
    InsertKeys(known, txs);
  }
}
