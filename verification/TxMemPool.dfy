/** The memory pool object: transactions by hash, who spends which output, the total size, and the ordered hash list. */
module TxMemPool {
  import opened Basics
  import opened MemPool
  import FeeEstimator
  import HashList

  /** What the chain knows of a transaction's outputs. */
  datatype Coins = NoCoins | Coins(isCoinBase: bool, nHeight: nat)

  /** Missing, or a coinbase younger than the maturity: heights are 32-bit unsigned and subtract modulo 2^32. */
  predicate Unspendable(c: Coins, nMemPoolHeight: nat, maturity: nat) {
    c.NoCoins? || (c.isCoinBase && (nMemPoolHeight - c.nHeight) % 0x1_0000_0000 < maturity)
  }

  /** Missing coins are never spendable, others than a coinbase's always, and a coinbase's from its height plus the maturity on. */
  lemma SpendableFrom(c: Coins, nMemPoolHeight: nat, maturity: nat)
    ensures c.NoCoins? ==> Unspendable(c, nMemPoolHeight, maturity)
    ensures c.Coins? && !c.isCoinBase ==> !Unspendable(c, nMemPoolHeight, maturity)
    ensures c.Coins? && c.isCoinBase && c.nHeight <= nMemPoolHeight < 0x1_0000_0000 ==>
              (!Unspendable(c, nMemPoolHeight, maturity) <==> nMemPoolHeight >= c.nHeight + maturity)
  {
  }

  /** An input from outside the pool that cannot be spent any more. */
  predicate HasBadInput(txs: Txs, tx: Tx, coins: Hash -> Coins, nMemPoolHeight: nat, maturity: nat) {
    exists i :: 0 <= i < |tx.vin| && tx.vin[i].hash !in txs && Unspendable(coins(tx.vin[i].hash), nMemPoolHeight, maturity)
  }

  ghost function BadInputs(txs: Txs, coins: Hash -> Coins, nMemPoolHeight: nat, maturity: nat): set<Hash> {
    set h | h in txs && HasBadInput(txs, txs[h].tx, coins, nMemPoolHeight, maturity)
  }

  // ---------------------------------------------------------------- removal, on values

  /** Progress of the removal worklist: R is gone, Q is still to be looked at. */
  ghost predicate Removing(txs: Txs, roots: set<Hash>, R: set<Hash>, Q: seq<Hash>) {
    && R <= txs.Keys
    && (forall h :: h in roots && h in txs ==> h in R || h in Q)
    && (forall p, c :: p in R && c in txs && Spends(txs[c].tx, txs[p].tx) ==> c in R || c in Q)
    && (forall C :: Closed(txs, C) && roots * txs.Keys <= C ==> R <= C && forall h :: h in Q && h in txs ==> h in C)
  }

  lemma RemovingDone(txs: Txs, roots: set<Hash>, R: set<Hash>)
    requires Removing(txs, roots, R, [])
    ensures IsClosure(txs, roots, R)
  {
  }

  lemma RemovingSkip(txs: Txs, roots: set<Hash>, R: set<Hash>, Q: seq<Hash>)
    requires Removing(txs, roots, R, Q) && Q != [] && (Q[0] !in txs || Q[0] in R)
    ensures Removing(txs, roots, R, Q[1..])
  {
    assert forall h :: h in Q ==> h == Q[0] || h in Q[1..];
  }

  lemma RemovingStep(p: Pool, roots: set<Hash>, R: set<Hash>, Q: seq<Hash>, more: seq<Hash>)
    requires Consistent(p) && Removing(p.txs, roots, R, Q) && Q != [] && Q[0] in p.txs && Q[0] !in R
    requires forall c :: c in more <==> c in p.txs && c !in R && Spends(p.txs[c].tx, p.txs[Q[0]].tx)
    ensures Removing(p.txs, roots, R + {Q[0]}, Q[1..] + more)
  {
    var R', Q' := R + {Q[0]}, Q[1..] + more;
    assert forall h :: h in Q ==> h == Q[0] || h in Q[1..];
    assert forall h :: h in Q' <==> h in Q[1..] || h in more;
    forall C | Closed(p.txs, C) && roots * p.txs.Keys <= C
      ensures R' <= C && forall h :: h in Q' && h in p.txs ==> h in C
    {
      assert Q[0] in C;
    }
  }

  /** The transactions appended to a list of removed ones: each of R once. */
  ghost predicate Lists(txs: Txs, R: set<Hash>, added: seq<Tx>) {
    && R <= txs.Keys
    && |added| == |R|
    && (forall i :: 0 <= i < |added| ==> added[i].hash in R && added[i] == txs[added[i].hash].tx)
    && forall h :: h in R ==> exists i :: 0 <= i < |added| && added[i].hash == h
  }

  lemma ListsNone(txs: Txs)
    ensures Lists(txs, {}, [])
  {
  }

  lemma ListsAppend(txs: Txs, R: set<Hash>, added: seq<Tx>, S: set<Hash>, more: seq<Tx>)
    requires Lists(txs, R, added) && KeyedByHash(txs)
    requires S !! R && Lists(txs - R, S, more)
    ensures Lists(txs, R + S, added + more)
  {
    var l := added + more;
    assert |R + S| == |R| + |S|;
    forall i | 0 <= i < |l| ensures l[i].hash in R + S && l[i] == txs[l[i].hash].tx {
      if i >= |added| {
        assert l[i] == more[i - |added|];
      }
    }
    forall h | h in R + S ensures exists i :: 0 <= i < |l| && l[i].hash == h {
      if h in R {
        var i :| 0 <= i < |added| && added[i].hash == h;
        assert l[i].hash == h;
      } else {
        var i :| 0 <= i < |more| && more[i].hash == h;
        assert l[|added| + i].hash == h;
      }
    }
  }

  lemma ListsOne(txs: Txs, h: Hash)
    requires h in txs && KeyedByHash(txs)
    ensures Lists(txs, {h}, [txs[h].tx])
  {
    assert [txs[h].tx][0].hash == h;
  }

  // ---------------------------------------------------------------- the object

  class TransactionPool {
    var mapTx: map<Hash, Entry>
    var mapNextTx: map<OutPoint, InPoint>
    var totalTxSize: int
    var nTransactionsUpdated: nat
    var hashList: seq<Hash>
    var hashListPos: nat
    var hashSendStop: Hash
    const minRelayFee: int
    const minerPolicyEstimator: FeeEstimator.MinerPolicyEstimator

    ghost function View(): Pool
      reads this
    {
      Pool(mapTx, mapNextTx, totalTxSize)
    }

    constructor (minRelayFee: int)
      ensures this.minRelayFee == minRelayFee && fresh(minerPolicyEstimator)
      ensures minerPolicyEstimator.Valid() && |minerPolicyEstimator.history| == 25
      ensures Consistent(View()) && OutputsExist(mapTx) && mapTx == map[] && hashList == [] && hashListPos == 0 && hashSendStop == 0
    {
      mapTx, mapNextTx, totalTxSize, nTransactionsUpdated := map[], map[], 0, 0;
      hashList, hashListPos, hashSendStop := [], 0, 0;
      this.minRelayFee := minRelayFee;
      minerPolicyEstimator := new FeeEstimator.MinerPolicyEstimator(25);
    }

    /** Append the spenders of a transaction's outputs, as the records name them. */
    method Spenders(hash: Hash, nOut: nat) returns (found: seq<Hash>)
      ensures forall c :: c in found <==> RecordedSpender(mapNextTx, hash, nOut, c)
    {
      found := [];
      for i := 0 to nOut
        invariant forall c :: c in found <==> RecordedSpender(mapNextTx, hash, i, c)
      {
        ghost var was := found;
        if OutPoint(hash, i) in mapNextTx {
          found := found + [mapNextTx[OutPoint(hash, i)].hash];
        }
        forall c
          ensures c in found <==> RecordedSpender(mapNextTx, hash, i + 1, c)
        {
          if RecordedSpender(mapNextTx, hash, i + 1, c) {
            var k :| 0 <= k < i + 1 && OutPoint(hash, k) in mapNextTx && mapNextTx[OutPoint(hash, k)].hash == c;
            if k < i {
              assert RecordedSpender(mapNextTx, hash, i, c);
            }
          }
        }
      }
    }

    /** Take one transaction out of both maps and the total. */
    method EraseTx(hash: Hash)
      requires Consistent(View()) && hash in mapTx
      modifies this`mapTx, this`mapNextTx, this`totalTxSize, this`nTransactionsUpdated
      ensures View() == Without(old(View()), {hash}) && Consistent(View())
    {
      hide InputsRecorded, RecordsAreInputs, SumSizes, Without;
      EraseOne(View(), hash);
      WithoutConsistent(View(), {hash});
      var tx := mapTx[hash].tx;
      for i := 0 to |tx.vin|
        invariant mapNextTx == old(mapNextTx) - (set op | op in tx.vin[..i])
        invariant mapTx == old(mapTx) && totalTxSize == old(totalTxSize)
      {
        assert tx.vin[..i + 1] == tx.vin[..i] + [tx.vin[i]];
        mapNextTx := mapNextTx - {tx.vin[i]};
      }
      assert tx.vin[..|tx.vin|] == tx.vin;
      totalTxSize := totalTxSize - mapTx[hash].size;
      mapTx := mapTx - {hash};
      nTransactionsUpdated := nTransactionsUpdated + 1;
    }

    /** Where the worklist starts: the transaction, and if it is not in the pool the spenders of its outputs. */
    method Seeds(origTx: Tx, fRecursive: bool) returns (txToRemove: seq<Hash>)
      requires Consistent(View())
      ensures Progress(mapTx, fRecursive, Roots(mapTx, origTx), origTx.hash, {}, txToRemove)
    {
      txToRemove := [origTx.hash];
      if fRecursive && origTx.hash !in mapTx {
        var found := Spenders(origTx.hash, origTx.nOut);
        forall c ensures c in found <==> c in mapTx && Spends(mapTx[c].tx, origTx) {
          SpendersRecorded(View(), origTx, c);
        }
        txToRemove := txToRemove + found;
      }
    }

    /** Take one transaction out, and find its spenders first if asked. */
    method RemoveOne(hash: Hash, fRecursive: bool, ghost p: Pool, ghost gone: set<Hash>) returns (tx: Tx, more: seq<Hash>)
      requires Consistent(p) && View() == Without(p, gone) && hash in mapTx
      modifies this`mapTx, this`mapNextTx, this`totalTxSize, this`nTransactionsUpdated
      ensures hash in p.txs && hash !in gone && tx == p.txs[hash].tx
      ensures View() == Without(p, gone + {hash})
      ensures mapTx == old(mapTx) - {hash}
      ensures !fRecursive ==> more == []
      ensures fRecursive ==> forall c :: c in more <==> c in p.txs && c !in gone && Spends(p.txs[c].tx, p.txs[hash].tx)
    {
      WithoutConsistent(p, gone);
      tx := mapTx[hash].tx;
      more := [];
      if fRecursive {
        more := Spenders(hash, tx.nOut);
        forall c ensures c in more <==> c in p.txs && c !in gone && Spends(p.txs[c].tx, tx) {
          SpendersRecorded(View(), tx, c);
        }
      }
      WithoutTwice(p, gone, {hash});
      EraseTx(hash);
    }

    /**
     Remove a transaction from the pool, and if asked everything in the pool that descends
     from it.  What goes is appended to the list of removed transactions.
     */
    method Remove(origTx: Tx, removed: seq<Tx>, fRecursive: bool) returns (removed': seq<Tx>, ghost gone: set<Hash>)
      requires Consistent(View())
      modifies this`mapTx, this`mapNextTx, this`totalTxSize, this`nTransactionsUpdated
      ensures View() == Without(old(View()), gone) && Consistent(View())
      ensures OutputsExist(old(mapTx)) ==> OutputsExist(mapTx)
      ensures fRecursive ==> IsClosure(old(mapTx), Roots(old(mapTx), origTx), gone)
      ensures !fRecursive ==> gone == {origTx.hash} * old(mapTx).Keys
      ensures removed <= removed' && Lists(old(mapTx), gone, removed'[|removed|..])
    {
      hide Progress, Lists, Spends, IsClosure, Consistent, Without, Roots, OutputsExist;
      ghost var p := View();
      ghost var roots := Roots(mapTx, origTx);
      var txToRemove := Seeds(origTx, fRecursive);
      gone := {};
      removed' := removed;
      ghost var added := [];
      WithoutNothing(p);
      ListsNone(p.txs);
      while txToRemove != []
        invariant View() == Without(p, gone)
        invariant Progress(p.txs, fRecursive, roots, origTx.hash, gone, txToRemove)
        invariant removed' == removed + added && Lists(p.txs, gone, added)
        decreases |mapTx|, |txToRemove|
      {
        var hash := txToRemove[0];
        ghost var Q := txToRemove;
        txToRemove := txToRemove[1..];
        if hash in mapTx {
          var tx, more := RemoveOne(hash, fRecursive, p, gone);
          ListsStep(p, gone, added, hash);
          ProgressStep(p, fRecursive, roots, origTx.hash, gone, Q, more);
          txToRemove := txToRemove + more;
          removed' := removed' + [tx];
          added := added + [tx];
          gone := gone + {hash};
        } else {
          WithoutTxs(p, gone);
          ProgressSkip(p.txs, fRecursive, roots, origTx.hash, gone, Q);
        }
      }
      ProgressDone(p.txs, fRecursive, roots, origTx.hash, gone);
      assert removed'[|removed|..] == added;
      WithoutConsistent(p, gone);
      OutputsStay(p, gone);
    }

    /** Remove the other pool transactions that spend what tx spends, with their descendants. */
    method RemoveConflicts(tx: Tx, removed: seq<Tx>) returns (removed': seq<Tx>, ghost gone: set<Hash>)
      requires Consistent(View())
      modifies this`mapTx, this`mapNextTx, this`totalTxSize, this`nTransactionsUpdated
      ensures View() == Without(old(View()), gone) && Consistent(View())
      ensures OutputsExist(old(mapTx)) ==> OutputsExist(mapTx)
      ensures IsClosure(old(mapTx), Conflicts(old(mapTx), tx), gone)
      ensures removed <= removed' && Lists(old(mapTx), gone, removed'[|removed|..])
      ensures forall h :: h in mapTx && h != tx.hash ==> !SharesInput(mapTx[h].tx, tx)
    {
      hide Lists, Spends, IsClosure, Consistent, Without, Conflicts, ConflictsBelow, SharesInput, OutputsExist;
      ghost var p := View();
      gone := {};
      removed' := removed;
      ghost var added := [];
      WithoutNothing(p);
      ListsNone(p.txs);
      ClosureOfNothing(p.txs);
      ConflictsNone(p, tx);
      for i := 0 to |tx.vin|
        invariant View() == Without(p, gone)
        invariant IsClosure(p.txs, ConflictsBelow(p, tx, i), gone)
        invariant removed' == removed + added && Lists(p.txs, gone, added)
      {
        WithoutConsistent(p, gone);
        WithoutTxs(p, gone);
        ConflictsNext(p, gone, tx, i);
        if tx.vin[i] in mapNextTx {
          var c := mapNextTx[tx.vin[i]].hash;
          if c != tx.hash {
            var more: seq<Tx>;
            ghost var R: set<Hash>;
            more, R := Remove(mapTx[c].tx, [], true);
            RootsInPool(p.txs - gone, c);
            RemoveMore(p, ConflictsBelow(p, tx, i), gone, added, {c}, R, more);
            removed' := removed' + more;
            added, gone := added + more, gone + R;
          }
        }
      }
      assert removed'[|removed|..] == added;
      WithoutConsistent(p, gone);
      WithoutTxs(p, gone);
      OutputsStay(p, gone);
      ConflictsAll(p, tx);
      NoConflictLeft(p, tx, gone);
    }

    /** The pool entries of a block's transactions, in the block's order. */
    method CollectEntries(vtx: seq<Tx>) returns (entries: seq<Entry>)
      ensures entries == EntriesOf(mapTx, vtx, |vtx|)
    {
      entries := [];
      for k := 0 to |vtx|
        invariant entries == EntriesOf(mapTx, vtx, k)
      {
        var hash := vtx[k].hash;
        if hash in mapTx {
          entries := entries + [mapTx[hash]];
        }
      }
    }

    /** Take the transactions of a block out, and everything that conflicts with them. */
    method RemoveBlockTxs(vtx: seq<Tx>, conflicts: seq<Tx>)
      returns (conflicts': seq<Tx>, ghost gone: set<Hash>, ghost clashed: set<Hash>)
      requires Consistent(View())
      modifies this`mapTx, this`mapNextTx, this`totalTxSize, this`nTransactionsUpdated
      ensures View() == Without(old(View()), gone) && Consistent(View())
      ensures OutputsExist(old(mapTx)) ==> OutputsExist(mapTx)
      ensures Settled(mapTx, vtx, |vtx|)
      ensures OnlyBlockOrConflicts(old(mapTx), vtx, gone)
      ensures clashed <= gone && gone - clashed == HashesOf(vtx) * (old(mapTx).Keys - clashed)
      ensures conflicts <= conflicts' && Lists(old(mapTx), clashed, conflicts'[|conflicts|..])
      ensures Childless(old(mapTx), clashed, gone)
    {
      hide Lists, Spends, IsClosure, Consistent, Without, Conflicts, SharesInput, OnlyBlockOrConflicts, Settled, Childless, OutputsExist;
      ghost var p := View();
      gone, clashed := {}, {};
      conflicts' := conflicts;
      ghost var added := [];
      WithoutNothing(p);
      NothingSettled(p.txs, vtx);
      ListsNone(p.txs);
      NoneChildless(p.txs);
      NoHashes();
      assert vtx[..0] == [];
      for k := 0 to |vtx|
        invariant View() == Without(p, gone) && Consistent(View())
        invariant OnlyBlockOrConflicts(p.txs, vtx, gone) && Settled(mapTx, vtx, k)
        invariant conflicts' == conflicts + added && Lists(p.txs, clashed, added) && Childless(p.txs, clashed, gone)
        invariant clashed <= gone && gone - clashed == HashesOf(vtx[..k]) * (p.txs.Keys - clashed)
      {
        var tx := vtx[k];
        ghost var before := mapTx;
        WithoutTxs(p, gone);
        var dummy: seq<Tx>;
        ghost var R1, R2: set<Hash>;
        dummy, R1 := Remove(tx, [], false);
        WithoutTwice(p, gone, R1);
        WithoutTxs(p, gone + R1);
        ghost var sofar := conflicts';
        conflicts', R2 := RemoveConflicts(tx, conflicts');
        ghost var more := conflicts'[|sofar|..];
        assert conflicts' == sofar + more;
        WithoutTwice(p, gone + R1, R2);
        WithoutTxs(p, gone + R1 + R2);
        SettledStep(p.txs, vtx, k, gone, R1, R2);
        ChildlessStep(p.txs, clashed, gone, R1, Conflicts(p.txs - (gone + R1), tx), R2);
        ClashStep(p, vtx, k, gone, clashed, added, R1, R2, more);
        added := added + more;
        gone, clashed := gone + R1 + R2, clashed + R2;
      }
      WithoutTxs(p, gone);
      OutputsStay(p, gone);
    }

    /**
     A block was connected: the fee estimator sees the pool entries of its transactions, which
     then leave the pool with everything that conflicts with them.
     */
    method RemoveForBlock(vtx: seq<Tx>, nBlockHeight: int, freeThreshold: real, conflicts: seq<Tx>)
      returns (conflicts': seq<Tx>, ghost gone: set<Hash>, ghost clashed: set<Hash>)
      requires Consistent(View()) && minerPolicyEstimator.Valid()
      modifies this`mapTx, this`mapNextTx, this`totalTxSize, this`nTransactionsUpdated, minerPolicyEstimator
      ensures View() == Without(old(View()), gone) && Consistent(View())
      ensures OutputsExist(old(mapTx)) ==> OutputsExist(mapTx)
      ensures Settled(mapTx, vtx, |vtx|)
      ensures OnlyBlockOrConflicts(old(mapTx), vtx, gone)
      ensures clashed <= gone && gone - clashed == HashesOf(vtx) * (old(mapTx).Keys - clashed)
      ensures conflicts <= conflicts' && Lists(old(mapTx), clashed, conflicts'[|conflicts|..])
      ensures Childless(old(mapTx), clashed, gone)
      ensures minerPolicyEstimator.Valid()
      ensures minerPolicyEstimator.Saw(old(minerPolicyEstimator.history), old(minerPolicyEstimator.nBestSeenHeight),
                                       EntriesOf(old(mapTx), vtx, |vtx|), nBlockHeight, minRelayFee, freeThreshold)
    {
      hide Lists, Consistent, Without, OnlyBlockOrConflicts, Settled, Childless, OutputsExist, EntriesOf, HashesOf;
      var entries := CollectEntries(vtx);
      minerPolicyEstimator.SeenBlock(entries, nBlockHeight, minRelayFee, freeThreshold);
      conflicts', gone, clashed := RemoveBlockTxs(vtx, conflicts);
    }

    /** Remove what spends a coinbase that is immature again, or coins that no longer exist, with all descendants. */
    method RemoveCoinbaseSpends(coins: Hash -> Coins, nMemPoolHeight: nat, maturity: nat) returns (ghost gone: set<Hash>)
      requires Consistent(View())
      modifies this`mapTx, this`mapNextTx, this`totalTxSize, this`nTransactionsUpdated
      ensures View() == Without(old(View()), gone) && Consistent(View())
      ensures OutputsExist(old(mapTx)) ==> OutputsExist(mapTx)
      ensures IsClosure(old(mapTx), BadInputs(old(mapTx), coins, nMemPoolHeight, maturity), gone)
    {
      hide Lists, Spends, IsClosure, Consistent, Without, BadInputs, OutputsExist;
      ghost var p := View();
      var transactionsToRemove := FindBadInputs(coins, nMemPoolHeight, maturity);
      gone := {};
      WithoutNothing(p);
      ClosureOfNothing(p.txs);
      assert HashesOf(transactionsToRemove[..0]) == {};
      for k := 0 to |transactionsToRemove|
        invariant View() == Without(p, gone) && Consistent(View())
        invariant IsClosure(p.txs, HashesOf(transactionsToRemove[..k]), gone)
      {
        var tx := transactionsToRemove[k];
        WithoutTxs(p, gone);
        var removed: seq<Tx>;
        ghost var R: set<Hash>;
        removed, R := Remove(tx, [], true);
        RemoveListed(p, HashesOf(transactionsToRemove[..k]), gone, tx, R);
        HashesSnoc(transactionsToRemove, k);
        WithoutTwice(p, gone, R);
        gone := gone + R;
      }
      assert transactionsToRemove[..|transactionsToRemove|] == transactionsToRemove;
      OutputsStay(p, gone);
    }

    /** Look for an input from outside the pool that cannot be spent, up to the first one. */
    method ScanInputs(tx: Tx, coins: Hash -> Coins, nMemPoolHeight: nat, maturity: nat) returns (bad: bool)
      ensures bad <==> HasBadInput(mapTx, tx, coins, nMemPoolHeight, maturity)
    {
      for i := 0 to |tx.vin|
        invariant forall j :: 0 <= j < i && tx.vin[j].hash !in mapTx ==>
                    !Unspendable(coins(tx.vin[j].hash), nMemPoolHeight, maturity)
      {
        if tx.vin[i].hash !in mapTx && Unspendable(coins(tx.vin[i].hash), nMemPoolHeight, maturity) {
          return true;
        }
      }
      return false;
    }

    method FindBadInputs(coins: Hash -> Coins, nMemPoolHeight: nat, maturity: nat) returns (found: seq<Tx>)
      requires Consistent(View())
      ensures forall i :: 0 <= i < |found| ==> found[i].hash in mapTx && found[i] == mapTx[found[i].hash].tx
      ensures HashesOf(found) == BadInputs(mapTx, coins, nMemPoolHeight, maturity)
    {
      hide HasBadInput, InputsRecorded, RecordsAreInputs, SumSizes, HashesOf;
      found := [];
      NoHashes();
      var todo := mapTx.Keys;
      while todo != {}
        invariant todo <= mapTx.Keys
        invariant forall i :: 0 <= i < |found| ==> found[i].hash in mapTx && found[i] == mapTx[found[i].hash].tx
        invariant forall h :: h in HashesOf(found) <==>
                    h in mapTx && h !in todo && HasBadInput(mapTx, mapTx[h].tx, coins, nMemPoolHeight, maturity)
        decreases |todo|
      {
        var h :| h in todo;
        todo := todo - {h};
        var tx := mapTx[h].tx;
        var bad := ScanInputs(tx, coins, nMemPoolHeight, maturity);
        if bad {
          ghost var was := found;
          found := found + [tx];
          HashesAppend(was, tx);
        }
      }
    }

    // -------------------------------------------------------------- addition

    ghost function Listed(): HashList.List
      reads this
    {
      HashList.List(hashList, hashListPos)
    }

    /** Enter a transaction without checking anything; the caller has done all the checks. */
    method AddUnchecked(hash: Hash, entry: Entry)
      modifies this`mapTx, this`mapNextTx, this`totalTxSize, this`nTransactionsUpdated, this`hashList, this`hashListPos
      ensures View() == AddEntry(old(View()), hash, entry)
      ensures Listed() == HashList.Put(old(Listed()), hash)
      ensures old(Consistent(View())) && hash !in old(mapTx) && entry.tx.hash == hash ==>
                (Consistent(View()) <==> ConflictFree(old(View()), entry.tx))
      ensures old(OutputsExist(mapTx)) && hash !in old(mapTx) ==>
                (OutputsExist(mapTx) <==> OutputsMatch(old(mapTx), hash, entry))
      ensures nTransactionsUpdated == old(nTransactionsUpdated) + 1
    {
      hide Consistent, ConflictFree, OutputsExist, OutputsMatch;
      if Consistent(View()) && hash !in mapTx && entry.tx.hash == hash {
        AddKeepsConsistent(View(), hash, entry);
      }
      if OutputsExist(mapTx) && hash !in mapTx {
        AddKeepsOutputs(mapTx, hash, entry);
      }
      mapTx := mapTx[hash := entry];
      var tx := entry.tx;
      for i := 0 to |tx.vin|
        invariant mapNextTx == AddRecords(old(mapNextTx), tx, hash, i)
        invariant mapTx == old(mapTx)[hash := entry] && totalTxSize == old(totalTxSize)
        invariant hashList == old(hashList) && hashListPos == old(hashListPos)
        invariant nTransactionsUpdated == old(nTransactionsUpdated)
      {
        mapNextTx := mapNextTx[tx.vin[i] := InPoint(hash, i)];
      }
      nTransactionsUpdated := nTransactionsUpdated + 1;
      totalTxSize := totalTxSize + entry.size;
      if hashListPos < |hashList| {
        hashList := hashList[hashListPos := hash];
        hashListPos := hashListPos + 1;
      } else {
        hashList := hashList + [hash];
        hashListPos := |hashList|;
      }
    }

    method Clear()
      modifies this`mapTx, this`mapNextTx, this`totalTxSize, this`nTransactionsUpdated, this`hashList, this`hashListPos
      ensures Consistent(View()) && OutputsExist(mapTx) && mapTx == map[] && hashList == [] && hashListPos == 0
    {
      mapTx, mapNextTx := map[], map[];
      hashList, hashListPos := [], 0;
      totalTxSize := 0;
      nTransactionsUpdated := nTransactionsUpdated + 1;
    }

    // -------------------------------------------------------------- the hash list

    /** Move the rows of pool transactions together, in place and in order, and drop the others. */
    method DefragmentHashList()
      modifies this`hashList, this`hashListPos
      ensures Listed() == HashList.Defragment(old(Listed()), mapTx.Keys)
    {
      var posIn, posOut := 0, 0;
      while posIn < |hashList|
        invariant 0 <= posOut <= posIn <= |hashList| == |old(hashList)|
        invariant hashList[..posOut] == HashList.Filter(old(hashList)[..posIn], mapTx.Keys)
        invariant hashList[posIn..] == old(hashList)[posIn..]
      {
        var hash := hashList[posIn];
        assert hash == hashList[posIn..][0] == old(hashList)[posIn];
        assert old(hashList)[..posIn + 1][..posIn] == old(hashList)[..posIn];
        assert hashList[posIn..][1..] == hashList[posIn + 1..];
        if hash in mapTx {
          ghost var was := hashList;
          if posIn != posOut {
            hashList := hashList[posOut := hash];
          }
          assert hashList[..posOut + 1] == was[..posOut] + [hash];
          posOut := posOut + 1;
        }
        posIn := posIn + 1;
      }
      assert old(hashList)[..posIn] == old(hashList);
      hashList := hashList[..posOut];
      hashListPos := posOut;
    }

    /** Open rows at the front; `stale` is what the fresh rows happen to hold. */
    method ShiftHashList(stale: seq<Hash>)
      modifies this`hashList, this`hashListPos
      ensures Listed() == HashList.Shift(old(Listed()), stale)
    {
      var oldrows := |hashList|;
      hashList := hashList + stale;
      if oldrows > 0 {
        hashList := seq(|stale|, _ => 0) + hashList[..oldrows];
        assert (old(hashList) + stale)[..oldrows] == old(hashList);
      } else {
        assert old(hashList) + stale == stale;
      }
      hashListPos := 0;
    }

    /** The hashes of the pool in list order, all of them if the list covers the pool; and where a block is full. */
    method QueryHashes(maxBlockSize: nat) returns (vtxid: seq<Hash>)
      modifies this`hashSendStop
      ensures vtxid == HashList.Filter(hashList, mapTx.Keys)
      ensures HashList.Covers(hashList, mapTx.Keys) ==> forall h :: h in vtxid <==> h in mapTx
      ensures forall h :: h in mapTx ==> HashList.Count(vtxid, h) == HashList.Count(hashList, h)
      ensures hashSendStop == SendStop(mapTx, vtxid, maxBlockSize)
    {
      vtxid := [];
      hashSendStop := 0;
      var addedSize := 0;
      for pos := 0 to |hashList|
        invariant vtxid == HashList.Filter(hashList[..pos], mapTx.Keys)
        invariant addedSize == SizeOf(mapTx, vtxid) && hashSendStop == SendStop(mapTx, vtxid, maxBlockSize)
      {
        assert hashList[..pos + 1][..pos] == hashList[..pos];
        var hash := hashList[pos];
        if hash in mapTx {
          assert (vtxid + [hash])[..|vtxid|] == vtxid;
          vtxid := vtxid + [hash];
          addedSize := addedSize + mapTx[hash].size;
          if addedSize > maxBlockSize {
            if hashSendStop == 0 {
              hashSendStop := hash;
            }
          }
        }
      }
      assert hashList[..|hashList|] == hashList;
      HashList.FilterMembers(hashList, mapTx.Keys);
      forall h | h in mapTx ensures HashList.Count(vtxid, h) == HashList.Count(hashList, h) {
        HashList.FilterCounts(hashList, mapTx.Keys, h);
      }
    }
  }

  function HashesOf(l: seq<Tx>): set<Hash> { set tx | tx in l :: tx.hash }

  lemma NoHashes()
    ensures HashesOf([]) == {}
  {
  }

  lemma HashesAppend(l: seq<Tx>, tx: Tx)
    ensures HashesOf(l + [tx]) == HashesOf(l) + {tx.hash}
  {
    var l' := l + [tx];
    assert l'[..|l|] == l && l'[..|l| + 1] == l';
    HashesSnoc(l', |l|);
  }

  lemma HashesSnoc(l: seq<Tx>, k: nat)
    requires k < |l|
    ensures HashesOf(l[..k + 1]) == HashesOf(l[..k]) + {l[k].hash}
  {
    assert l[..k + 1] == l[..k] + [l[k]];
    assert l[k] in l[..k + 1];
    forall h | h in HashesOf(l[..k]) ensures h in HashesOf(l[..k + 1]) {
      var tx :| tx in l[..k] && tx.hash == h;
      assert tx in l[..k + 1];
    }
  }

  /** Removing a listed transaction recursively extends the closure, whether it is still in the pool or already gone. */
  lemma RemoveListed(p: Pool, S: set<Hash>, gone: set<Hash>, tx: Tx, R: set<Hash>)
    requires Consistent(p) && IsClosure(p.txs, S, gone) && tx.hash in p.txs && tx == p.txs[tx.hash].tx
    requires IsClosure(p.txs - gone, Roots(p.txs - gone, tx), R)
    ensures IsClosure(p.txs, S + {tx.hash}, gone + R)
  {
    var txs := p.txs - gone;
    var roots := Roots(txs, tx);
    if tx.hash in gone {
      assert roots * txs.Keys == {};
      assert Closed(txs, {});
      assert R == {};
      assert gone + R == gone;
      forall C | Closed(p.txs, C) && (S + {tx.hash}) * p.txs.Keys <= C ensures gone <= C {
        assert S * p.txs.Keys <= C;
      }
    } else {
      ClosureUnion(p.txs, S, gone, {tx.hash}, R);
    }
  }

  // ---------------------------------------------------------------- blocks

  /** The pool entries of the first k transactions of a block. */
  function EntriesOf(txs: Txs, vtx: seq<Tx>, k: nat): seq<Entry>
    requires k <= |vtx|
  {
    if k == 0 then [] else
      EntriesOf(txs, vtx, k - 1) + if vtx[k - 1].hash in txs then [txs[vtx[k - 1].hash]] else []
  }

  function BlockHashes(vtx: seq<Tx>): seq<Hash> {
    seq(|vtx|, i requires 0 <= i < |vtx| => vtx[i].hash)
  }

  /** They are the entries of the block's hashes that are in the pool, in the block's order (see HashList.FilterInOrder). */
  lemma {:induction false} EntriesInOrder(txs: Txs, vtx: seq<Tx>, k: nat, i: nat)
    requires k <= |vtx|
    ensures var hashes := HashList.Filter(BlockHashes(vtx[..k]), txs.Keys);
            && |EntriesOf(txs, vtx, k)| == |hashes|
            && (i < |hashes| ==> hashes[i] in txs && EntriesOf(txs, vtx, k)[i] == txs[hashes[i]])
    decreases k
  {
    if k > 0 {
      EntriesInOrder(txs, vtx, k - 1, i);
      var b := BlockHashes(vtx[..k]);
      assert b[..|b| - 1] == BlockHashes(vtx[..k - 1]);
    }
  }

  /** The sizes of listed pool transactions together. */
  function SizeOf(txs: Txs, hashes: seq<Hash>): nat {
    if hashes == [] then 0 else
      var h := hashes[|hashes| - 1];
      SizeOf(txs, hashes[..|hashes| - 1]) + if h in txs then txs[h].size else 0
  }

  /** The pool entries of some hashes. */
  ghost function Only(txs: Txs, hashes: seq<Hash>): Txs {
    map h | h in hashes && h in txs :: txs[h]
  }

  lemma OnlyLast(txs: Txs, hashes: seq<Hash>)
    requires hashes != [] && hashes[|hashes| - 1] in txs && hashes[|hashes| - 1] !in hashes[..|hashes| - 1]
    ensures var last, m := hashes[|hashes| - 1], Only(txs, hashes);
            last in m && m[last] == txs[last] && m - {last} == Only(txs, hashes[..|hashes| - 1])
  {
    assert hashes == hashes[..|hashes| - 1] + [hashes[|hashes| - 1]];
  }

  /** Pool hashes without repetition: their sizes are what the pool's total counts for them. */
  lemma {:induction false} SizeOfDistinct(txs: Txs, hashes: seq<Hash>)
    requires forall i :: 0 <= i < |hashes| ==> hashes[i] in txs
    requires forall i, j :: 0 <= i < j < |hashes| ==> hashes[i] != hashes[j]
    ensures SizeOf(txs, hashes) == SumSizes(Only(txs, hashes))
    decreases |hashes|
  {
    if hashes == [] {
      assert Only(txs, hashes) == map[];
    } else {
      hide Only, SumSizes;
      var n := |hashes| - 1;
      SizeOfDistinct(txs, hashes[..n]);
      OnlyLast(txs, hashes);
      SumRemove(Only(txs, hashes), hashes[n]);
    }
  }

  /** The hash at which the sizes exceed the limit, or zero. */
  function SendStop(txs: Txs, hashes: seq<Hash>, limit: nat): Hash {
    if hashes == [] then 0 else
      var before := SendStop(txs, hashes[..|hashes| - 1], limit);
      if before == 0 && SizeOf(txs, hashes) > limit then hashes[|hashes| - 1] else before
  }

  lemma {:induction false} SizeGrows(txs: Txs, hashes: seq<Hash>, k: nat)
    requires k <= |hashes|
    ensures SizeOf(txs, hashes[..k]) <= SizeOf(txs, hashes)
    decreases |hashes|
  {
    if k < |hashes| {
      SizeGrows(txs, hashes[..|hashes| - 1], k);
      assert hashes[..|hashes| - 1][..k] == hashes[..k];
    } else {
      assert hashes[..k] == hashes;
    }
  }

  lemma {:induction false} StopIsSet(txs: Txs, hashes: seq<Hash>, limit: nat)
    requires 0 !in hashes
    ensures SendStop(txs, hashes, limit) == 0 <==> SizeOf(txs, hashes) <= limit
    decreases |hashes|
  {
    if hashes != [] {
      var n := |hashes| - 1;
      StopIsSet(txs, hashes[..n], limit);
      SizeGrows(txs, hashes, n);
      assert hashes[n] in hashes;
    }
  }

  /** No hash being zero, the stop is zero while everything fits, and otherwise the first hash that goes over. */
  lemma {:induction false} SendStopExact(txs: Txs, hashes: seq<Hash>, limit: nat, k: nat)
    requires 0 !in hashes && k < |hashes|
    ensures SendStop(txs, hashes, limit) == 0 <==> SizeOf(txs, hashes) <= limit
    ensures SizeOf(txs, hashes[..k]) <= limit < SizeOf(txs, hashes[..k + 1]) ==> SendStop(txs, hashes, limit) == hashes[k]
    decreases |hashes|
  {
    hide SizeOf;
    StopIsSet(txs, hashes, limit);
    var n := |hashes| - 1;
    StopIsSet(txs, hashes[..n], limit);
    if k < n {
      assert hashes[..n][..k] == hashes[..k] && hashes[..n][..k + 1] == hashes[..k + 1];
      SendStopExact(txs, hashes[..n], limit, k);
      assert hashes[k] in hashes;
    } else {
      assert hashes[..k + 1] == hashes;
    }
  }

  /** None of the first k block transactions is in the pool, and none shares an input with it. */
  ghost predicate Settled(txs: Txs, vtx: seq<Tx>, k: nat)
    requires k <= |vtx|
  {
    forall j :: 0 <= j < k ==> vtx[j].hash !in txs && forall h :: h in txs ==> !SharesInput(txs[h].tx, vtx[j])
  }

  /** Everything removed is a block transaction, a conflict of one, or a descendant of a conflict. */
  ghost predicate OnlyBlockOrConflicts(txs: Txs, vtx: seq<Tx>, gone: set<Hash>) {
    gone <= txs.Keys && forall C :: Closed(txs, C) && AllConflicts(txs, vtx) <= C ==> gone <= C + HashesOf(vtx)
  }

  lemma NothingSettled(txs: Txs, vtx: seq<Tx>)
    ensures OnlyBlockOrConflicts(txs, vtx, {}) && Settled(txs, vtx, 0)
  {
  }

  lemma StaysSettled(txs: Txs, vtx: seq<Tx>, k: nat, gone: set<Hash>, more: set<Hash>)
    requires k < |vtx| && Settled(txs - gone, vtx, k)
    requires vtx[k].hash !in txs - (gone + more)
    requires forall h :: h in txs - (gone + more) ==> !SharesInput(txs[h].tx, vtx[k])
    ensures Settled(txs - (gone + more), vtx, k + 1)
  {
    hide SharesInput;
    var left := txs - (gone + more);
    forall j | 0 <= j < k + 1 ensures vtx[j].hash !in left && forall h :: h in left ==> !SharesInput(left[h].tx, vtx[j]) {
      forall h | h in left ensures !SharesInput(left[h].tx, vtx[j]) {
        if j < k {
          assert h in txs - gone;
        }
      }
    }
  }

  /** Nothing that is left spends an output of what was removed as a conflict. */
  ghost predicate Childless(txs: Txs, clashed: set<Hash>, gone: set<Hash>) {
    forall c, d :: c in clashed && c in txs && d in txs && d !in gone ==> !Spends(txs[d].tx, txs[c].tx)
  }

  lemma NoneChildless(txs: Txs)
    ensures Childless(txs, {}, {})
  {
  }

  lemma ChildlessStep(txs: Txs, clashed: set<Hash>, gone: set<Hash>, R1: set<Hash>, roots: set<Hash>, R2: set<Hash>)
    requires Childless(txs, clashed, gone) && IsClosure(txs - (gone + R1), roots, R2)
    ensures Childless(txs, clashed + R2, gone + R1 + R2)
  {
    hide Spends;
    var left := txs - (gone + R1);
    forall c, d | c in clashed + R2 && c in txs && d in txs && d !in gone + R1 + R2
      ensures !Spends(txs[d].tx, txs[c].tx)
    {
      assert d in left && left[d] == txs[d];
      if c in R2 {
        assert c in left && left[c] == txs[c];
      }
    }
  }

  lemma ListsEarlier(txs: Txs, A: set<Hash>, B: set<Hash>, S: set<Hash>, more: seq<Tx>)
    requires B <= A && Lists(txs - A, S, more)
    ensures Lists(txs - B, S, more) && S !! A && S !! B
  {
  }

  lemma ConsistentKeys(p: Pool)
    requires Consistent(p)
    ensures KeyedByHash(p.txs)
  {
  }

  lemma GoneStep(all: set<Hash>, H: set<Hash>, x: Hash, gone: set<Hash>, clashed: set<Hash>, R1: set<Hash>, R2: set<Hash>)
    requires clashed <= gone && gone - clashed == H * (all - clashed)
    requires R1 == {x} * (all - gone) && R2 !! gone + R1
    ensures gone + R1 + R2 - (clashed + R2) == (H + {x}) * (all - (clashed + R2))
  {
    forall e ensures e in gone + R1 + R2 - (clashed + R2) <==> e in (H + {x}) * (all - (clashed + R2)) {
      if e !in clashed {
        assert e in gone <==> e in gone - clashed;
      }
    }
  }

  /** One block transaction: it goes by itself, and its conflicts go with what descends from them. */
  lemma ClashStep(p: Pool, vtx: seq<Tx>, k: nat, gone: set<Hash>, clashed: set<Hash>, added: seq<Tx>, R1: set<Hash>, R2: set<Hash>, more: seq<Tx>)
    requires Consistent(p) && k < |vtx| && clashed <= gone && Lists(p.txs, clashed, added)
    requires gone - clashed == HashesOf(vtx[..k]) * (p.txs.Keys - clashed)
    requires R1 == {vtx[k].hash} * (p.txs - gone).Keys && Lists(p.txs - (gone + R1), R2, more)
    ensures Lists(p.txs, clashed + R2, added + more)
    ensures gone + R1 + R2 - (clashed + R2) == HashesOf(vtx[..k + 1]) * (p.txs.Keys - (clashed + R2))
  {
    hide Lists, Consistent, HashesOf;
    ConsistentKeys(p);
    ListsEarlier(p.txs, gone + R1, clashed, R2, more);
    ListsAppend(p.txs, clashed, added, R2, more);
    HashesSnoc(vtx, k);
    GoneStep(p.txs.Keys, HashesOf(vtx[..k]), vtx[k].hash, gone, clashed, R1, R2);
  }

  lemma SettledStep(txs: Txs, vtx: seq<Tx>, k: nat, gone: set<Hash>, R1: set<Hash>, R2: set<Hash>)
    requires k < |vtx| && OnlyBlockOrConflicts(txs, vtx, gone) && Settled(txs - gone, vtx, k)
    requires R1 == {vtx[k].hash} * (txs - gone).Keys
    requires IsClosure(txs - (gone + R1), Conflicts(txs - (gone + R1), vtx[k]), R2)
    requires forall h :: h in txs - (gone + R1 + R2) && h != vtx[k].hash ==> !SharesInput(txs[h].tx, vtx[k])
    ensures OnlyBlockOrConflicts(txs, vtx, gone + R1 + R2) && Settled(txs - (gone + R1 + R2), vtx, k + 1)
  {
    hide Settled, SharesInput;
    StaysSettled(txs, vtx, k, gone, R1 + R2);
    assert gone + (R1 + R2) == gone + R1 + R2;
    var left := txs - (gone + R1);
    assert vtx[k] in vtx;
    assert vtx[k].hash in HashesOf(vtx);
    forall C | Closed(txs, C) && AllConflicts(txs, vtx) <= C
      ensures gone + R1 + R2 <= C + HashesOf(vtx)
    {
      assert gone <= C + HashesOf(vtx);
      assert Closed(left, C);
      forall h | h in Conflicts(left, vtx[k]) * left.Keys ensures h in C {
        assert h in Conflicts(txs, vtx[k]);
        assert h in AllConflicts(txs, vtx);
      }
      assert R2 <= C;
    }
  }

  lemma OutputsStay(p: Pool, R: set<Hash>)
    ensures OutputsExist(p.txs) ==> OutputsExist(Without(p, R).txs)
  {
    hide OutputsExist, Without;
    if OutputsExist(p.txs) {
      RemovalKeepsOutputs(p, R);
    }
  }

  lemma WithoutTxs(p: Pool, R: set<Hash>)
    ensures Without(p, R).txs == p.txs - R
  {
  }

  lemma ClosureOfNothing(txs: Txs)
    ensures IsClosure(txs, {}, {})
  {
  }

  /** The conflicts that the first k inputs of tx show in the records. */
  ghost function ConflictsBelow(p: Pool, tx: Tx, k: nat): set<Hash>
    requires k <= |tx.vin|
  {
    set i | 0 <= i < k && tx.vin[i] in p.next && p.next[tx.vin[i]].hash != tx.hash :: p.next[tx.vin[i]].hash
  }

  lemma ConflictsNone(p: Pool, tx: Tx)
    ensures ConflictsBelow(p, tx, 0) == {}
  {
  }

  lemma RootsInPool(txs: Txs, h: Hash)
    requires h in txs && txs[h].tx.hash == h
    ensures Roots(txs, txs[h].tx) == {h}
  {
  }

  lemma ConflictsNext(p: Pool, gone: set<Hash>, tx: Tx, i: nat)
    requires Consistent(p) && i < |tx.vin| && IsClosure(p.txs, ConflictsBelow(p, tx, i), gone)
    ensures var q := Without(p, gone);
            var op := tx.vin[i];
            if op in q.next && q.next[op].hash != tx.hash then
              && q.next[op].hash in q.txs && q.txs[q.next[op].hash].tx.hash == q.next[op].hash
              && ConflictsBelow(p, tx, i + 1) == ConflictsBelow(p, tx, i) + {q.next[op].hash}
            else IsClosure(p.txs, ConflictsBelow(p, tx, i + 1), gone)
  {
    var op := tx.vin[i];
    var S, S' := ConflictsBelow(p, tx, i), ConflictsBelow(p, tx, i + 1);
    if op in p.next && p.next[op].hash != tx.hash {
      assert S' == S + {p.next[op].hash};
      if p.next[op].hash in gone {
        assert S' * p.txs.Keys <= gone;
        assert forall C :: S' * p.txs.Keys <= C ==> S * p.txs.Keys <= C;
      }
    } else {
      assert S' == S;
    }
  }

  /** A further recursive removal from what is left extends the closure and the list. */
  lemma RemoveMore(p: Pool, S: set<Hash>, gone: set<Hash>, added: seq<Tx>, T: set<Hash>, R: set<Hash>, more: seq<Tx>)
    requires Consistent(p) && IsClosure(p.txs, S, gone) && Lists(p.txs, gone, added)
    requires IsClosure(p.txs - gone, T, R) && Lists(p.txs - gone, R, more)
    ensures IsClosure(p.txs, S + T, gone + R) && Lists(p.txs, gone + R, added + more)
    ensures Without(Without(p, gone), R) == Without(p, gone + R)
  {
    ClosureUnion(p.txs, S, gone, T, R);
    ListsAppend(p.txs, gone, added, R, more);
    WithoutTwice(p, gone, R);
  }

  lemma ConflictsAll(p: Pool, tx: Tx)
    requires Consistent(p)
    ensures ConflictsBelow(p, tx, |tx.vin|) == Conflicts(p.txs, tx)
  {
    var S := ConflictsBelow(p, tx, |tx.vin|);
    forall h | h in Conflicts(p.txs, tx) ensures h in S {
      var i, j :| 0 <= i < |p.txs[h].tx.vin| && 0 <= j < |tx.vin| && p.txs[h].tx.vin[i] == tx.vin[j];
      assert p.next[p.txs[h].tx.vin[i]] == InPoint(h, i);
      assert p.next[tx.vin[j]].hash == h;
    }
    forall h | h in S ensures h in Conflicts(p.txs, tx) {
      var j :| 0 <= j < |tx.vin| && tx.vin[j] in p.next && p.next[tx.vin[j]].hash == h && h != tx.hash;
      var i := p.next[tx.vin[j]].n;
      assert p.txs[h].tx.vin[i] == tx.vin[j];
    }
  }

  lemma NoConflictLeft(p: Pool, tx: Tx, gone: set<Hash>)
    requires IsClosure(p.txs, Conflicts(p.txs, tx), gone)
    ensures forall h :: h in p.txs - gone && h != tx.hash ==> !SharesInput(p.txs[h].tx, tx)
  {
    forall h | h in p.txs - gone && h != tx.hash ensures !SharesInput(p.txs[h].tx, tx) {
      assert h !in Conflicts(p.txs, tx) * p.txs.Keys;
    }
  }

  /** Removal without descendants looks at one hash only. */
  ghost predicate Single(txs: Txs, h: Hash, R: set<Hash>, Q: seq<Hash>) {
    (Q == [h] && R == {}) || (Q == [] && R == {h} * txs.Keys)
  }

  /** What the work list of either kind of removal stands for. */
  ghost predicate Progress(txs: Txs, fRecursive: bool, roots: set<Hash>, h: Hash, R: set<Hash>, Q: seq<Hash>) {
    if fRecursive then Removing(txs, roots, R, Q) else Single(txs, h, R, Q)
  }

  lemma ProgressStep(p: Pool, fRecursive: bool, roots: set<Hash>, h: Hash, R: set<Hash>, Q: seq<Hash>, more: seq<Hash>)
    requires Consistent(p) && Progress(p.txs, fRecursive, roots, h, R, Q) && Q != [] && Q[0] in p.txs && Q[0] !in R
    requires if fRecursive then forall c :: c in more <==> c in p.txs && c !in R && Spends(p.txs[c].tx, p.txs[Q[0]].tx)
             else more == []
    ensures Progress(p.txs, fRecursive, roots, h, R + {Q[0]}, Q[1..] + more)
  {
    hide Removing, Spends, Consistent;
    if fRecursive {
      RemovingStep(p, roots, R, Q, more);
    }
  }

  lemma ProgressSkip(txs: Txs, fRecursive: bool, roots: set<Hash>, h: Hash, R: set<Hash>, Q: seq<Hash>)
    requires Progress(txs, fRecursive, roots, h, R, Q) && Q != [] && Q[0] !in txs - R
    ensures Progress(txs, fRecursive, roots, h, R, Q[1..])
  {
    hide Removing;
    if fRecursive {
      RemovingSkip(txs, roots, R, Q);
    }
  }

  lemma ProgressDone(txs: Txs, fRecursive: bool, roots: set<Hash>, h: Hash, R: set<Hash>)
    requires Progress(txs, fRecursive, roots, h, R, [])
    ensures if fRecursive then IsClosure(txs, roots, R) else R == {h} * txs.Keys
  {
    hide Removing, IsClosure;
    if fRecursive {
      RemovingDone(txs, roots, R);
    }
  }

  lemma ListsStep(p: Pool, R: set<Hash>, added: seq<Tx>, h: Hash)
    requires Consistent(p) && Lists(p.txs, R, added) && h in p.txs && h !in R
    ensures Lists(p.txs, R + {h}, added + [p.txs[h].tx])
  {
    ListsOne(p.txs - R, h);
    ListsAppend(p.txs, R, added, {h}, [p.txs[h].tx]);
  }
}
