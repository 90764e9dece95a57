/** The memory pool's two maps and running total, on values: consistency, and what removing transactions means. */
module MemPool {
  import opened Basics

  datatype OutPoint = OutPoint(hash: Hash, n: nat)

  /** A transaction: its hash, the outputs it spends, and how many outputs it has. */
  datatype Tx = Tx(hash: Hash, vin: seq<OutPoint>, nOut: nat)

  /** A pool entry: the transaction, its size and fee, and its priority and the height when it came in. */
  datatype Entry = Entry(tx: Tx, size: nat, fee: int, priority: real, height: nat)

  /** Which input of which pool transaction spends an output. */
  datatype InPoint = InPoint(hash: Hash, n: nat)

  type Txs = map<Hash, Entry>

  datatype Pool = Pool(txs: Txs, next: map<OutPoint, InPoint>, total: int)

  // ---------------------------------------------------------------- total size

  ghost function SumSizes(txs: Txs): nat
    decreases |txs|
  {
    if txs == map[] then 0 else
      var h :| h in txs;
      txs[h].size + SumSizes(txs - {h})
  }

  lemma {:induction false} SumRemove(txs: Txs, h: Hash)
    requires h in txs
    ensures SumSizes(txs) == txs[h].size + SumSizes(txs - {h})
    decreases |txs|
  {
    var g :| g in txs && SumSizes(txs) == txs[g].size + SumSizes(txs - {g});
    if g != h {
      SumRemove(txs - {g}, h);
      SumRemove(txs - {h}, g);
      assert txs - {g} - {h} == txs - {h} - {g};
    }
  }

  // ---------------------------------------------------------------- consistency

  /** Every input of every pool transaction is recorded, as its own. */
  ghost predicate InputsRecorded(txs: Txs, next: map<OutPoint, InPoint>) {
    forall h, i :: h in txs && 0 <= i < |txs[h].tx.vin| ==>
      txs[h].tx.vin[i] in next && next[txs[h].tx.vin[i]] == InPoint(h, i)
  }

  /** Every record is of an input of a pool transaction. */
  ghost predicate RecordsAreInputs(txs: Txs, next: map<OutPoint, InPoint>) {
    forall op :: op in next ==>
      && next[op].hash in txs
      && next[op].n < |txs[next[op].hash].tx.vin|
      && txs[next[op].hash].tx.vin[next[op].n] == op
  }

  ghost predicate KeyedByHash(txs: Txs) {
    forall h :: h in txs ==> txs[h].tx.hash == h
  }

  /** What the pool's own sanity check asserts of the two maps and the total. */
  ghost predicate Consistent(p: Pool) {
    && KeyedByHash(p.txs)
    && InputsRecorded(p.txs, p.next)
    && RecordsAreInputs(p.txs, p.next)
    && p.total == SumSizes(p.txs)
  }

  // ---------------------------------------------------------------- spending

  /** Transaction c spends one of p's outputs. */
  predicate Spends(c: Tx, p: Tx) {
    exists i :: 0 <= i < |c.vin| && c.vin[i].hash == p.hash && c.vin[i].n < p.nOut
  }

  /** A set of pool transactions with every pool transaction that spends an output of one of them. */
  ghost predicate Closed(txs: Txs, C: set<Hash>) {
    forall p, c :: p in C && p in txs && c in txs && Spends(txs[c].tx, txs[p].tx) ==> c in C
  }

  /** R is the least such set that contains the roots. */
  ghost predicate IsClosure(txs: Txs, roots: set<Hash>, R: set<Hash>) {
    && R <= txs.Keys
    && roots * txs.Keys <= R
    && Closed(txs, R)
    && forall C :: Closed(txs, C) && roots * txs.Keys <= C ==> R <= C
  }

  /** h is reached from a root by a chain of pool transactions, each spending the one before. */
  ghost predicate Reached(txs: Txs, roots: set<Hash>, chain: seq<Hash>, h: Hash) {
    && chain != [] && chain[0] in roots && chain[|chain| - 1] == h
    && (forall i :: 0 <= i < |chain| ==> chain[i] in txs)
    && forall i :: 0 <= i < |chain| - 1 ==> Spends(txs[chain[i + 1]].tx, txs[chain[i]].tx)
  }

  lemma {:induction false} ChainStaysInside(txs: Txs, roots: set<Hash>, R: set<Hash>, chain: seq<Hash>, k: nat)
    requires Closed(txs, R) && roots * txs.Keys <= R && k < |chain| && Reached(txs, roots, chain, chain[|chain| - 1])
    ensures chain[k] in R
  {
    if k > 0 {
      ChainStaysInside(txs, roots, R, chain, k - 1);
      assert Spends(txs[chain[k - 1 + 1]].tx, txs[chain[k - 1]].tx);
    }
  }

  lemma ReachedStep(txs: Txs, roots: set<Hash>, chain: seq<Hash>, p: Hash, c: Hash)
    requires Reached(txs, roots, chain, p) && c in txs && Spends(txs[c].tx, txs[p].tx)
    ensures Reached(txs, roots, chain + [c], c)
  {
  }

  /** The closure is what chains of spending reach: the roots in the pool and their pool descendants. */
  lemma ClosureIsDescendants(txs: Txs, roots: set<Hash>, R: set<Hash>)
    requires IsClosure(txs, roots, R)
    ensures forall h :: h in R <==> exists chain :: Reached(txs, roots, chain, h)
  {
    var D := set h | h in txs && exists chain :: Reached(txs, roots, chain, h);
    forall p, c | p in D && p in txs && c in txs && Spends(txs[c].tx, txs[p].tx)
      ensures c in D
    {
      var chain :| Reached(txs, roots, chain, p);
      ReachedStep(txs, roots, chain, p, c);
    }
    forall h | h in roots * txs.Keys
      ensures h in D
    {
      assert Reached(txs, roots, [h], h);
    }
    assert R <= D;
    forall h, chain | Reached(txs, roots, chain, h)
      ensures h in R
    {
      ChainStaysInside(txs, roots, R, chain, |chain| - 1);
    }
  }

  lemma ClosureUnique(txs: Txs, roots: set<Hash>, R: set<Hash>, S: set<Hash>)
    requires IsClosure(txs, roots, R) && IsClosure(txs, roots, S)
    ensures R == S
  {
    assert R <= S && S <= R;
  }

  /** Removing one closure and then another from what is left removes the closure of both. */
  lemma ClosureUnion(txs: Txs, S1: set<Hash>, R1: set<Hash>, S2: set<Hash>, R2: set<Hash>)
    requires IsClosure(txs, S1, R1) && IsClosure(txs - R1, S2, R2)
    ensures IsClosure(txs, S1 + S2, R1 + R2)
  {
    forall C | Closed(txs, C) && (S1 + S2) * txs.Keys <= C
      ensures R1 + R2 <= C
    {
      assert S1 * txs.Keys <= C;
      assert R1 <= C;
      assert Closed(txs - R1, C);
      assert S2 * (txs - R1).Keys <= C;
      assert R2 <= C;
    }
  }

  // ---------------------------------------------------------------- removal

  /** The pool without the transactions in R and their input records. */
  ghost function Without(p: Pool, R: set<Hash>): Pool {
    Pool(p.txs - R, map op | op in p.next && p.next[op].hash !in R :: p.next[op], SumSizes(p.txs - R))
  }

  lemma WithoutConsistent(p: Pool, R: set<Hash>)
    requires Consistent(p)
    ensures Consistent(Without(p, R))
  {
  }

  lemma WithoutNothing(p: Pool)
    requires Consistent(p)
    ensures Without(p, {}) == p
  {
    assert p.txs - {} == p.txs;
  }

  lemma WithoutTwice(p: Pool, R: set<Hash>, S: set<Hash>)
    ensures Without(Without(p, R), S) == Without(p, R + S)
  {
    assert p.txs - R - S == p.txs - (R + S);
  }

  function Inputs(tx: Tx): set<OutPoint> { set op | op in tx.vin }

  /** Erasing a transaction, its inputs and its size, as the pool does it, is the removal of that transaction. */
  lemma EraseOne(p: Pool, h: Hash)
    requires Consistent(p) && h in p.txs
    ensures Without(p, {h}) == Pool(p.txs - {h}, p.next - Inputs(p.txs[h].tx), p.total - p.txs[h].size)
  {
    SumRemove(p.txs, h);
    var a, b := Without(p, {h}).next, p.next - Inputs(p.txs[h].tx);
    forall op | op in p.next
      ensures p.next[op].hash == h <==> op in Inputs(p.txs[h].tx)
    {
      if op in Inputs(p.txs[h].tx) {
        var i :| 0 <= i < |p.txs[h].tx.vin| && p.txs[h].tx.vin[i] == op;
      }
    }
    assert a == b;
  }

  /** The pool transactions recorded as spending an output of (hash, nOut). */
  ghost predicate RecordedSpender(next: map<OutPoint, InPoint>, hash: Hash, nOut: nat, c: Hash) {
    exists i :: 0 <= i < nOut && OutPoint(hash, i) in next && next[OutPoint(hash, i)].hash == c
  }

  /** In a consistent pool the records find exactly the spenders. */
  lemma SpendersRecorded(p: Pool, tx: Tx, c: Hash)
    requires Consistent(p)
    ensures RecordedSpender(p.next, tx.hash, tx.nOut, c) <==> c in p.txs && Spends(p.txs[c].tx, tx)
  {
    if RecordedSpender(p.next, tx.hash, tx.nOut, c) {
      var i :| 0 <= i < tx.nOut && OutPoint(tx.hash, i) in p.next && p.next[OutPoint(tx.hash, i)].hash == c;
      var j := p.next[OutPoint(tx.hash, i)].n;
      assert p.txs[c].tx.vin[j] == OutPoint(tx.hash, i);
    }
    if c in p.txs && Spends(p.txs[c].tx, tx) {
      var j :| 0 <= j < |p.txs[c].tx.vin| && p.txs[c].tx.vin[j].hash == tx.hash && p.txs[c].tx.vin[j].n < tx.nOut;
      var op := p.txs[c].tx.vin[j];
      assert op in p.next && p.next[op] == InPoint(c, j);
      assert op == OutPoint(tx.hash, op.n);
    }
  }

  /** Where recursive removal starts: the transaction, and its spenders if it is not itself in the pool. */
  ghost function Roots(txs: Txs, tx: Tx): set<Hash> {
    if tx.hash in txs then {tx.hash} else {tx.hash} + set c | c in txs && Spends(txs[c].tx, tx)
  }

  /** After a recursive removal nothing left in the pool spends an output of the origin or of anything removed. */
  lemma NoSpenderLeft(txs: Txs, tx: Tx, R: set<Hash>)
    requires KeyedByHash(txs) && IsClosure(txs, Roots(txs, tx), R)
    requires tx.hash in txs ==> txs[tx.hash].tx == tx
    ensures forall c :: c in txs - R ==> !Spends(txs[c].tx, tx)
    ensures forall c, p :: c in txs - R && p in R ==> !Spends(txs[c].tx, txs[p].tx)
  {
    forall c | c in txs - R ensures !Spends(txs[c].tx, tx) {
      if tx.hash in txs {
        assert tx.hash in Roots(txs, tx) * txs.Keys;
      } else {
        assert c !in Roots(txs, tx) * txs.Keys;
      }
    }
  }

  // ---------------------------------------------------------------- conflicts

  predicate SharesInput(a: Tx, b: Tx) {
    exists i, j :: 0 <= i < |a.vin| && 0 <= j < |b.vin| && a.vin[i] == b.vin[j]
  }

  /** The other pool transactions that spend an output that tx spends. */
  ghost function Conflicts(txs: Txs, tx: Tx): set<Hash> {
    set h | h in txs && h != tx.hash && SharesInput(txs[h].tx, tx)
  }

  ghost function AllConflicts(txs: Txs, vtx: seq<Tx>): set<Hash> {
    set h, k | h in txs && 0 <= k < |vtx| && h in Conflicts(txs, vtx[k]) :: h
  }

  // ---------------------------------------------------------------- addition

  /** The records after adding the first k inputs of a transaction. */
  function AddRecords(next: map<OutPoint, InPoint>, tx: Tx, h: Hash, k: nat): map<OutPoint, InPoint>
    requires k <= |tx.vin|
  {
    if k == 0 then next else AddRecords(next, tx, h, k - 1)[tx.vin[k - 1] := InPoint(h, k - 1)]
  }

  function AddEntry(p: Pool, h: Hash, e: Entry): Pool {
    Pool(p.txs[h := e], AddRecords(p.next, e.tx, h, |e.tx.vin|), p.total + e.size)
  }

  /** No input twice, and none that the pool already spends. */
  ghost predicate ConflictFree(p: Pool, tx: Tx) {
    && (forall i :: 0 <= i < |tx.vin| ==> tx.vin[i] !in p.next)
    && (forall i, j :: 0 <= i < j < |tx.vin| ==> tx.vin[i] != tx.vin[j])
  }

  /** ip is the last of the first k inputs that spends op. */
  ghost predicate LastSpender(tx: Tx, h: Hash, k: nat, op: OutPoint, ip: InPoint)
    requires k <= |tx.vin|
  {
    ip.hash == h && ip.n < k && tx.vin[ip.n] == op && forall j :: ip.n < j < k ==> tx.vin[j] != op
  }

  lemma {:induction false} AddRecordsAt(next: map<OutPoint, InPoint>, tx: Tx, h: Hash, k: nat, op: OutPoint)
    requires k <= |tx.vin|
    ensures op in AddRecords(next, tx, h, k) <==> op in next || op in tx.vin[..k]
    ensures op in tx.vin[..k] ==> LastSpender(tx, h, k, op, AddRecords(next, tx, h, k)[op])
    ensures op !in tx.vin[..k] && op in next ==> AddRecords(next, tx, h, k)[op] == next[op]
  {
    if k > 0 {
      AddRecordsAt(next, tx, h, k - 1, op);
      assert tx.vin[..k] == tx.vin[..k - 1] + [tx.vin[k - 1]];
    }
  }

  lemma AddedAt(p: Pool, h: Hash, e: Entry, op: OutPoint)
    ensures var q := AddEntry(p, h, e);
            && (op in q.next <==> op in p.next || op in e.tx.vin)
            && (op in e.tx.vin ==> LastSpender(e.tx, h, |e.tx.vin|, op, q.next[op]))
            && (op !in e.tx.vin && op in p.next ==> q.next[op] == p.next[op])
  {
    hide AddRecords, LastSpender;
    AddRecordsAt(p.next, e.tx, h, |e.tx.vin|, op);
    assert e.tx.vin[..|e.tx.vin|] == e.tx.vin;
  }

  /** Adding a fresh transaction keeps the pool consistent exactly when it conflicts with nothing, itself included. */
  lemma AddKeepsConsistent(p: Pool, h: Hash, e: Entry)
    requires Consistent(p) && h !in p.txs && e.tx.hash == h
    ensures Consistent(AddEntry(p, h, e)) <==> ConflictFree(p, e.tx)
  {
    hide Consistent, ConflictFree;
    if ConflictFree(p, e.tx) {
      ConflictFreeKeeps(p, h, e);
    }
    if Consistent(AddEntry(p, h, e)) {
      ConflictBreaks(p, h, e);
    }
  }

  lemma ConflictFreeKeeps(p: Pool, h: Hash, e: Entry)
    requires Consistent(p) && h !in p.txs && e.tx.hash == h && ConflictFree(p, e.tx)
    ensures Consistent(AddEntry(p, h, e))
  {
    hide InputsRecorded, RecordsAreInputs, SumSizes, ConflictFree, AddRecords;
    AddedInputs(p, h, e);
    AddedRecords(p, h, e);
    AddedTotal(p, h, e);
  }

  lemma AddedInputs(p: Pool, h: Hash, e: Entry)
    requires InputsRecorded(p.txs, p.next) && h !in p.txs && ConflictFree(p, e.tx)
    ensures InputsRecorded(AddEntry(p, h, e).txs, AddEntry(p, h, e).next)
  {
    hide AddRecords;
    var q := AddEntry(p, h, e);
    forall g, i | g in q.txs && 0 <= i < |q.txs[g].tx.vin|
      ensures q.txs[g].tx.vin[i] in q.next && q.next[q.txs[g].tx.vin[i]] == InPoint(g, i)
    {
      AddedAt(p, h, e, q.txs[g].tx.vin[i]);
    }
  }

  lemma AddedRecords(p: Pool, h: Hash, e: Entry)
    requires RecordsAreInputs(p.txs, p.next) && h !in p.txs
    ensures RecordsAreInputs(AddEntry(p, h, e).txs, AddEntry(p, h, e).next)
  {
    hide AddRecords;
    var q := AddEntry(p, h, e);
    forall op | op in q.next
      ensures && q.next[op].hash in q.txs
              && q.next[op].n < |q.txs[q.next[op].hash].tx.vin|
              && q.txs[q.next[op].hash].tx.vin[q.next[op].n] == op
    {
      AddedAt(p, h, e, op);
    }
  }

  lemma AddedTotal(p: Pool, h: Hash, e: Entry)
    requires p.total == SumSizes(p.txs) && h !in p.txs
    ensures AddEntry(p, h, e).total == SumSizes(AddEntry(p, h, e).txs)
  {
    hide AddRecords;
    var q := AddEntry(p, h, e);
    SumRemove(q.txs, h);
    assert q.txs - {h} == p.txs;
  }

  lemma ConflictBreaks(p: Pool, h: Hash, e: Entry)
    requires Consistent(p) && h !in p.txs && e.tx.hash == h && Consistent(AddEntry(p, h, e))
    ensures ConflictFree(p, e.tx)
  {
    var q := AddEntry(p, h, e);
    forall i | 0 <= i < |e.tx.vin| ensures e.tx.vin[i] !in p.next {
      var op := e.tx.vin[i];
      assert q.txs[h].tx.vin[i] == op;
    }
    forall i, j | 0 <= i < j < |e.tx.vin| ensures e.tx.vin[i] != e.tx.vin[j] {
      assert q.next[q.txs[h].tx.vin[i]] == InPoint(h, i);
      assert q.next[q.txs[h].tx.vin[j]] == InPoint(h, j);
    }
  }

  // ---------------------------------------------------------------- outputs that inputs name

  /** An input whose transaction is in the pool names one of its outputs. */
  ghost predicate OutputsExist(txs: Txs) {
    forall c, i :: c in txs && 0 <= i < |txs[c].tx.vin| ==> NamesOutput(txs, txs[c].tx.vin[i])
  }

  ghost predicate NamesOutput(txs: Txs, op: OutPoint) {
    op.hash in txs ==> op.n < txs[op.hash].tx.nOut
  }

  /** Every removal keeps that. */
  lemma RemovalKeepsOutputs(p: Pool, R: set<Hash>)
    requires OutputsExist(p.txs)
    ensures OutputsExist(Without(p, R).txs)
  {
    var txs := Without(p, R).txs;
    forall c, i | c in txs && 0 <= i < |txs[c].tx.vin| ensures NamesOutput(txs, txs[c].tx.vin[i]) {
      assert NamesOutput(p.txs, p.txs[c].tx.vin[i]);
    }
  }

  /** The inputs of a new transaction name outputs that exist, and so do the pool's inputs that name the new one. */
  ghost predicate OutputsMatch(txs: Txs, h: Hash, e: Entry) {
    && (forall i :: 0 <= i < |e.tx.vin| ==> NamesOutput(txs[h := e], e.tx.vin[i]))
    && forall c, i :: c in txs && 0 <= i < |txs[c].tx.vin| && txs[c].tx.vin[i].hash == h ==> txs[c].tx.vin[i].n < e.tx.nOut
  }

  /** Adding a fresh transaction keeps it exactly under that condition. */
  lemma AddKeepsOutputs(txs: Txs, h: Hash, e: Entry)
    requires OutputsExist(txs) && h !in txs
    ensures OutputsExist(txs[h := e]) <==> OutputsMatch(txs, h, e)
  {
    var now := txs[h := e];
    if OutputsExist(now) {
      forall i | 0 <= i < |e.tx.vin| ensures NamesOutput(now, e.tx.vin[i]) {
        assert now[h].tx.vin[i] == e.tx.vin[i];
      }
      forall c, i | c in txs && 0 <= i < |txs[c].tx.vin| && txs[c].tx.vin[i].hash == h ensures txs[c].tx.vin[i].n < e.tx.nOut {
        assert NamesOutput(now, now[c].tx.vin[i]);
      }
    }
    if OutputsMatch(txs, h, e) {
      forall c, i | c in now && 0 <= i < |now[c].tx.vin| ensures NamesOutput(now, now[c].tx.vin[i]) {
        if c != h {
          assert NamesOutput(txs, txs[c].tx.vin[i]);
        }
      }
    }
  }
}
