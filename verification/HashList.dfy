/**
 The ordered list of pool hashes.  Adding appends, except after a shift, which opens a hole
 of empty rows at the front for the transactions of a disconnected block to come back into.
 */
module HashList {
  import opened Basics

  /** The rows, and the row that the next hash goes to. */
  datatype List = List(rows: seq<Hash>, pos: nat)

  function Put(l: List, h: Hash): List {
    if l.pos < |l.rows| then List(l.rows[l.pos := h], l.pos + 1)
    else List(l.rows + [h], |l.rows| + 1)
  }

  /** Open `rows` rows at the front.  They are zeroed only if there was something to move: in an empty list they are stale memory. */
  function Shift(l: List, stale: seq<Hash>): List {
    List(if l.rows == [] then stale else seq(|stale|, _ => 0) + l.rows, 0)
  }

  /** The rows whose hash is in the pool, in order. */
  function Filter(rows: seq<Hash>, keys: set<Hash>): seq<Hash> {
    if rows == [] then [] else
      var k := |rows| - 1;
      if rows[k] in keys then Filter(rows[..k], keys) + [rows[k]] else Filter(rows[..k], keys)
  }

  function Defragment(l: List, keys: set<Hash>): List {
    var rows := Filter(l.rows, keys);
    List(rows, |rows|)
  }

  /** Every pool transaction is listed. */
  ghost predicate Covers(rows: seq<Hash>, keys: set<Hash>) {
    forall h :: h in keys ==> h in rows
  }

  lemma {:induction false} FilterMembers(rows: seq<Hash>, keys: set<Hash>)
    ensures forall h :: h in Filter(rows, keys) <==> h in rows && h in keys
    ensures |Filter(rows, keys)| <= |rows|
  {
    if rows != [] {
      var k := |rows| - 1;
      FilterMembers(rows[..k], keys);
      assert rows == rows[..k] + [rows[k]];
    }
  }

  /** Strictly increasing positions below n. */
  ghost predicate Ascending(ps: seq<nat>, n: nat) {
    && (forall i :: 0 <= i < |ps| ==> ps[i] < n)
    && (forall i, j :: 0 <= i < j < |ps| ==> ps[i] < ps[j])
  }

  /** The positions of the rows in the pool. */
  function Positions(rows: seq<Hash>, keys: set<Hash>): seq<nat> {
    if rows == [] then [] else
      var k := |rows| - 1;
      Positions(rows[..k], keys) + if rows[k] in keys then [k] else []
  }

  lemma {:induction false} PositionsAscend(rows: seq<Hash>, keys: set<Hash>)
    ensures Ascending(Positions(rows, keys), |rows|)
  {
    if rows != [] {
      PositionsAscend(rows[..|rows| - 1], keys);
    }
  }

  lemma {:induction false} PositionsComplete(rows: seq<Hash>, keys: set<Hash>, p: nat)
    requires p < |rows|
    ensures p in Positions(rows, keys) <==> rows[p] in keys
  {
    var k := |rows| - 1;
    PositionsAscend(rows[..k], keys);
    if p < k {
      PositionsComplete(rows[..k], keys, p);
    }
  }

  /** Filtering takes exactly the rows of pool hashes, in the order in which they stand. */
  lemma {:induction false} FilterInOrder(rows: seq<Hash>, keys: set<Hash>, i: nat)
    ensures Ascending(Positions(rows, keys), |rows|) && |Positions(rows, keys)| == |Filter(rows, keys)|
    ensures i < |Filter(rows, keys)| ==> Positions(rows, keys)[i] < |rows| && Filter(rows, keys)[i] == rows[Positions(rows, keys)[i]]
    ensures i < |rows| ==> (i in Positions(rows, keys) <==> rows[i] in keys)
  {
    PositionsAscend(rows, keys);
    if i < |rows| {
      PositionsComplete(rows, keys, i);
    }
    FilterAt(rows, keys, i);
  }

  lemma {:induction false} FilterAt(rows: seq<Hash>, keys: set<Hash>, i: nat)
    ensures |Positions(rows, keys)| == |Filter(rows, keys)|
    ensures i < |Filter(rows, keys)| ==> Positions(rows, keys)[i] < |rows| && Filter(rows, keys)[i] == rows[Positions(rows, keys)[i]]
  {
    if rows != [] {
      var k := |rows| - 1;
      FilterAt(rows[..k], keys, i);
    }
  }

  /** An addition writes one row and leaves every other one where it is. */
  lemma PutInPlace(l: List, h: Hash)
    ensures var at, r := Min(l.pos, |l.rows|), Put(l, h);
            && r.pos == at + 1 && |r.rows| == Max(|l.rows|, at + 1) && r.rows[at] == h
            && forall i :: 0 <= i < |l.rows| && i != at ==> r.rows[i] == l.rows[i]
  {
  }

  /** A shift moves the rows of a list back together, behind empty ones. */
  lemma ShiftInPlace(l: List, stale: seq<Hash>)
    requires l.rows != []
    ensures var r := Shift(l, stale);
            && r.pos == 0 && |r.rows| == |stale| + |l.rows| && r.rows[|stale|..] == l.rows
            && forall i :: 0 <= i < |stale| ==> r.rows[i] == 0
  {
  }

  /** Filtering keeps the multiplicity of every pool hash and drops every other hash. */
  lemma {:induction false} FilterCounts(rows: seq<Hash>, keys: set<Hash>, h: Hash)
    ensures multiset(Filter(rows, keys))[h] == if h in keys then multiset(rows)[h] else 0
  {
    if rows != [] {
      var k := |rows| - 1;
      FilterCounts(rows[..k], keys, h);
      assert rows == rows[..k] + [rows[k]];
    }
  }

  /** Adding a hash loses another one exactly when it overwrites the only row of a pool transaction. */
  lemma PutExact(l: List, keys: set<Hash>, h: Hash)
    requires Covers(l.rows, keys)
    ensures Covers(Put(l, h).rows, keys + {h}) <==>
            (l.pos < |l.rows| && l.rows[l.pos] in keys && l.rows[l.pos] != h ==>
               exists i :: 0 <= i < |l.rows| && i != l.pos && l.rows[i] == l.rows[l.pos])
  {
    var r := Put(l, h).rows;
    if l.pos < |l.rows| {
      var lost := l.rows[l.pos];
      assert r[l.pos] == h;
      forall g | g in keys && g != lost ensures g in r {
        var i :| 0 <= i < |l.rows| && l.rows[i] == g;
        assert r[i] == g;
      }
      if i :| 0 <= i < |l.rows| && i != l.pos && l.rows[i] == lost {
        assert r[i] == lost;
      }
      if lost in r && lost != h {
        var i :| 0 <= i < |r| && r[i] == lost;
        assert i != l.pos;
      }
    } else {
      assert r[|l.rows|] == h;
    }
  }

  // ---------------------------------------------------------------- runs

  datatype Op =
    | AddTx(h: Hash)
    | RemoveTx(h: Hash)
    | OpenHole(stale: seq<Hash>)
    | Compact
    | ClearAll

  datatype State = State(keys: set<Hash>, l: List)

  function Apply(s: State, op: Op): State {
    match op
    case AddTx(h) => State(s.keys + {h}, Put(s.l, h))
    case RemoveTx(h) => State(s.keys - {h}, s.l)
    case OpenHole(stale) => State(s.keys, Shift(s.l, stale))
    case Compact => State(s.keys, Defragment(s.l, s.keys))
    case ClearAll => State({}, List([], 0))
  }

  function Run(ops: seq<Op>): State {
    if ops == [] then State({}, List([], 0)) else Apply(Run(ops[..|ops| - 1]), ops[|ops| - 1])
  }

  /** How many additions the last shift left room for since then, if no compaction came in between. */
  function Room(ops: seq<Op>): Option<int> {
    if ops == [] then None else
      var before := Room(ops[..|ops| - 1]);
      match ops[|ops| - 1]
      case AddTx(_) => if before.None? then None else Some(before.value - 1)
      case RemoveTx(_) => before
      case OpenHole(stale) => Some(|stale|)
      case Compact => None
      case ClearAll => None
  }

  /** Between a shift by k rows and the next compaction at most k transactions are added. */
  ghost predicate WithinRoom(ops: seq<Op>) {
    ops == [] || (WithinRoom(ops[..|ops| - 1]) && (Room(ops).Some? ==> Room(ops).value >= 0))
  }

  /** The live rows are those before the next position and those after the hole. */
  ghost predicate LiveCovers(s: State, room: Option<int>) {
    var end := if room.None? then |s.l.rows| else s.l.pos + room.value;
    && 0 <= s.l.pos <= end <= |s.l.rows|
    && (room.None? ==> s.l.pos == |s.l.rows|)
    && forall h :: h in s.keys ==> exists i :: 0 <= i < |s.l.rows| && (i < s.l.pos || i >= end) && s.l.rows[i] == h
  }

  lemma LiveAdd(s: State, room: Option<int>, h: Hash)
    requires LiveCovers(s, room) && (room.Some? ==> room.value > 0)
    ensures LiveCovers(Apply(s, AddTx(h)), if room.None? then None else Some(room.value - 1))
  {
    var s' := Apply(s, AddTx(h));
    var r, p, end := s.l.rows, s.l.pos, if room.None? then |s.l.rows| else s.l.pos + room.value;
    assert s'.l.rows[p] == h;
    forall g | g in s.keys
      ensures exists i :: 0 <= i < |s'.l.rows| && (i < s'.l.pos || (room.Some? && i >= end)) && s'.l.rows[i] == g
    {
      var i :| 0 <= i < |r| && (i < p || i >= end) && r[i] == g;
      assert s'.l.rows[i] == g;
    }
  }

  lemma LiveShift(s: State, room: Option<int>, stale: seq<Hash>)
    requires LiveCovers(s, room)
    ensures LiveCovers(Apply(s, OpenHole(stale)), Some(|stale|))
  {
    var s' := Apply(s, OpenHole(stale));
    forall g | g in s.keys
      ensures exists i :: 0 <= i < |s'.l.rows| && i >= |stale| && s'.l.rows[i] == g
    {
      var i :| 0 <= i < |s.l.rows| && s.l.rows[i] == g;
      assert s'.l.rows[|stale| + i] == g;
    }
  }

  lemma LiveCompact(s: State, room: Option<int>)
    requires LiveCovers(s, room)
    ensures LiveCovers(Apply(s, Compact), None)
  {
    FilterMembers(s.l.rows, s.keys);
    var rows := Filter(s.l.rows, s.keys);
    forall g | g in s.keys
      ensures exists i :: 0 <= i < |rows| && i < |rows| && rows[i] == g
    {
      assert g in s.l.rows;
      assert g in rows;
    }
  }

  lemma {:induction false} RunLive(ops: seq<Op>)
    requires WithinRoom(ops)
    ensures LiveCovers(Run(ops), Room(ops))
  {
    if ops != [] {
      var k := |ops| - 1;
      RunLive(ops[..k]);
      var s, room := Run(ops[..k]), Room(ops[..k]);
      match ops[k]
      case AddTx(h) => LiveAdd(s, room, h);
      case RemoveTx(h) =>
        assert Apply(s, ops[k]).l == s.l && Apply(s, ops[k]).keys <= s.keys;
      case OpenHole(stale) => LiveShift(s, room, stale);
      case Compact => LiveCompact(s, room);
      case ClearAll =>
    }
  }

  /** Over any such run the list keeps every pool transaction. */
  lemma RunCovers(ops: seq<Op>)
    requires WithinRoom(ops)
    ensures Covers(Run(ops).l.rows, Run(ops).keys)
  {
    RunLive(ops);
  }

  /** One addition too many after a shift loses the transaction behind the hole. */
  lemma OneTooMany(a: Hash, b: Hash, c: Hash)
    requires a != b && a != c && a != 0
    ensures var ops := [AddTx(a), OpenHole([0]), AddTx(b), AddTx(c)];
            !WithinRoom(ops) && a in Run(ops).keys && a !in Run(ops).l.rows
  {
    var ops := [AddTx(a), OpenHole([0]), AddTx(b), AddTx(c)];
    assert ops[..3] == [AddTx(a), OpenHole([0]), AddTx(b)];
    assert ops[..3][..2] == [AddTx(a), OpenHole([0])];
    assert ops[..3][..2][..1] == [AddTx(a)];
    assert ops[..3][..2][..1][..0] == [];
    assert Run([AddTx(a)]) == State({} + {a}, List([] + [a], 1));
    assert Run([AddTx(a), OpenHole([0])]).l == List([0, a], 0);
    assert Run(ops[..3]).l == List([b, a], 1);
    assert Run(ops).l == List([b, c], 2);
    assert Room([AddTx(a), OpenHole([0])]) == Some(1);
    assert Room(ops[..3]) == Some(0);
    assert Room(ops) == Some(-1);
  }

  // ---------------------------------------------------------------- listed once

  /** How often a hash is listed. */
  function Count(rows: seq<Hash>, h: Hash): nat { multiset(rows)[h] }

  ghost predicate ListedOnce(s: State) {
    forall h :: h in s.keys ==> Count(s.l.rows, h) == 1
  }

  lemma CountUpdate(rows: seq<Hash>, i: nat, x: Hash, h: Hash)
    requires i < |rows|
    ensures Count(rows[i := x], h) == Count(rows, h) - (if rows[i] == h then 1 else 0) + (if x == h then 1 else 0)
  {
    assert rows == rows[..i] + [rows[i]] + rows[i + 1..];
    assert rows[i := x] == rows[..i] + [x] + rows[i + 1..];
  }

  /** How often a hash is listed apart from the row that the next addition overwrites. */
  function OtherRows(l: List, h: Hash): nat {
    if l.pos < |l.rows| && l.rows[l.pos] == h then Max(Count(l.rows, h) - 1, 0) else Count(l.rows, h)
  }

  /** An addition counts its hash once more than the rows it leaves, and every other hash as those do. */
  lemma PutCounts(l: List, g: Hash, h: Hash)
    ensures Count(Put(l, g).rows, h) == OtherRows(l, h) + if g == h then 1 else 0
  {
    if l.pos < |l.rows| {
      CountUpdate(l.rows, l.pos, g, h);
    }
  }

  /** Every addition is of a hash without another row. */
  ghost predicate FreshAdds(ops: seq<Op>) {
    ops == [] ||
    var before := ops[..|ops| - 1];
    FreshAdds(before) && (ops[|ops| - 1].AddTx? ==> OtherRows(Run(before).l, ops[|ops| - 1].h) == 0)
  }

  /** No hash is the zero that marks an empty row. */
  ghost predicate NoZero(ops: seq<Op>) {
    forall i :: 0 <= i < |ops| && ops[i].AddTx? ==> ops[i].h != 0
  }

  lemma {:induction false} KeysNotZero(ops: seq<Op>)
    requires NoZero(ops)
    ensures 0 !in Run(ops).keys
  {
    if ops != [] {
      KeysNotZero(ops[..|ops| - 1]);
    }
  }

  lemma ShiftCounts(l: List, stale: seq<Hash>, h: Hash)
    requires l.rows != [] && h != 0
    ensures Count(Shift(l, stale).rows, h) == Count(l.rows, h)
  {
    var zeros: seq<Hash> := seq(|stale|, _ => 0);
    assert h !in zeros;
  }

  /** One operation keeps every pool hash listed once, an addition exactly when its hash has no other row. */
  lemma OnceStep(s: State, op: Op)
    requires ListedOnce(s) && Covers(s.l.rows, s.keys) && Covers(Apply(s, op).l.rows, Apply(s, op).keys)
    requires 0 !in s.keys
    ensures ListedOnce(Apply(s, op)) <==> (op.AddTx? ==> OtherRows(s.l, op.h) == 0)
  {
    var s' := Apply(s, op);
    hide Count, Filter, Covers, Put, OtherRows, Shift;
    match op
    case AddTx(g) =>
      PutCounts(s.l, g, g);
      forall h | h in s.keys && h != g ensures Count(s'.l.rows, h) == 1 {
        PutCounts(s.l, g, h);
        StillListed(s'.l.rows, s'.keys, h);
        OtherAtMost(s.l, h);
      }
    case RemoveTx(g) =>
    case OpenHole(stale) =>
      forall h | h in s.keys ensures Count(s'.l.rows, h) == 1 {
        StillListed(s.l.rows, s.keys, h);
        Listed(s.l.rows, h);
        ShiftCounts(s.l, stale, h);
      }
    case Compact =>
      forall h | h in s.keys ensures Count(s'.l.rows, h) == 1 {
        CompactCounts(s.l, s.keys, h);
      }
    case ClearAll =>
  }

  lemma StillListed(rows: seq<Hash>, keys: set<Hash>, h: Hash)
    requires Covers(rows, keys) && h in keys
    ensures Count(rows, h) > 0
  {
  }

  lemma Listed(rows: seq<Hash>, h: Hash)
    requires Count(rows, h) > 0
    ensures rows != []
  {
  }

  lemma OtherAtMost(l: List, h: Hash)
    ensures OtherRows(l, h) <= Count(l.rows, h)
  {
  }

  lemma CompactCounts(l: List, keys: set<Hash>, h: Hash)
    requires h in keys
    ensures Count(Defragment(l, keys).rows, h) == Count(l.rows, h)
  {
    FilterCounts(l.rows, keys, h);
  }

  /** Every pool hash is listed exactly once, now and after every operation before. */
  ghost predicate AlwaysOnce(ops: seq<Op>) {
    ListedOnce(Run(ops)) && (ops == [] || AlwaysOnce(ops[..|ops| - 1]))
  }

  /** Within the room, every pool hash is listed exactly once all along a run exactly when every addition is fresh. */
  lemma {:induction false} RunListsOnce(ops: seq<Op>)
    requires WithinRoom(ops) && NoZero(ops)
    ensures FreshAdds(ops) <==> AlwaysOnce(ops)
    decreases |ops|
  {
    hide ListedOnce, OtherRows, Covers, NoZero;
    if ops == [] {
      NoneListed();
    } else {
      var n := |ops| - 1;
      var before := ops[..n];
      ZeroBefore(ops);
      RunListsOnce(before);
      RunCovers(before);
      RunCovers(ops);
      KeysNotZero(before);
      if ListedOnce(Run(before)) {
        OnceStep(Run(before), ops[n]);
      }
    }
  }

  lemma ZeroBefore(ops: seq<Op>)
    requires NoZero(ops) && ops != []
    ensures NoZero(ops[..|ops| - 1])
  {
  }

  lemma NoneListed()
    ensures ListedOnce(Run([]))
  {
  }

  /** A transaction that leaves the pool and comes back before a compaction is listed twice, also after it. */
  lemma ListedTwice(a: Hash)
    ensures var ops := [AddTx(a), RemoveTx(a), AddTx(a), Compact];
            WithinRoom(ops) && !FreshAdds(ops) && Run(ops) == State({a}, List([a, a], 2))
  {
    var ops := [AddTx(a), RemoveTx(a), AddTx(a), Compact];
    var o1, o2, o3 := ops[..1], ops[..2], ops[..3];
    assert o3[..2] == o2 && o2[..1] == o1 && o1[..0] == [];
    assert Room(o1).None? && Room(o2).None? && Room(o3).None?;
    assert WithinRoom(o1) && WithinRoom(o2) && WithinRoom(o3);
    assert Run(o1) == State({a}, List([a], 1));
    assert Run(o2) == State({}, List([a], 1));
    assert Run(o3) == State({a}, List([a, a], 2));
    assert [a, a][..1] == [a] && [a][..0] == [];
    assert Filter([a], {a}) == [a];
    assert Filter([a, a], {a}) == [a, a];
    assert Count([a], a) == 1;
    assert OtherRows(Run(o2).l, a) == 1;
  }
}
