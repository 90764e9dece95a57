/** What stored records answer, and how much of the buffer they take. */
module ParamRecords {
  import opened Basics
  import opened ParamFormat
  import opened ParamParse

  // ---------------------------------------------------------------- what a store answers

  /** The value stored for entry i of the table. */
  ghost function Find(recs: seq<Rec>, i: int): Option<seq<byte>> {
    if recs == [] then None
    else if recs[|recs| - 1].index == i then Some(recs[|recs| - 1].value)
    else Find(recs[..|recs| - 1], i)
  }

  /** What GetParam answers. */
  ghost function ParamOf(defs: seq<ParamDef>, recs: seq<Rec>, name: seq<byte>): Option<seq<byte>> {
    Find(recs, IndexOf(defs, name))
  }

  /** An int64 from its two's complement bytes, or a shorter number. */
  function ToInt64(x: nat): int {
    if x < 0x8000_0000_0000_0000 then x else x - 0x1_0000_0000_0000_0000
  }

  /** What GetInt64Param answers: the stored number, else the table's default, else -1. */
  ghost function Int64Of(defs: seq<ParamDef>, recs: seq<Rec>, name: seq<byte>): int {
    var p := ParamOf(defs, recs, name);
    if p.Some? then ToInt64(LEValue(p.value))
    else if IndexOf(defs, name) < 0 then -1 else defs[IndexOf(defs, name)].defaultValue
  }

  lemma {:induction false} FindStored(recs: seq<Rec>, k: nat)
    requires k < |recs| && forall i, j :: 0 <= i < j < |recs| ==> recs[i].index != recs[j].index
    ensures Find(recs, recs[k].index) == Some(recs[k].value)
  {
    if k < |recs| - 1 {
      FindStored(recs[..|recs| - 1], k);
    }
  }

  lemma {:induction false} FindMissing(recs: seq<Rec>, i: int)
    ensures Find(recs, i).None? <==> !Stored(recs, i)
  {
    if recs != [] {
      var n := |recs| - 1;
      FindMissing(recs[..n], i);
      if Stored(recs, i) && recs[n].index != i {
        var k :| 0 <= k < |recs| && recs[k].index == i;
        assert recs[..n][k].index == i;
      }
      if Stored(recs[..n], i) {
        var k :| 0 <= k < n && recs[..n][k].index == i;
        assert recs[k].index == i;
      }
    }
  }

  /** Appending a record changes the answer for its own parameter only. */
  lemma FindAppend(recs: seq<Rec>, r: Rec, i: int)
    ensures Find(recs + [r], i) == if i == r.index then Some(r.value) else Find(recs, i)
  {
    assert (recs + [r])[..|recs|] == recs;
  }

  /** So does overwriting one. */
  lemma {:induction false} FindOverwrite(recs: seq<Rec>, k: nat, v: seq<byte>, i: int)
    requires k < |recs| && forall i, j :: 0 <= i < j < |recs| ==> recs[i].index != recs[j].index
    ensures Find(recs[k := Rec(recs[k].index, v)], i) == if i == recs[k].index then Some(v) else Find(recs, i)
  {
    var n := |recs| - 1;
    var recs' := recs[k := Rec(recs[k].index, v)];
    if k == n {
      assert recs'[..n] == recs[..n];
    } else {
      assert recs'[..n] == recs[..n][k := Rec(recs[k].index, v)];
      FindOverwrite(recs[..n], k, v, i);
    }
  }

  lemma StoredAppend(recs: seq<Rec>, r: Rec, i: int)
    ensures Stored(recs + [r], i) <==> i == r.index || Stored(recs, i)
  {
    FindMissing(recs, i);
    FindMissing(recs + [r], i);
    FindAppend(recs, r, i);
  }

  /** The value of the first item with the name of entry i. */
  function FirstValue(defs: seq<ParamDef>, items: seq<Named>, i: int): Option<seq<byte>> {
    if items == [] then None
    else if IndexOf(defs, items[0].name) == i then Some(items[0].value)
    else FirstValue(defs, items[1..], i)
  }

  /** Of repeated names the first value is kept, unless the parameter was stored before. */
  lemma {:induction false} FirstIsKept(defs: seq<ParamDef>, items: seq<Named>, recs: seq<Rec>, i: nat)
    ensures Find(KeepFirst(defs, items, recs), i) ==
            if Find(recs, i).Some? then Find(recs, i) else FirstValue(defs, items, i)
    decreases |items|
  {
    if items != [] {
      hide IndexOf, Find;
      var j := IndexOf(defs, items[0].name);
      FirstIsKept(defs, items[1..], Keep(defs, recs, items[0].name, items[0].value), i);
      FindMissing(recs, j);
      if j >= 0 {
        FindAppend(recs, Rec(j, items[0].value), i);
      }
    }
  }

  // ---------------------------------------------------------------- the buffer

  /** The size that is asked for: every parameter at its declared maximum, under the longest name. */
  function MaxSize(defs: seq<ParamDef>): nat {
    if defs == [] then 0 else
      var k := |defs| - 1;
      MaxSize(defs[..k]) + MC_PRM_MAX_PARAM_NAME_SIZE + 1 + 2 + defs[k].maxSize
  }

  /** The size of the buffer: memory comes in units of eight bytes. */
  function Capacity(defs: seq<ParamDef>): (r: nat)
    ensures r >= MaxSize(defs)
  {
    8 * ((MaxSize(defs) + 7) / 8)
  }

  ghost predicate Fits(defs: seq<ParamDef>, recs: seq<Rec>) {
    InTable(defs, recs) && |Encode(defs, recs)| <= Capacity(defs)
  }

  /** Every value is within its declared maximum. */
  ghost predicate Declared(defs: seq<ParamDef>, recs: seq<Rec>) {
    InTable(defs, recs) && forall k :: 0 <= k < |recs| ==> |recs[k].value| <= defs[recs[k].index].maxSize
  }

  /** The bytes that entry i takes. */
  ghost function Used(defs: seq<ParamDef>, recs: seq<Rec>, i: nat): nat
    requires i < |defs|
  {
    var p := Find(recs, i);
    if p.None? then 0 else |defs[i].name| + 3 + |p.value|
  }

  /** The bytes that the first n entries take. */
  ghost function UsedBelow(defs: seq<ParamDef>, recs: seq<Rec>, n: nat): nat
    requires n <= |defs|
  {
    if n == 0 then 0 else UsedBelow(defs, recs, n - 1) + Used(defs, recs, n - 1)
  }

  lemma {:induction false} UsedAppend(defs: seq<ParamDef>, recs: seq<Rec>, r: Rec, n: nat)
    requires n <= |defs| && r.index < |defs| && !Stored(recs, r.index)
    ensures UsedBelow(defs, recs + [r], n) ==
            UsedBelow(defs, recs, n) + if r.index < n then |defs[r.index].name| + 3 + |r.value| else 0
  {
    if n > 0 {
      UsedAppend(defs, recs, r, n - 1);
      FindAppend(recs, r, n - 1);
      FindMissing(recs, r.index);
    }
  }

  lemma {:induction false} UsedNone(defs: seq<ParamDef>, n: nat)
    requires n <= |defs|
    ensures UsedBelow(defs, [], n) == 0
  {
    if n > 0 {
      UsedNone(defs, n - 1);
    }
  }

  /** The encoding is as long as what its entries take together. */
  lemma {:induction false} EncodeUsed(defs: seq<ParamDef>, recs: seq<Rec>)
    requires RecsOk(defs, recs)
    ensures |Encode(defs, recs)| == UsedBelow(defs, recs, |defs|)
  {
    if recs == [] {
      UsedNone(defs, |defs|);
    } else {
      var n := |recs| - 1;
      EncodeUsed(defs, recs[..n]);
      assert !Stored(recs[..n], recs[n].index);
      UsedAppend(defs, recs[..n], recs[n], |defs|);
      assert recs == recs[..n] + [recs[n]];
    }
  }

  lemma {:induction false} UsedDeclared(defs: seq<ParamDef>, recs: seq<Rec>, n: nat)
    requires n <= |defs| && TableOk(defs) && RecsOk(defs, recs) && Declared(defs, recs)
    ensures UsedBelow(defs, recs, n) <= MaxSize(defs[..n])
  {
    if n > 0 {
      UsedDeclared(defs, recs, n - 1);
      assert defs[..n][..n - 1] == defs[..n - 1];
      FindMissing(recs, n - 1);
      if Stored(recs, n - 1) {
        var k :| 0 <= k < |recs| && recs[k].index == n - 1;
        FindStored(recs, k);
      }
    }
  }

  /** Values within their declared maximum fit the buffer, whichever parameters they are of and in whatever order. */
  lemma DeclaredFits(defs: seq<ParamDef>, recs: seq<Rec>)
    requires TableOk(defs) && RecsOk(defs, recs) && Declared(defs, recs)
    ensures Fits(defs, recs)
  {
    EncodeUsed(defs, recs);
    UsedDeclared(defs, recs, |defs|);
    assert defs[..|defs|] == defs;
  }

  /** There is room for one more record. */
  ghost predicate Room(defs: seq<ParamDef>, recs: seq<Rec>, r: Rec)
    requires InTable(defs, recs) && r.index < |defs|
  {
    |Encode(defs, recs)| + |defs[r.index].name| + 3 + |r.value| <= Capacity(defs)
  }

  lemma RoomIsFit(defs: seq<ParamDef>, recs: seq<Rec>, r: Rec)
    requires InTable(defs, recs) && r.index < |defs|
    ensures Room(defs, recs, r) <==> Fits(defs, recs + [r])
  {
    assert (recs + [r])[..|recs|] == recs;
  }

  lemma DeclaredRoom(defs: seq<ParamDef>, recs: seq<Rec>, r: Rec)
    requires TableOk(defs) && RecsOk(defs, recs) && Declared(defs, recs)
    requires r.index < |defs| && !Stored(recs, r.index) && |r.value| <= defs[r.index].maxSize
    ensures Room(defs, recs, r) && Declared(defs, recs + [r])
  {
    hide Encode, MaxSize, Capacity;
    DeclaredFits(defs, recs + [r]);
    RoomIsFit(defs, recs, r);
  }

  /** What does not fit at first does not fit later. */
  lemma FitsPrefix(defs: seq<ParamDef>, recs: seq<Rec>, more: seq<Rec>)
    requires recs <= more && Fits(defs, more)
    ensures Fits(defs, recs)
  {
    hide Encode, Capacity;
    StartsOrdered(defs, more, |recs|, |more|);
    assert more[..|recs|] == recs;
  }

  lemma DeclaredSized(defs: seq<ParamDef>, recs: seq<Rec>)
    requires TableOk(defs) && Declared(defs, recs)
    ensures Sized(recs)
  {
  }

  /** A source of one record of a one-entry table stays in bounds exactly while name and value fit the buffer. */
  lemma OneRecordFits(d: ParamDef, value: seq<byte>)
    requires TableOk([d]) && |value| < 0x1_0000
    ensures var source := Item(d.name, value) + [0];
            Fits([d], Parse([d], source, [])) <==> |d.name| + 3 + |value| <= Capacity([d])
  {
    var recs := [Rec(0, value)];
    ParseSized([d], recs);
    assert recs[..0] == [];
    assert Encode([d], recs) == Item(d.name, value);
  }

  /** A parameter of at most 4 bytes given as 40: parsing accepts it, and it does not fit. */
  lemma LongValueDoesNotFit()
    ensures var d := ParamDef([97], User, 4, 0);
            TableOk([d]) && !Fits([d], Parse([d], Item([97], LE(0, 40)) + [0], []))
  {
    hide LE, Parse, Encode;
    var d := ParamDef([97], User, 4, 0);
    assert [d][..0] == [];
    assert MaxSize([d]) == 38;
    OneRecordFits(d, LE(0, 40));
  }
}
