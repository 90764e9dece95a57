/** The parameter store object: a byte buffer, a table of coordinates into it, and the used size. */
module ParamStore {
  import opened Basics
  import opened ParamFormat
  import opened ParamParse
  import opened ParamRecords
  import opened ParamStale

  /**
   The two statuses of the original, and two that stand for what C leaves undefined: a write
   behind the end of the buffer, and a decision made on a variable without a value.
   */
  datatype Status = NoError | InternalError | OutOfBounds | Undecided

  const MC_WEIGHT_DEFAULT_STABILITY_MARGIN := 6
  const MC_WEIGHT_SETUP_PUBLISH_MARGIN := 3

  /** The bytes of an ASCII name. */
  function Ascii(s: string): seq<byte> {
    seq(|s|, i requires 0 <= i < |s| => (s[i] as int) % 256)
  }

  const SETUP_FIRST_BLOCKS: seq<byte> := Ascii("setupfirstblocks")
  const WEIGHT_EPOCH_LENGTH: seq<byte> := Ascii("weightepochlength")

  // ---------------------------------------------------------------- the setup length

  /** The smallest setup length that leaves room for the first weight to be confirmed. */
  function RequiredSetup(epoch: int): int {
    epoch + MC_WEIGHT_DEFAULT_STABILITY_MARGIN - 1 + MC_WEIGHT_SETUP_PUBLISH_MARGIN + 1
  }

  /**
   It is the least length strictly above the height where the first weight is computable, which
   is the end of the first epoch and the stability margin, plus the three blocks to publish it.
   */
  lemma RequiredSetupLeast(epoch: int, setup: int)
    ensures setup >= RequiredSetup(epoch) <==> setup > (epoch + 6 - 1) + 3
  {
  }

  /** The stored bytes of a parameter make a number an int64 can hold. */
  ghost predicate Readable(defs: seq<ParamDef>, recs: seq<Rec>, name: seq<byte>) {
    var p := ParamOf(defs, recs, name);
    p.Some? ==> |p.value| <= 8
  }

  /** The setup phase is too short for the weight engine that selects its miners. */
  ghost predicate TooShort(defs: seq<ParamDef>, recs: seq<Rec>) {
    var epoch := Int64Of(defs, recs, WEIGHT_EPOCH_LENGTH);
    epoch >= 1 && Int64Of(defs, recs, SETUP_FIRST_BLOCKS) < RequiredSetup(epoch)
  }

  /** The setup length can be written: it is known, and not stored in another size. */
  ghost predicate Writable(defs: seq<ParamDef>, recs: seq<Rec>) {
    var p := ParamOf(defs, recs, SETUP_FIRST_BLOCKS);
    IndexOf(defs, SETUP_FIRST_BLOCKS) >= 0 && (p.Some? ==> |p.value| == 4)
  }

  /** What the adjustment reads, and the floor it computes, are within 64 bits. */
  ghost predicate Defined(defs: seq<ParamDef>, recs: seq<Rec>) {
    && Readable(defs, recs, WEIGHT_EPOCH_LENGTH) && Readable(defs, recs, SETUP_FIRST_BLOCKS)
    && RequiredSetup(Int64Of(defs, recs, WEIGHT_EPOCH_LENGTH)) < 0x8000_0000_0000_0000
  }

  /** The setup length is stored already, or there is room to append its four bytes. */
  ghost predicate SetupFits(defs: seq<ParamDef>, recs: seq<Rec>) {
    ParamOf(defs, recs, SETUP_FIRST_BLOCKS).Some?
    || (InTable(defs, recs) && |Encode(defs, recs)| + |SETUP_FIRST_BLOCKS| + 7 <= Capacity(defs))
  }

  /** The table declares the setup length as a number of at least four bytes. */
  ghost predicate SetupDeclared(defs: seq<ParamDef>) {
    var i := IndexOf(defs, SETUP_FIRST_BLOCKS);
    i >= 0 ==> defs[i].maxSize >= 4
  }

  lemma RoomForAny(defs: seq<ParamDef>, recs: seq<Rec>, i: nat, v: seq<byte>)
    requires InTable(defs, recs) && i < |defs| && IndexOf(defs, SETUP_FIRST_BLOCKS) == i && |v| == 4
    requires ParamOf(defs, recs, SETUP_FIRST_BLOCKS).None?
    ensures Room(defs, recs, Rec(i, v)) <==> SetupFits(defs, recs)
  {
    hide Encode, Capacity;
  }

  /** The answers after one parameter got a new value. */
  ghost predicate OnlyChanged(defs: seq<ParamDef>, was: seq<Rec>, now: seq<Rec>, name: seq<byte>, value: seq<byte>) {
    forall other :: ParamOf(defs, now, other) == if other == name then Some(value) else ParamOf(defs, was, other)
  }

  // ---------------------------------------------------------------- the layout

  /** The coordinates of every entry: offset and size of its value, or a negative offset. */
  ghost predicate Indexed(defs: seq<ParamDef>, recs: seq<Rec>, coord: seq<int>)
    requires InTable(defs, recs)
  {
    && |coord| == 2 * |defs|
    && (forall i :: 0 <= i < |defs| ==> (coord[2 * i] >= 0 <==> Stored(recs, i)))
    && (forall k :: 0 <= k < |recs| ==>
          coord[2 * recs[k].index] == ValueAt(defs, recs, k) && coord[2 * recs[k].index + 1] == |recs[k].value|)
  }

  ghost predicate Layout(defs: seq<ParamDef>, recs: seq<Rec>, data: seq<byte>, coord: seq<int>, size: nat) {
    && TableOk(defs) && RecsOk(defs, recs)
    && size == |Encode(defs, recs)| <= |data|
    && data[..size] == Encode(defs, recs)
    && Indexed(defs, recs, coord)
  }

  lemma AppendOk(defs: seq<ParamDef>, recs: seq<Rec>, r: Rec)
    requires RecsOk(defs, recs) && r.index < |defs| && !Stored(recs, r.index)
    ensures RecsOk(defs, recs + [r])
    ensures Encode(defs, recs + [r]) == Encode(defs, recs) + EncodeRec(defs, r)
    ensures forall k :: 0 <= k < |recs| ==> ValueAt(defs, recs + [r], k) == ValueAt(defs, recs, k)
    ensures ValueAt(defs, recs + [r], |recs|) == |Encode(defs, recs)| + |defs[r.index].name| + 3
  {
    var recs' := recs + [r];
    assert recs'[..|recs|] == recs;
    forall k | 0 <= k < |recs| ensures ValueAt(defs, recs', k) == ValueAt(defs, recs, k) {
      assert recs'[..k] == recs[..k];
    }
  }

  lemma NotStored(recs: seq<Rec>, i: int, k: nat)
    requires !Stored(recs, i) && k < |recs|
    ensures recs[k].index != i
  {
  }

  lemma AppendIndexed(defs: seq<ParamDef>, recs: seq<Rec>, r: Rec, coord: seq<int>)
    requires RecsOk(defs, recs) && Indexed(defs, recs, coord)
    requires r.index < |defs| && !Stored(recs, r.index)
    ensures RecsOk(defs, recs + [r])
    ensures Indexed(defs, recs + [r],
                    coord[2 * r.index := |Encode(defs, recs)| + |defs[r.index].name| + 3][2 * r.index + 1 := |r.value|])
  {
    hide Encode, EncodeRec, ValueAt, Start, Stored;
    AppendOk(defs, recs, r);
    var recs' := recs + [r];
    var coord' := coord[2 * r.index := |Encode(defs, recs)| + |defs[r.index].name| + 3][2 * r.index + 1 := |r.value|];
    forall i | 0 <= i < |defs| ensures coord'[2 * i] >= 0 <==> Stored(recs', i) {
      StoredAppend(recs, r, i);
    }
    forall k | 0 <= k < |recs'|
      ensures coord'[2 * recs'[k].index] == ValueAt(defs, recs', k) && coord'[2 * recs'[k].index + 1] == |recs'[k].value|
    {
      if k < |recs| {
        NotStored(recs, r.index, k);
      }
    }
  }

  /** A buffer with some bytes overwritten. */
  function Splice(d: seq<byte>, at: nat, b: seq<byte>): seq<byte>
    requires at + |b| <= |d|
  {
    d[..at] + b + d[at + |b|..]
  }

  /** The buffer after a record is written at position a: name, then value, then the size between them. */
  function WriteRec(d: seq<byte>, a: nat, name: seq<byte>, value: seq<byte>): seq<byte>
    requires a + |name| + 3 + |value| <= |d|
  {
    Splice(Splice(Splice(d, a, name + [0]), a + |name| + 3, value), a + |name| + 1, LE(|value|, 2))
  }

  lemma WriteRecSpec(d: seq<byte>, a: nat, name: seq<byte>, value: seq<byte>)
    requires a + |name| + 3 + |value| <= |d|
    ensures |WriteRec(d, a, name, value)| == |d|
    ensures WriteRec(d, a, name, value)[..a + |name| + 3 + |value|] == d[..a] + Item(name, value)
  {
    var d1 := Splice(d, a, name + [0]);
    var d2 := Splice(d1, a + |name| + 3, value);
    var l := LE(|value|, 2);
    var d3 := Splice(d2, a + |name| + 1, l);
    assert d1[..a + |name| + 1] == d[..a] + (name + [0]);
    assert d2[..a + |name| + 1] == d1[..a + |name| + 1];
    assert d2[a + |name| + 3..a + |name| + 3 + |value|] == value;
    assert d3[..a + |name| + 3 + |value|] == d2[..a + |name| + 1] + l + value;
  }

  lemma AppendLayout(defs: seq<ParamDef>, recs: seq<Rec>, data: seq<byte>, coord: seq<int>, size: nat, r: Rec)
    requires Layout(defs, recs, data, coord, size)
    requires r.index < |defs| && !Stored(recs, r.index)
    requires size + |defs[r.index].name| + 3 + |r.value| <= |data|
    ensures |coord| == 2 * |defs|
    ensures Layout(defs, recs + [r], WriteRec(data, size, defs[r.index].name, r.value),
                   coord[2 * r.index := size + |defs[r.index].name| + 3][2 * r.index + 1 := |r.value|],
                   size + |defs[r.index].name| + 3 + |r.value|)
  {
    hide WriteRec, Indexed;
    IndexedLength(defs, recs, coord);
    AppendOk(defs, recs, r);
    AppendIndexed(defs, recs, r, coord);
    WriteRecSpec(data, size, defs[r.index].name, r.value);
  }

  lemma IndexedLength(defs: seq<ParamDef>, recs: seq<Rec>, coord: seq<int>)
    requires InTable(defs, recs) && Indexed(defs, recs, coord)
    ensures |coord| == 2 * |defs|
  {
  }

  /** Following an entry's coordinates finds its stored value, or that there is none. */
  lemma LookUp(defs: seq<ParamDef>, recs: seq<Rec>, data: seq<byte>, coord: seq<int>, size: nat, i: nat)
    requires Layout(defs, recs, data, coord, size) && i < |defs|
    ensures |coord| == 2 * |defs| && size <= |data|
    ensures coord[2 * i] < 0 <==> Find(recs, i).None?
    ensures coord[2 * i] >= 0 ==>
              && 0 <= coord[2 * i + 1] && coord[2 * i] + coord[2 * i + 1] <= size
              && Find(recs, i) == Some(data[coord[2 * i]..coord[2 * i] + coord[2 * i + 1]])
  {
    hide Encode;
    FindMissing(recs, i);
    if coord[2 * i] >= 0 {
      var k :| 0 <= k < |recs| && recs[k].index == i;
      FindStored(recs, k);
      ValueInPlace(defs, recs, k);
      var o, n := coord[2 * i], coord[2 * i + 1];
      assert data[..size][o..o + n] == data[o..o + n];
    }
  }

  lemma SamePlaces(defs: seq<ParamDef>, recs: seq<Rec>, k: nat, v: seq<byte>, i: int)
    requires k < |recs|
    ensures Stored(recs[k := Rec(recs[k].index, v)], i) <==> Stored(recs, i)
  {
    var recs' := recs[k := Rec(recs[k].index, v)];
    assert forall j :: 0 <= j < |recs| ==> recs'[j].index == recs[j].index;
  }

  /** Writing a value of the same size over a stored one keeps the layout. */
  lemma OverwriteLayout(defs: seq<ParamDef>, recs: seq<Rec>, data: seq<byte>, coord: seq<int>, size: nat, k: nat, v: seq<byte>)
    requires Layout(defs, recs, data, coord, size) && k < |recs| && |v| == |recs[k].value|
    ensures |coord| == 2 * |defs| && 0 <= coord[2 * recs[k].index] && coord[2 * recs[k].index] + |v| <= |data|
    ensures Layout(defs, recs[k := Rec(recs[k].index, v)], Splice(data, coord[2 * recs[k].index], v), coord, size)
  {
    hide Encode, ValueAt;
    var recs', at := recs[k := Rec(recs[k].index, v)], coord[2 * recs[k].index];
    EncodeOverwrite(defs, recs, k, v);
    OverwriteBytes(data, size, at, v);
    forall i | 0 <= i < |defs| ensures coord[2 * i] >= 0 <==> Stored(recs', i) {
      SamePlaces(defs, recs, k, v, i);
    }
  }

  lemma DeclaredOverwrite(defs: seq<ParamDef>, recs: seq<Rec>, k: nat, v: seq<byte>)
    requires k < |recs| && |v| == |recs[k].value|
    ensures Declared(defs, recs) ==> Declared(defs, recs[k := Rec(recs[k].index, v)])
  {
  }

  lemma OverwriteBytes(data: seq<byte>, size: nat, at: nat, v: seq<byte>)
    requires at + |v| <= size <= |data|
    ensures Splice(data, at, v)[..size] == Splice(data[..size], at, v)
  {
  }

  /** A new value for entry i changes the answer for the name of entry i and no other. */
  lemma ChangedName(defs: seq<ParamDef>, was: seq<Rec>, now: seq<Rec>, name: seq<byte>, value: seq<byte>)
    requires IndexOf(defs, name) >= 0
    requires forall i :: Find(now, i) == if i == IndexOf(defs, name) then Some(value) else Find(was, i)
    ensures OnlyChanged(defs, was, now, name, value)
  {
    hide Find;
  }

  /** After the raise the setup length reads as the floor reduced to four bytes. */
  lemma RaisedValue(defs: seq<ParamDef>, was: seq<Rec>, now: seq<Rec>)
    requires TooShort(defs, was)
    requires OnlyChanged(defs, was, now, SETUP_FIRST_BLOCKS, LE(RequiredSetup(Int64Of(defs, was, WEIGHT_EPOCH_LENGTH)), 4))
    ensures var required := RequiredSetup(Int64Of(defs, was, WEIGHT_EPOCH_LENGTH));
            && Int64Of(defs, now, WEIGHT_EPOCH_LENGTH) == Int64Of(defs, was, WEIGHT_EPOCH_LENGTH)
            && Int64Of(defs, now, SETUP_FIRST_BLOCKS) == required % 0x1_0000_0000
            && (TooShort(defs, now) <==> required >= 0x1_0000_0000)
  {
    hide Find, LE;
    var required := RequiredSetup(Int64Of(defs, was, WEIGHT_EPOCH_LENGTH));
    LERoundTrip(required, 4);
    assert Pow256(4) == 0x1_0000_0000;
    assert |SETUP_FIRST_BLOCKS| != |WEIGHT_EPOCH_LENGTH|;
    assert ParamOf(defs, now, SETUP_FIRST_BLOCKS) == Some(LE(required, 4));
    assert ParamOf(defs, now, WEIGHT_EPOCH_LENGTH) == ParamOf(defs, was, WEIGHT_EPOCH_LENGTH);
  }

  /** An epoch of 2^32 - 9 blocks: the floor does not fit four bytes, and the raise lowers the setup length to zero. */
  lemma RaiseCanLower() returns (defs: seq<ParamDef>, was: seq<Rec>, now: seq<Rec>)
    ensures TableOk(defs) && TooShort(defs, was) && Writable(defs, was)
    ensures OnlyChanged(defs, was, now, SETUP_FIRST_BLOCKS, LE(RequiredSetup(Int64Of(defs, was, WEIGHT_EPOCH_LENGTH)), 4))
    ensures Int64Of(defs, was, WEIGHT_EPOCH_LENGTH) == 0x1_0000_0000 - 9
    ensures Int64Of(defs, was, SETUP_FIRST_BLOCKS) == 60 && Int64Of(defs, now, SETUP_FIRST_BLOCKS) == 0
  {
    hide LE, LEValue;
    assert |SETUP_FIRST_BLOCKS| == 16 && |WEIGHT_EPOCH_LENGTH| == 17;
    var epochDef, setupDef := ParamDef(WEIGHT_EPOCH_LENGTH, User, 4, 100), ParamDef(SETUP_FIRST_BLOCKS, User, 4, 60);
    var epoch := 0xFFFF_FFF7;
    defs := [epochDef, setupDef];
    NamesWithoutZero();
    IndexOfEntry(defs, 0);
    IndexOfEntry(defs, 1);
    was := [Rec(0, LE(epoch, 4))];
    now := was + [Rec(1, LE(RequiredSetup(epoch), 4))];
    hide Find, IndexOf;
    FindStored(was, 0);
    FindMissing(was, 1);
    LERoundTrip(epoch, 4);
    assert Pow256(4) == 0x1_0000_0000;
    forall i ensures Find(now, i) == if i == 1 then Some(LE(RequiredSetup(epoch), 4)) else Find(was, i) {
      FindAppend(was, Rec(1, LE(RequiredSetup(epoch), 4)), i);
    }
    ChangedName(defs, was, now, SETUP_FIRST_BLOCKS, LE(RequiredSetup(epoch), 4));
    RaisedValue(defs, was, now);
  }

  lemma NamesWithoutZero()
    ensures 0 !in SETUP_FIRST_BLOCKS && 0 !in WEIGHT_EPOCH_LENGTH
  {
  }

  lemma NoneDeclared(defs: seq<ParamDef>)
    ensures Declared(defs, [])
  {
  }

  lemma EmptyLayout(defs: seq<ParamDef>, data: seq<byte>, coord: seq<int>)
    requires TableOk(defs) && |coord| == 2 * |defs| && forall i :: 0 <= i < |coord| ==> coord[i] == -1
    ensures Layout(defs, [], data, coord, 0)
  {
  }

  // ---------------------------------------------------------------- the object

  class Params {
    const defs: seq<ParamDef>
    const data: array<byte>
    const coord: array<int>
    var size: nat
    var isProtocolMultichain: bool
    ghost var recs: seq<Rec>

    ghost predicate Valid()
      reads this, data, coord
    {
      data.Length == Capacity(defs) && Layout(defs, recs, data[..], coord[..], size)
    }

    /** An empty store over a parameter table, with a buffer for every parameter at its declared maximum. */
    constructor (defs: seq<ParamDef>)
      requires TableOk(defs)
      ensures Valid() && this.defs == defs && recs == [] && Declared(defs, recs)
      ensures fresh(data) && fresh(coord) && isProtocolMultichain
    {
      hide Layout, Capacity, Declared;
      this.defs := defs;
      data := new byte[Capacity(defs)](_ => 0);
      coord := new int[2 * |defs|](_ => -1);
      size := 0;
      isProtocolMultichain := true;
      recs := [];
      new;
      EmptyLayout(this.defs, data[..], coord[..]);
      NoneDeclared(this.defs);
    }

    /** The stored bytes of a parameter, if it is known and stored. */
    method GetParam(name: seq<byte>) returns (r: Option<seq<byte>>)
      requires Valid()
      ensures r == ParamOf(defs, recs, name)
    {
      hide Layout, Find;
      var index := IndexOf(defs, name);
      FindMissing(recs, index);
      if index < 0 {
        return None;
      }
      LookUp(defs, recs, data[..], coord[..], size, index);
      var offset := coord[2 * index];
      if offset < 0 {
        return None;
      }
      var n := coord[2 * index + 1];
      return Some(data[offset..offset + n]);
    }

    /** The number a parameter holds; of more than eight bytes C makes no defined number. */
    method GetInt64Param(name: seq<byte>) returns (r: int)
      requires Valid()
      ensures Readable(defs, recs, name) ==> r == Int64Of(defs, recs, name)
    {
      var p := GetParam(name);
      if p.None? {
        var index := IndexOf(defs, name);
        if index < 0 {
          return -1;
        }
        return defs[index].defaultValue;
      }
      return ToInt64(LEValue(p.value));
    }

    method Put(at: nat, bytes: seq<byte>)
      requires at + |bytes| <= data.Length
      modifies data
      ensures data[..] == Splice(old(data[..]), at, bytes)
    {
      forall i | 0 <= i < |bytes| {
        data[at + i] := bytes[i];
      }
    }

    /** Write a record at the end of the used part and point the entry's coordinates at its value, if there is room. */
    method Append(index: nat, value: seq<byte>) returns (fits: bool)
      requires Valid() && index < |defs| && !Stored(recs, index)
      modifies this`size, this`recs, data, coord
      ensures Valid() && (fits <==> Room(defs, old(recs), Rec(index, value)))
      ensures recs == if fits then old(recs) + [Rec(index, value)] else old(recs)
      ensures !fits ==> data[..] == old(data[..]) && coord[..] == old(coord[..]) && size == old(size)
    {
      hide Layout, Splice, LE, Capacity, Encode;
      LayoutRecs(defs, recs, data[..], coord[..], size);
      if size + |defs[index].name| + 3 + |value| > data.Length {
        return false;
      }
      ghost var r := Rec(index, value);
      ghost var was, name := data[..], defs[index].name;
      AppendLayout(defs, recs, was, coord[..], size, r);
      var offset := size;
      Put(offset, defs[index].name + [0]);
      offset := offset + |defs[index].name| + 1;
      Put(offset + 2, value);
      Put(offset, LE(|value|, 2));
      offset := offset + 2;
      coord[2 * index] := offset;
      coord[2 * index + 1] := |value|;
      offset := offset + |value|;
      assert coord[..] == old(coord[..])[2 * index := size + |name| + 3][2 * index + 1 := |value|];
      size := offset;
      recs := recs + [r];
      return true;
    }

    /** Store a comment or calculated parameter, once. */
    method SetParam(name: seq<byte>, value: seq<byte>) returns (status: Status)
      requires Valid()
      modifies this`size, this`recs, data, coord
      ensures Valid()
      ensures var i := IndexOf(defs, name);
              if !(i >= 0 && (defs[i].source.Comment? || defs[i].source.Calculated?) && ParamOf(defs, old(recs), name).None?)
              then status == InternalError && recs == old(recs) && data[..] == old(data[..])
              else if Room(defs, old(recs), Rec(i, value)) then status == NoError && recs == old(recs) + [Rec(i, value)]
              else status == OutOfBounds && recs == old(recs) && data[..] == old(data[..])
      ensures var i := IndexOf(defs, name);
              Declared(defs, old(recs)) && (i >= 0 ==> |value| <= defs[i].maxSize)
              ==> status != OutOfBounds && Declared(defs, recs)
    {
      hide Layout, Find, Room, Declared;
      var index := IndexOf(defs, name);
      if index < 0 {
        return InternalError;
      }
      if !defs[index].source.Comment? && !defs[index].source.Calculated? {
        return InternalError;
      }
      LookUp(defs, recs, data[..], coord[..], size, index);
      if coord[2 * index] >= 0 {
        return InternalError;
      }
      FindMissing(recs, index);
      LayoutRecs(defs, recs, data[..], coord[..], size);
      if Declared(defs, recs) && |value| <= defs[index].maxSize {
        DeclaredRoom(defs, recs, Rec(index, value));
      }
      var fits := Append(index, value);
      status := if fits then NoError else OutOfBounds;
    }

    /** Write a value of the same size over a stored one. */
    method Overwrite(index: nat, value: seq<byte>)
      requires Valid() && index < |defs| && Find(recs, index).Some? && |value| == |Find(recs, index).value|
      modifies this`recs, data
      ensures Valid() && size == old(size) && (Declared(defs, old(recs)) ==> Declared(defs, recs))
      ensures forall i :: Find(recs, i) == if i == index then Some(value) else old(Find(recs, i))
    {
      hide Layout, Find, Splice, RecsOk, Declared, Capacity, Encode;
      FindMissing(recs, index);
      ghost var k :| 0 <= k < |recs| && recs[k].index == index;
      LayoutRecs(defs, recs, data[..], coord[..], size);
      FindStored(recs, k);
      OverwriteLayout(defs, recs, data[..], coord[..], size, k, value);
      forall i ensures Find(recs[k := Rec(index, value)], i) == if i == index then Some(value) else Find(recs, i) {
        FindOverwrite(recs, k, value, i);
      }
      DeclaredOverwrite(defs, recs, k, value);
      Put(coord[2 * index], value);
      recs := recs[k := Rec(index, value)];
    }

    /**
     Raise the setup length to what the weight engine needs, on the creation path.  The new value
     is written in four bytes, so it reads back in full exactly when it is below 2^32; then a
     second call finds nothing to do.
     */
    method AdjustSetupFirstBlocks(weightEngineOn: bool, wpoaSelectionOn: bool)
        returns (status: Status, oldValue: int, newValue: int)
      requires Valid()
      modifies this`size, this`recs, data, coord
      ensures Valid()
      ensures !(isProtocolMultichain && weightEngineOn && wpoaSelectionOn) ==>
                status == NoError && oldValue == newValue == 0 && recs == old(recs) && data[..] == old(data[..])
      ensures isProtocolMultichain && weightEngineOn && wpoaSelectionOn && Defined(defs, old(recs)) ==>
                var required := RequiredSetup(Int64Of(defs, old(recs), WEIGHT_EPOCH_LENGTH));
                var setup := Int64Of(defs, old(recs), SETUP_FIRST_BLOCKS);
                if !TooShort(defs, old(recs))
                then status == NoError && oldValue == newValue == 0 && recs == old(recs) && data[..] == old(data[..])
                else if !Writable(defs, old(recs))
                then status == InternalError && oldValue == newValue == 0 && recs == old(recs) && data[..] == old(data[..])
                else if !SetupFits(defs, old(recs))
                then status == OutOfBounds && recs == old(recs) && data[..] == old(data[..])
                else
                  && status == NoError && oldValue == setup < newValue == required
                  && OnlyChanged(defs, old(recs), recs, SETUP_FIRST_BLOCKS, LE(required, 4))
                  && Int64Of(defs, recs, SETUP_FIRST_BLOCKS) == required % 0x1_0000_0000
                  && (TooShort(defs, recs) <==> required >= 0x1_0000_0000)
      ensures Declared(defs, old(recs)) && SetupDeclared(defs) ==> status != OutOfBounds && Declared(defs, recs)
    {
      hide Layout, Find, LE, LEValue, Int64Of, Declared, Room, Readable, OnlyChanged, Capacity, Encode;
      status, oldValue, newValue := NoError, 0, 0;
      if !isProtocolMultichain {
        return;
      }
      if !weightEngineOn {
        return;
      }
      if !wpoaSelectionOn {
        return;
      }
      var epoch := GetInt64Param(WEIGHT_EPOCH_LENGTH);
      var setup := GetInt64Param(SETUP_FIRST_BLOCKS);
      if epoch < 1 {
        return;
      }
      var firstComputable := epoch + MC_WEIGHT_DEFAULT_STABILITY_MARGIN - 1;
      var required := firstComputable + MC_WEIGHT_SETUP_PUBLISH_MARGIN + 1;
      if setup >= required {
        return;
      }
      var index := IndexOf(defs, SETUP_FIRST_BLOCKS);
      if index < 0 {
        return InternalError, 0, 0;
      }
      LookUp(defs, recs, data[..], coord[..], size, index);
      if coord[2 * index] >= 0 {
        if coord[2 * index + 1] != 4 {
          return InternalError, 0, 0;
        }
        Overwrite(index, LE(required, 4));
      } else {
        FindMissing(recs, index);
        LayoutRecs(defs, recs, data[..], coord[..], size);
        if Declared(defs, recs) && SetupDeclared(defs) {
          DeclaredRoom(defs, recs, Rec(index, LE(required, 4)));
        }
        RoomForAny(defs, recs, index, LE(required, 4));
        var fits := Append(index, LE(required, 4));
        if !fits {
          return OutOfBounds, 0, 0;
        }
        forall i ensures Find(recs, i) == if i == index then Some(LE(required, 4)) else Find(old(recs), i) {
          FindAppend(old(recs), Rec(index, LE(required, 4)), i);
        }
      }
      ChangedName(defs, old(recs), recs, SETUP_FIRST_BLOCKS, LE(required, 4));
      if Defined(defs, old(recs)) {
        RaisedValue(defs, old(recs), recs);
      }
      oldValue, newValue := setup, required;
    }

    /** Forget everything stored. */
    method Clear()
      requires Valid()
      modifies this`size, this`recs, data, coord
      ensures Valid() && recs == []
    {
      hide Layout, Capacity;
      LayoutRecs(defs, recs, data[..], coord[..], size);
      forall i | 0 <= i < coord.Length { coord[i] := -1; }
      forall i | 0 <= i < data.Length { data[i] := 0; }
      size := 0;
      recs := [];
      EmptyLayout(defs, data[..], coord[..]);
    }

    /**
     Rebuild the store from raw bytes that end in the zero of a C string.  `stale` is what the
     size variable holds before a size is read.  The original returns no error; it is defined
     exactly when that value is not decisive and what is accepted fits the buffer.
     */
    method Set(source: seq<byte>, stale: int) returns (status: Status)
      requires Valid() && Terminated(source)
      modifies this`size, this`recs, data, coord
      ensures Valid() && recs <= Parse(defs, source, [])
      ensures status == Undecided <==> Leftover(source, stale)
      ensures status == NoError <==> !Leftover(source, stale) && Fits(defs, Parse(defs, source, []))
      ensures status == NoError ==> recs == Parse(defs, source, [])
      ensures status != InternalError
      ensures !Leftover(source, stale) && Declared(defs, Parse(defs, source, [])) ==> status == NoError && Declared(defs, recs)
    {
      hide Layout, LEValue, Fits, Keep, Parse, ParseFrom, RecsOk, Declared, Sized, Capacity;
      Clear();
      NoRecs(defs);
      ghost var final := ParseFrom(defs, source, 0, []);
      ParseStarts(defs, source);
      ParseFromExtends(defs, source, 0, []);
      LayoutRecs(defs, recs, data[..], coord[..], size);
      if Declared(defs, final) {
        DeclaredFits(defs, final);
      }
      var sourceSize := |source| - 1;
      var n := stale;
      var j := 0;
      while j < sourceSize && source[j] != 0
        invariant 0 <= j && Valid() && RecsOk(defs, recs) && Sized(recs) && recs <= final && Fits(defs, recs)
        invariant ParseFrom(defs, source, j, recs) == final
        invariant if j == 0 then n == stale else (n >= 0 || j > sourceSize) && !Leftover(source, stale)
        decreases |source| - j
      {
        NameEnds(source, j);
        var nameLen := NulAt(source[j..]);
        var name := source[j..j + nameLen];
        ghost var at := j;
        j := j + nameLen + 1;
        if j + 2 <= sourceSize {
          n := LEValue(source[j..j + 2]);
          StepSize(source, at, nameLen);
        } else {
          StepShort(defs, source, at, nameLen, recs);
          if j + 2 + n <= sourceSize {
            return Undecided;
          }
        }
        j := j + 2;
        if j + n <= sourceSize {
          StepKeep(defs, source, at, nameLen, n, recs);
          KeepOk(defs, recs, name, source[j..j + n]);
          ParseFromExtends(defs, source, j + n, Keep(defs, recs, name, source[j..j + n]));
          var fits := KeepParam(name, source[j..j + n], final);
          if !fits {
            return OutOfBounds;
          }
          j := j + n;
        } else if j <= sourceSize {
          StepSkip(defs, source, at, nameLen, n, recs);
        }
      }
      ParseEnds(defs, source, j, recs);
      status := NoError;
    }

    /** Store a parsed record if its name is known and not yet stored. */
    method KeepParam(name: seq<byte>, value: seq<byte>, ghost final: seq<Rec>) returns (fits: bool)
      requires Valid() && Keep(defs, recs, name, value) <= final && Fits(defs, recs)
      modifies this`size, this`recs, data, coord
      ensures Valid()
      ensures fits ==> recs == Keep(defs, old(recs), name, value) && Fits(defs, recs)
      ensures !fits ==> recs == old(recs) && !Fits(defs, final)
    {
      hide Layout, Fits, Find, Room, Capacity;
      fits := true;
      var i := IndexOf(defs, name);
      if i >= 0 {
        FindMissing(recs, i);
        LookUp(defs, recs, data[..], coord[..], size, i);
        if coord[2 * i] < 0 {
          LayoutRecs(defs, recs, data[..], coord[..], size);
          RoomIsFit(defs, recs, Rec(i, value));
          if Fits(defs, final) {
            FitsPrefix(defs, recs + [Rec(i, value)], final);
          }
          fits := Append(i, value);
        }
      }
    }
  }

  lemma LayoutRecs(defs: seq<ParamDef>, recs: seq<Rec>, data: seq<byte>, coord: seq<int>, size: nat)
    requires Layout(defs, recs, data, coord, size)
    ensures |coord| == 2 * |defs| && InTable(defs, recs) && TableOk(defs) && RecsOk(defs, recs) && size <= |data| && data[..size] == Encode(defs, recs)
    ensures forall i, j :: 0 <= i < j < |recs| ==> recs[i].index != recs[j].index
  {
  }

  /**
   Sending a store's raw bytes and setting another store from them copies every parameter,
   exactly when two bytes hold the size of each.
   */
  method Transfer(from: Params, to: Params, stale: int) returns (status: Status)
    requires from != to && {from.data as object, from.coord as object} !! {to.data as object, to.coord as object}
    requires from.Valid() && to.Valid() && from.defs == to.defs
    modifies to`size, to`recs, to.data, to.coord
    ensures from.Valid() && to.Valid() && from.recs == old(from.recs)
    ensures status == NoError && to.recs == from.recs <==> Sized(from.recs)
    ensures Declared(from.defs, from.recs) ==> status == NoError && to.recs == from.recs
  {
    hide Layout, RecsOk, TableOk, Fits, Sized, Leftover, Capacity, Declared;
    LayoutRecs(from.defs, from.recs, from.data[..], from.coord[..], from.size);
    ParseEncoded(from.defs, from.recs);
    if Declared(from.defs, from.recs) {
      DeclaredSized(from.defs, from.recs);
    }
    LayoutFits(from.defs, from.recs, from.data[..], from.coord[..], from.size);
    var raw := from.data[..from.size] + [0];
    assert raw == Encode(from.defs, from.recs) + [0];
    OwnSizes(from.defs, from.recs, stale);
    status := to.Set(raw, stale);
  }

  lemma LayoutFits(defs: seq<ParamDef>, recs: seq<Rec>, data: seq<byte>, coord: seq<int>, size: nat)
    requires Layout(defs, recs, data, coord, size) && |data| == Capacity(defs)
    ensures Fits(defs, recs)
  {
    hide Capacity, Indexed;
  }

  lemma {:induction false} FirstEncoded(defs: seq<ParamDef>, recs: seq<Rec>)
    requires InTable(defs, recs) && recs != []
    ensures Item(defs[recs[0].index].name, recs[0].value) <= Encode(defs, recs)
  {
    hide Item;
    EncodeSplits(defs, recs, 0);
    assert recs[..0] == [];
  }

  /** The bytes of a store start with a size, or are none. */
  lemma OwnSizes(defs: seq<ParamDef>, recs: seq<Rec>, stale: int)
    requires TableOk(defs) && RecsOk(defs, recs)
    ensures !Leftover(Encode(defs, recs) + [0], stale)
  {
    hide Encode, LE;
    var raw := Encode(defs, recs) + [0];
    if recs == [] {
      EmptyStands(defs);
    } else {
      FirstEncoded(defs, recs);
      var name, value := defs[recs[0].index].name, recs[0].value;
      var e := |name|;
      assert Item(name, value) <= raw && raw[e] == 0;
      forall i | 0 <= i < e ensures raw[i] != 0 {
        assert raw[i] == name[i];
      }
      FirstZero(raw, e);
      assert raw[0..] == raw;
    }
  }

  lemma NoRecs(defs: seq<ParamDef>)
    ensures RecsOk(defs, []) && Sized([]) && Fits(defs, [])
  {
  }
}
