/** The chain parameter format: records of name, size and value packed one after the other. */
module ParamFormat {
  import Arithmetic
  import opened Basics

  type byte = x: int | 0 <= x < 256

  datatype Source = Comment | User | Generated | Calculated

  const MC_PRM_MAX_PARAM_NAME_SIZE := 31

  /** An entry of the parameter table; maxSize is the most bytes that its declared type takes. */
  datatype ParamDef = ParamDef(name: seq<byte>, source: Source, maxSize: nat, defaultValue: int)

  /** A stored parameter: its index in the table, and its bytes. */
  datatype Rec = Rec(index: nat, value: seq<byte>)

  /** Names are what the table's C strings can hold, no two are the same, and two bytes hold every declared size. */
  ghost predicate TableOk(defs: seq<ParamDef>) {
    && (forall i :: 0 <= i < |defs| ==> defs[i].name != [] && 0 !in defs[i].name)
    && (forall i :: 0 <= i < |defs| ==> |defs[i].name| <= MC_PRM_MAX_PARAM_NAME_SIZE && defs[i].maxSize < 0x1_0000)
    && (forall i, j :: 0 <= i < j < |defs| ==> defs[i].name != defs[j].name)
  }

  /** The index of a name, or -1. */
  function IndexOf(defs: seq<ParamDef>, name: seq<byte>): (r: int)
    ensures r == -1 || (0 <= r < |defs| && defs[r].name == name)
    ensures r == -1 ==> forall i :: 0 <= i < |defs| ==> defs[i].name != name
  {
    if defs == [] then -1
    else if defs[|defs| - 1].name == name && IndexOf(defs[..|defs| - 1], name) == -1 then |defs| - 1
    else IndexOf(defs[..|defs| - 1], name)
  }

  // ---------------------------------------------------------------- little-endian numbers

  /** The n low bytes of a number, least significant first. */
  function LE(x: int, n: nat): (r: seq<byte>)
    ensures |r| == n
    decreases n
  {
    if n == 0 then [] else [x % 256] + LE(x / 256, n - 1)
  }

  function LEValue(b: seq<byte>): nat {
    if b == [] then 0 else b[0] + 256 * LEValue(b[1..])
  }

  /** Writing the n low bytes of a number and reading them back is reduction modulo 256^n. */
  lemma {:induction false} LERoundTrip(x: nat, n: nat)
    ensures LEValue(LE(x, n)) == x % Pow256(n)
    decreases n
  {
    if n > 0 {
      LERoundTrip(x / 256, n - 1);
      assert LE(x, n)[1..] == LE(x / 256, n - 1);
      Arithmetic.DigitSplit(x, Pow256(n - 1));
    }
  }

  /** Bytes weighed one by one, the last one most. */
  function Weighed(b: seq<byte>): nat {
    if b == [] then 0 else Weighed(b[..|b| - 1]) + b[|b| - 1] * Pow256(|b| - 1)
  }

  /** The number that bytes hold counts byte i with weight 256^i. */
  lemma {:induction false} LEWeighed(b: seq<byte>)
    ensures LEValue(b) == Weighed(b)
    decreases |b|
  {
    if b != [] {
      var n := |b| - 1;
      LEWeighed(b[..n]);
      LESnoc(b[..n], b[n]);
      assert b == b[..n] + [b[n]];
    }
  }

  lemma {:induction false} LESnoc(b: seq<byte>, x: byte)
    ensures LEValue(b + [x]) == LEValue(b) + x * Pow256(|b|)
  {
    var c := b + [x];
    if b == [] {
      assert c[1..] == [];
    } else {
      assert c[1..] == b[1..] + [x];
      LESnoc(b[1..], x);
      Outwards(x, Pow256(|b| - 1));
    }
  }

  lemma Outwards(x: nat, p: nat)
    ensures 256 * (x * p) == x * (256 * p)
  {
  }

  lemma {:induction false} LEValueBound(b: seq<byte>)
    ensures LEValue(b) < Pow256(|b|)
  {
    if b != [] {
      LEValueBound(b[1..]);
    }
  }

  // ---------------------------------------------------------------- records

  /** name, 0, two bytes of size, value */
  function Item(name: seq<byte>, value: seq<byte>): seq<byte> {
    name + [0] + LE(|value|, 2) + value
  }

  function EncodeRec(defs: seq<ParamDef>, r: Rec): seq<byte>
    requires r.index < |defs|
  {
    Item(defs[r.index].name, r.value)
  }

  ghost predicate InTable(defs: seq<ParamDef>, recs: seq<Rec>) {
    forall k :: 0 <= k < |recs| ==> recs[k].index < |defs|
  }

  function Encode(defs: seq<ParamDef>, recs: seq<Rec>): seq<byte>
    requires InTable(defs, recs)
  {
    if recs == [] then [] else Encode(defs, recs[..|recs| - 1]) + EncodeRec(defs, recs[|recs| - 1])
  }

  /** Where record k starts, and where its value starts. */
  function Start(defs: seq<ParamDef>, recs: seq<Rec>, k: nat): nat
    requires k <= |recs| && InTable(defs, recs)
  {
    |Encode(defs, recs[..k])|
  }

  function ValueAt(defs: seq<ParamDef>, recs: seq<Rec>, k: nat): nat
    requires k < |recs| && InTable(defs, recs)
  {
    Start(defs, recs, k) + |defs[recs[k].index].name| + 3
  }

  predicate Stored(recs: seq<Rec>, i: int) {
    exists k :: 0 <= k < |recs| && recs[k].index == i
  }

  /** Each parameter at most once. */
  ghost predicate RecsOk(defs: seq<ParamDef>, recs: seq<Rec>) {
    && InTable(defs, recs)
    && (forall i, j :: 0 <= i < j < |recs| ==> recs[i].index != recs[j].index)
  }

  /** Two bytes hold the size of every value. */
  ghost predicate Sized(recs: seq<Rec>) {
    forall k :: 0 <= k < |recs| ==> |recs[k].value| < 0x1_0000
  }

  lemma Regroup(a: seq<byte>, b: seq<byte>, c: seq<byte>)
    ensures (a + b) + c == a + (b + c)
  {
  }

  lemma EncodeLast(defs: seq<ParamDef>, recs: seq<Rec>, r: Rec)
    requires InTable(defs, recs) && r.index < |defs|
    ensures InTable(defs, recs + [r]) && Encode(defs, recs + [r]) == Encode(defs, recs) + EncodeRec(defs, r)
  {
    hide EncodeRec;
    var c := recs + [r];
    assert c[..|c| - 1] == recs;
  }

  lemma {:induction false} EncodeAppend(defs: seq<ParamDef>, a: seq<Rec>, b: seq<Rec>)
    requires InTable(defs, a) && InTable(defs, b)
    ensures InTable(defs, a + b) && Encode(defs, a + b) == Encode(defs, a) + Encode(defs, b)
    decreases |b|
  {
    if b == [] {
      assert a + b == a;
    } else {
      var n := |b| - 1;
      var b', r := b[..n], b[n];
      assert InTable(defs, b') && r.index < |defs|;
      hide Encode, EncodeRec, InTable;
      assert b == b' + [r] && a + b == (a + b') + [r];
      EncodeAppend(defs, a, b');
      EncodeLast(defs, b', r);
      EncodeLast(defs, a + b', r);
      Regroup(Encode(defs, a), Encode(defs, b'), EncodeRec(defs, r));
    }
  }

  /** The encoding before, at and after record k. */
  lemma EncodeSplits(defs: seq<ParamDef>, recs: seq<Rec>, k: nat)
    requires InTable(defs, recs) && k < |recs|
    ensures Encode(defs, recs) == Encode(defs, recs[..k]) + EncodeRec(defs, recs[k]) + Encode(defs, recs[k + 1..])
    ensures Encode(defs, recs[..k + 1]) == Encode(defs, recs[..k]) + EncodeRec(defs, recs[k])
  {
    assert recs[..k + 1][..k] == recs[..k];
    assert recs == recs[..k + 1] + recs[k + 1..];
    EncodeAppend(defs, recs[..k + 1], recs[k + 1..]);
  }

  lemma Middle(a: seq<byte>, b: seq<byte>, c: seq<byte>)
    ensures (a + b + c)[|a|..|a| + |b|] == b
  {
  }

  /** The bytes of record k sit in the encoding at its start, and records follow each other without overlap. */
  lemma EncodeAt(defs: seq<ParamDef>, recs: seq<Rec>, k: nat)
    requires InTable(defs, recs) && k < |recs|
    ensures Start(defs, recs, k) + |EncodeRec(defs, recs[k])| == Start(defs, recs, k + 1) <= |Encode(defs, recs)|
    ensures Encode(defs, recs)[Start(defs, recs, k)..Start(defs, recs, k + 1)] == EncodeRec(defs, recs[k])
  {
    EncodeSplits(defs, recs, k);
    Middle(Encode(defs, recs[..k]), EncodeRec(defs, recs[k]), Encode(defs, recs[k + 1..]));
  }

  /** The value of record k is where its coordinates point. */
  lemma ValueInPlace(defs: seq<ParamDef>, recs: seq<Rec>, k: nat)
    requires InTable(defs, recs) && k < |recs|
    ensures ValueAt(defs, recs, k) + |recs[k].value| == Start(defs, recs, k + 1) <= |Encode(defs, recs)|
    ensures Encode(defs, recs)[ValueAt(defs, recs, k)..ValueAt(defs, recs, k) + |recs[k].value|] == recs[k].value
  {
    hide Encode;
    EncodeAt(defs, recs, k);
    var e, a, b := Encode(defs, recs), Start(defs, recs, k), Start(defs, recs, k + 1);
    var m := |defs[recs[k].index].name| + 3;
    assert e[a..b][m..] == recs[k].value;
    assert e[a..b][m..] == e[a + m..b];
  }

  lemma {:induction false} StartsOrdered(defs: seq<ParamDef>, recs: seq<Rec>, j: nat, k: nat)
    requires InTable(defs, recs) && j <= k <= |recs|
    ensures Start(defs, recs, j) <= Start(defs, recs, k) <= |Encode(defs, recs)|
    decreases k
  {
    hide Encode, EncodeRec;
    if j < k {
      EncodeAt(defs, recs, k - 1);
      StartsOrdered(defs, recs, j, k - 1);
    }
    assert recs[..|recs|] == recs;
    if k < |recs| {
      EncodeAt(defs, recs, k);
    }
  }

  /** Stored parameters occupy disjoint records within the used part of the buffer. */
  lemma RecordsDisjoint(defs: seq<ParamDef>, recs: seq<Rec>, j: nat, k: nat)
    requires InTable(defs, recs) && j < k < |recs|
    ensures ValueAt(defs, recs, j) + |recs[j].value| <= Start(defs, recs, k) < ValueAt(defs, recs, k)
    ensures ValueAt(defs, recs, k) + |recs[k].value| <= |Encode(defs, recs)|
  {
    ValueInPlace(defs, recs, j);
    ValueInPlace(defs, recs, k);
    StartsOrdered(defs, recs, j + 1, k);
  }

  lemma {:induction false} SameSizes(defs: seq<ParamDef>, a: seq<Rec>, b: seq<Rec>)
    requires InTable(defs, a) && |a| == |b|
    requires forall k :: 0 <= k < |a| ==> a[k].index == b[k].index && |a[k].value| == |b[k].value|
    ensures |Encode(defs, a)| == |Encode(defs, b)|
  {
    if a != [] {
      SameSizes(defs, a[..|a| - 1], b[..|b| - 1]);
    }
  }

  lemma PatchRec(pre: seq<byte>, name: seq<byte>, was: seq<byte>, v: seq<byte>, post: seq<byte>)
    requires |v| == |was|
    ensures var e, at := pre + Item(name, was) + post, |pre| + |name| + 3;
            pre + Item(name, v) + post == e[..at] + v + e[at + |v|..]
  {
    var e, at := pre + Item(name, was) + post, |pre| + |name| + 3;
    assert e[..at] == pre + (name + [0] + LE(|was|, 2));
    assert e[at + |v|..] == post;
  }

  /** Replacing a value by one of the same size changes just its bytes, and moves nothing. */
  lemma EncodeOverwrite(defs: seq<ParamDef>, recs: seq<Rec>, k: nat, v: seq<byte>)
    requires InTable(defs, recs) && k < |recs| && |v| == |recs[k].value|
    ensures var recs' := recs[k := Rec(recs[k].index, v)];
            var at := ValueAt(defs, recs, k);
            && at + |v| <= |Encode(defs, recs)|
            && Encode(defs, recs') == Encode(defs, recs)[..at] + v + Encode(defs, recs)[at + |v|..]
            && (forall i :: 0 <= i < |recs| ==> ValueAt(defs, recs', i) == ValueAt(defs, recs, i))
  {
    hide Encode, Item;
    var recs' := recs[k := Rec(recs[k].index, v)];
    EncodeSplits(defs, recs, k);
    EncodeSplits(defs, recs', k);
    ValueInPlace(defs, recs, k);
    assert recs'[..k] == recs[..k] && recs'[k + 1..] == recs[k + 1..];
    PatchRec(Encode(defs, recs[..k]), defs[recs[k].index].name, recs[k].value, v, Encode(defs, recs[k + 1..]));
    forall i | 0 <= i < |recs| ensures ValueAt(defs, recs', i) == ValueAt(defs, recs, i) {
      SameSizes(defs, recs[..i], recs'[..i]);
    }
  }
}
