/** Reading packed parameters back from raw bytes. */
module ParamParse {
  import opened Basics
  import opened ParamFormat

  /** strlen: the position of the first zero byte. */
  function NulAt(s: seq<byte>): (r: nat)
    requires 0 in s
    ensures r < |s| && s[r] == 0 && forall i :: 0 <= i < r ==> s[i] != 0
  {
    if s[0] == 0 then 0 else 1 + NulAt(s[1..])
  }

  /** Store a value under a name, unless the name is unknown or already stored. */
  function Keep(defs: seq<ParamDef>, recs: seq<Rec>, name: seq<byte>, value: seq<byte>): seq<Rec> {
    var i := IndexOf(defs, name);
    if i >= 0 && !Stored(recs, i) then recs + [Rec(i, value)] else recs
  }

  /**
   The parser on the bytes from its cursor on, the zero that terminates the string included.
   A record that does not fit is not skipped: parsing goes on right after its size.
   */
  function Parse(defs: seq<ParamDef>, s: seq<byte>, recs: seq<Rec>): seq<Rec>
    requires |s| > 0 && s[|s| - 1] == 0
    decreases |s|
  {
    var avail := |s| - 1;
    if avail == 0 || s[0] == 0 then recs else
      var e := NulAt(s);
      var v := e + 3;
      if v > avail then recs else
        var size := LEValue(s[e + 1..v]);
        if v + size <= avail then Parse(defs, s[v + size..], Keep(defs, recs, s[..e], s[v..v + size]))
        else Parse(defs, s[v..], recs)
  }

  // ---------------------------------------------------------------- well-formed sources

  datatype Named = Named(name: seq<byte>, value: seq<byte>)

  ghost predicate ItemOk(it: Named) {
    it.name != [] && 0 !in it.name && |it.value| < 0x1_0000
  }

  function EncodeItems(items: seq<Named>): seq<byte> {
    if items == [] then [] else Item(items[0].name, items[0].value) + EncodeItems(items[1..])
  }

  /** The first occurrence of every known name. */
  function KeepFirst(defs: seq<ParamDef>, items: seq<Named>, recs: seq<Rec>): seq<Rec>
    decreases |items|
  {
    if items == [] then recs else
      KeepFirst(defs, items[1..], Keep(defs, recs, items[0].name, items[0].value))
  }

  lemma KeepUnfolds(defs: seq<ParamDef>, s: seq<byte>, e: nat, n: nat, recs: seq<Rec>)
    requires |s| > 0 && s[|s| - 1] == 0 && s[0] != 0 && e == NulAt(s)
    requires e + 3 + n <= |s| - 1 && n == LEValue(s[e + 1..e + 3])
    ensures Parse(defs, s, recs) == Parse(defs, s[e + 3 + n..], Keep(defs, recs, s[..e], s[e + 3..e + 3 + n]))
  {
    hide Keep, LEValue, NulAt;
  }

  lemma SizeField(n: nat)
    requires n < 0x1_0000
    ensures LEValue(LE(n, 2)) == n
  {
    LERoundTrip(n, 2);
    assert Pow256(2) == 0x1_0000;
  }

  lemma FirstZero(s: seq<byte>, e: nat)
    requires e < |s| && s[e] == 0 && forall i :: 0 <= i < e ==> s[i] != 0
    ensures 0 in s && NulAt(s) == e
  {
    hide NulAt;
  }

  lemma Pieces(name: seq<byte>, l: seq<byte>, value: seq<byte>, rest: seq<byte>)
    requires |l| == 2
    ensures var s, e := name + [0] + l + value + rest, |name|;
            && |s| == e + 3 + |value| + |rest|
            && s[..e] == name && s[e] == 0 && s[e + 1..e + 3] == l
            && s[e + 3..e + 3 + |value|] == value && s[e + 3 + |value|..] == rest
  {
  }

  /** The parser's view of a record at its cursor. */
  lemma ReadItem(it: Named, rest: seq<byte>)
    requires ItemOk(it)
    ensures var s, e := Item(it.name, it.value) + rest, |it.name|;
            && |s| == e + 3 + |it.value| + |rest|
            && 0 in s && NulAt(s) == e && s[0] != 0
            && s[..e] == it.name
            && LEValue(s[e + 1..e + 3]) == |it.value|
            && s[e + 3..e + 3 + |it.value|] == it.value
            && s[e + 3 + |it.value|..] == rest
  {
    hide LEValue, LE, NulAt;
    SizeField(|it.value|);
    Pieces(it.name, LE(|it.value|, 2), it.value, rest);
    var s, e := Item(it.name, it.value) + rest, |it.name|;
    forall i | 0 <= i < e ensures s[i] != 0 {
      assert s[i] == s[..e][i] == it.name[i];
    }
    FirstZero(s, e);
  }

  /** On a sequence of records, known or not and repeated or not, the parser keeps the first of every known name. */
  lemma {:induction false} ParseItems(defs: seq<ParamDef>, items: seq<Named>, recs: seq<Rec>)
    requires forall k :: 0 <= k < |items| ==> ItemOk(items[k])
    ensures Parse(defs, EncodeItems(items) + [0], recs) == KeepFirst(defs, items, recs)
    decreases |items|
  {
    hide Item, Keep, LEValue, NulAt;
    if items == [] {
      assert EncodeItems(items) + [0] == [0];
    } else {
      var it, rest := items[0], EncodeItems(items[1..]) + [0];
      var s := Item(it.name, it.value) + rest;
      assert EncodeItems(items) + [0] == s by {
        hide Parse, KeepFirst;
      }
      ReadItem(it, rest);
      assert s[|s| - 1] == rest[|rest| - 1] == 0;
      KeepUnfolds(defs, s, |it.name|, |it.value|, recs);
      ParseItems(defs, items[1..], Keep(defs, recs, it.name, it.value));
    }
  }

  // ---------------------------------------------------------------- a store's own bytes

  function ItemsOf(defs: seq<ParamDef>, recs: seq<Rec>): seq<Named>
    requires InTable(defs, recs)
  {
    seq(|recs|, k requires 0 <= k < |recs| => Named(defs[recs[k].index].name, recs[k].value))
  }

  lemma {:induction false} EncodeItemsSnoc(items: seq<Named>, it: Named)
    ensures EncodeItems(items + [it]) == EncodeItems(items) + Item(it.name, it.value)
  {
    hide Item;
    if items == [] {
      assert items + [it] == [it];
      assert [it][1..] == [];
    } else {
      assert (items + [it])[1..] == items[1..] + [it];
      EncodeItemsSnoc(items[1..], it);
    }
  }

  lemma {:induction false} EncodeIsItems(defs: seq<ParamDef>, recs: seq<Rec>)
    requires InTable(defs, recs)
    ensures Encode(defs, recs) == EncodeItems(ItemsOf(defs, recs))
  {
    hide Item;
    if recs != [] {
      var n := |recs| - 1;
      EncodeIsItems(defs, recs[..n]);
      var it := Named(defs[recs[n].index].name, recs[n].value);
      EncodeItemsSnoc(ItemsOf(defs, recs[..n]), it);
      assert ItemsOf(defs, recs) == ItemsOf(defs, recs[..n]) + [it];
    }
  }

  lemma {:induction false} IndexOfEntry(defs: seq<ParamDef>, i: nat)
    requires TableOk(defs) && i < |defs|
    ensures IndexOf(defs, defs[i].name) == i
  {
  }

  lemma {:induction false} KeepsAll(defs: seq<ParamDef>, recs: seq<Rec>, k: nat)
    requires TableOk(defs) && RecsOk(defs, recs) && k <= |recs|
    ensures KeepFirst(defs, ItemsOf(defs, recs)[k..], recs[..k]) == recs
    decreases |recs| - k
  {
    if k == |recs| {
      assert recs[..k] == recs;
    } else {
      var items := ItemsOf(defs, recs)[k..];
      IndexOfEntry(defs, recs[k].index);
      assert items[0] == Named(defs[recs[k].index].name, recs[k].value);
      assert !Stored(recs[..k], recs[k].index);
      assert recs[..k] + [recs[k]] == recs[..k + 1];
      assert items[1..] == ItemsOf(defs, recs)[k + 1..];
      KeepsAll(defs, recs, k + 1);
    }
  }

  lemma ParseSized(defs: seq<ParamDef>, recs: seq<Rec>)
    requires TableOk(defs) && RecsOk(defs, recs) && Sized(recs)
    ensures Parse(defs, Encode(defs, recs) + [0], []) == recs
  {
    var items := ItemsOf(defs, recs);
    EncodeIsItems(defs, recs);
    forall k | 0 <= k < |items| ensures ItemOk(items[k]) {
      assert items[k].name == defs[recs[k].index].name;
    }
    ParseItems(defs, items, []);
    KeepsAll(defs, recs, 0);
    assert items[0..] == items && recs[..0] == [];
  }

  /** Parsing the raw bytes of a store gives back its records exactly when two bytes hold the size of each. */
  lemma ParseEncoded(defs: seq<ParamDef>, recs: seq<Rec>)
    requires TableOk(defs) && RecsOk(defs, recs)
    ensures Parse(defs, Encode(defs, recs) + [0], []) == recs <==> Sized(recs)
  {
    hide Parse, Encode;
    if Sized(recs) {
      ParseSized(defs, recs);
    }
    ParseExtends(defs, Encode(defs, recs) + [0], []);
  }

  // ---------------------------------------------------------------- arbitrary sources

  lemma KeepOk(defs: seq<ParamDef>, recs: seq<Rec>, name: seq<byte>, value: seq<byte>)
    requires RecsOk(defs, recs) && Sized(recs) && |value| < 0x1_0000
    ensures RecsOk(defs, Keep(defs, recs, name, value)) && Sized(Keep(defs, recs, name, value))
    ensures recs <= Keep(defs, recs, name, value)
  {
  }

  /** Whatever the bytes, the parser only adds well-formed records. */
  lemma {:induction false} ParseExtends(defs: seq<ParamDef>, s: seq<byte>, recs: seq<Rec>)
    requires |s| > 0 && s[|s| - 1] == 0 && RecsOk(defs, recs) && Sized(recs)
    ensures RecsOk(defs, Parse(defs, s, recs)) && Sized(Parse(defs, s, recs)) && recs <= Parse(defs, s, recs)
    decreases |s|
  {
    hide Keep, RecsOk, Sized, LEValue, NulAt;
    var avail := |s| - 1;
    if avail > 0 && s[0] != 0 {
      var e := NulAt(s);
      var v := e + 3;
      if v <= avail {
        var size := LEValue(s[e + 1..v]);
        LEValueBound(s[e + 1..v]);
        assert Pow256(2) == 0x1_0000;
        if v + size <= avail {
          KeepOk(defs, recs, s[..e], s[v..v + size]);
          ParseExtends(defs, s[v + size..], Keep(defs, recs, s[..e], s[v..v + size]));
        } else {
          ParseExtends(defs, s[v..], recs);
        }
      }
    }
  }

  /** Slices of the bytes from position j on are slices of the whole. */
  lemma SliceFrom(source: seq<byte>, j: nat, a: nat, b: nat)
    requires j <= |source| && a <= b <= |source| - j
    ensures source[j..][a..b] == source[j + a..j + b]
  {
  }

  lemma DropFrom(source: seq<byte>, j: nat, a: nat)
    requires j + a <= |source|
    ensures source[j..][a..] == source[j + a..]
  {
  }

  /** What is stored in the end, when the parser stands at position j of its source. */
  function ParseFrom(defs: seq<ParamDef>, source: seq<byte>, j: nat, recs: seq<Rec>): seq<Rec>
    requires |source| > 0 && source[|source| - 1] == 0
  {
    if j < |source| then Parse(defs, source[j..], recs) else recs
  }

  lemma Suffix(defs: seq<ParamDef>, source: seq<byte>, j: nat, recs: seq<Rec>)
    requires j < |source| && source[|source| - 1] == 0
    ensures var s := source[j..];
            && |s| == |source| - j && s[|s| - 1] == 0 && s[0] == source[j]
            && ParseFrom(defs, source, j, recs) == Parse(defs, s, recs)
  {
    hide Parse;
  }

  /** At position j the parser sees a name of e bytes. */
  ghost predicate NameAt(source: seq<byte>, j: nat, e: nat) {
    && |source| > 0 && source[|source| - 1] == 0 && j < |source| - 1 && source[j] != 0
    && 0 in source[j..] && e == NulAt(source[j..])
  }

  lemma NameEnds(source: seq<byte>, j: nat)
    requires |source| > 0 && source[|source| - 1] == 0 && j < |source|
    ensures 0 in source[j..]
  {
    assert source[j..][|source| - j - 1] == 0;
  }

  /** No room for the size of the value: the parser stops. */
  lemma StepShort(defs: seq<ParamDef>, source: seq<byte>, j: nat, e: nat, recs: seq<Rec>)
    requires NameAt(source, j, e) && j + e + 3 > |source| - 1
    ensures ParseFrom(defs, source, j, recs) == recs == ParseFrom(defs, source, j + e + 3, recs)
  {
  }

  lemma StepSize(source: seq<byte>, j: nat, e: nat)
    requires NameAt(source, j, e) && j + e + 3 <= |source| - 1
    ensures LEValue(source[j + e + 1..j + e + 3]) < 0x1_0000
  {
    LEValueBound(source[j + e + 1..j + e + 3]);
    assert Pow256(2) == 0x1_0000;
  }

  /** The value fits: it is kept or dropped, and the parser moves past it. */
  lemma StepKeep(defs: seq<ParamDef>, source: seq<byte>, j: nat, e: nat, n: nat, recs: seq<Rec>)
    requires NameAt(source, j, e) && j + e + 3 + n <= |source| - 1 && n == LEValue(source[j + e + 1..j + e + 3])
    ensures ParseFrom(defs, source, j, recs) ==
            ParseFrom(defs, source, j + e + 3 + n, Keep(defs, recs, source[j..j + e], source[j + e + 3..j + e + 3 + n]))
  {
    hide Parse, ParseFrom, Keep, LEValue, NulAt;
    var s, k := source[j..], j + e + 3 + n;
    Suffix(defs, source, j, recs);
    SliceFrom(source, j, e + 1, e + 3);
    KeepUnfolds(defs, s, e, n, recs);
    SliceFrom(source, j, 0, e);
    SliceFrom(source, j, e + 3, e + 3 + n);
    DropFrom(source, j, e + 3 + n);
    Suffix(defs, source, k, Keep(defs, recs, s[..e], s[e + 3..e + 3 + n]));
  }

  /** The value does not fit: the parser moves on to where it would have started. */
  lemma StepSkip(defs: seq<ParamDef>, source: seq<byte>, j: nat, e: nat, n: nat, recs: seq<Rec>)
    requires NameAt(source, j, e) && j + e + 3 <= |source| - 1 < j + e + 3 + n
    requires n == LEValue(source[j + e + 1..j + e + 3])
    ensures ParseFrom(defs, source, j, recs) == ParseFrom(defs, source, j + e + 3, recs)
  {
    hide Keep, LEValue, NulAt;
    SliceFrom(source, j, e + 1, e + 3);
    DropFrom(source, j, e + 3);
  }

  lemma ParseStarts(defs: seq<ParamDef>, source: seq<byte>)
    requires |source| > 0 && source[|source| - 1] == 0
    ensures ParseFrom(defs, source, 0, []) == Parse(defs, source, [])
  {
    assert source[0..] == source;
  }

  lemma ParseEnds(defs: seq<ParamDef>, source: seq<byte>, j: nat, recs: seq<Rec>)
    requires |source| > 0 && source[|source| - 1] == 0
    requires j >= |source| - 1 || source[j] == 0
    ensures ParseFrom(defs, source, j, recs) == recs
  {
  }

  lemma ParseFromExtends(defs: seq<ParamDef>, source: seq<byte>, j: nat, recs: seq<Rec>)
    requires |source| > 0 && source[|source| - 1] == 0 && RecsOk(defs, recs) && Sized(recs)
    ensures RecsOk(defs, ParseFrom(defs, source, j, recs)) && recs <= ParseFrom(defs, source, j, recs)
  {
    hide Parse, RecsOk;
    if j < |source| {
      ParseExtends(defs, source[j..], recs);
    }
  }
}
