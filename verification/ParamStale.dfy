/**
 The loop that rebuilds a store from raw bytes, with its size variable as the C int that it
 is: it has no value before the first size is read, and a record cut off before its size is
 judged by whatever the variable holds.
 */
module ParamStale {
  import opened ParamFormat
  import opened ParamParse
  import opened ParamRecords

  /** The cursor, the size variable, the end of what is written, and the coordinates given so far. */
  datatype Loop = Loop(j: int, size: int, offset: int, placed: map<nat, (int, int)>)

  function Begin(stale: int): Loop { Loop(0, stale, 0, map[]) }

  ghost predicate Terminated(source: seq<byte>) { |source| > 0 && source[|source| - 1] == 0 }

  /** The loop's guard fails. */
  ghost predicate Ended(source: seq<byte>, l: Loop)
    requires Terminated(source)
  {
    l.j >= |source| - 1 || (l.j >= 0 && source[l.j] == 0)
  }

  /** The loop goes on, reading within the source. */
  ghost predicate GoesOn(source: seq<byte>, l: Loop)
    requires Terminated(source)
  {
    0 <= l.j < |source| - 1 && source[l.j] != 0
  }

  ghost function NameLength(source: seq<byte>, j: nat): (e: nat)
    requires Terminated(source) && j < |source| - 1 && source[j] != 0
    ensures 0 in source[j..] && NameAt(source, j, e) && j + e <= |source| - 1
  {
    NameEnds(source, j);
    NulAt(source[j..])
  }

  /** One turn, for any value of the size variable. */
  ghost function Turn(defs: seq<ParamDef>, source: seq<byte>, l: Loop): Loop
    requires Terminated(source) && GoesOn(source, l)
  {
    var e := NameLength(source, l.j);
    var v := l.j + e + 3;
    var size := if v <= |source| - 1 then LEValue(source[v - 2..v]) else l.size;
    if v + size > |source| - 1 then Loop(v, size, l.offset, l.placed) else
      var i := IndexOf(defs, source[l.j..l.j + e]);
      if i >= 0 && i !in l.placed then
        Loop(v + size, size, l.offset + e + 3 + size, l.placed[i := (l.offset + e + 3, size)])
      else Loop(v + size, size, l.offset, l.placed)
  }

  /** At most n turns. */
  ghost function Turns(defs: seq<ParamDef>, source: seq<byte>, l: Loop, n: nat): Loop
    requires Terminated(source)
    decreases n
  {
    if n == 0 || !GoesOn(source, l) then l else Turns(defs, source, Turn(defs, source, l), n - 1)
  }

  /** From l the loop comes to an end, with these coordinates and this used size. */
  ghost predicate Results(defs: seq<ParamDef>, source: seq<byte>, l: Loop, placed: map<nat, (int, int)>, offset: int)
    requires Terminated(source)
  {
    exists n: nat :: Ended(source, Turns(defs, source, l, n))
                     && Turns(defs, source, l, n).placed == placed && Turns(defs, source, l, n).offset == offset
  }

  lemma TurnsStep(defs: seq<ParamDef>, source: seq<byte>, l: Loop, n: nat)
    requires Terminated(source) && GoesOn(source, l)
    ensures Turns(defs, source, l, n + 1) == Turns(defs, source, Turn(defs, source, l), n)
  {
    hide Turn;
  }

  // ---------------------------------------------------------------- with a size that was read

  /** The coordinates of stored records. */
  ghost function Coords(defs: seq<ParamDef>, recs: seq<Rec>): map<nat, (int, int)>
    requires InTable(defs, recs)
  {
    if recs == [] then map[] else
      var n := |recs| - 1;
      Coords(defs, recs[..n])[recs[n].index := (ValueAt(defs, recs, n), |recs[n].value|)]
  }

  lemma {:induction false} CoordsKeys(defs: seq<ParamDef>, recs: seq<Rec>, i: int)
    requires InTable(defs, recs)
    ensures i in Coords(defs, recs) <==> Stored(recs, i)
  {
    if recs != [] {
      var n := |recs| - 1;
      CoordsKeys(defs, recs[..n], i);
      assert recs == recs[..n] + [recs[n]];
      StoredAppend(recs[..n], recs[n], i);
    }
  }

  /** The loop stands for these records. */
  ghost predicate StandsFor(defs: seq<ParamDef>, l: Loop, recs: seq<Rec>) {
    && l.j >= 0 && l.size >= 0 && InTable(defs, recs)
    && l.placed == Coords(defs, recs) && l.offset == |Encode(defs, recs)|
  }

  lemma CoordsAppend(defs: seq<ParamDef>, recs: seq<Rec>, r: Rec)
    requires InTable(defs, recs) && r.index < |defs|
    ensures var at := |Encode(defs, recs)| + |defs[r.index].name| + 3;
            && InTable(defs, recs + [r])
            && Coords(defs, recs + [r]) == Coords(defs, recs)[r.index := (at, |r.value|)]
            && |Encode(defs, recs + [r])| == at + |r.value|
  {
    var recs' := recs + [r];
    assert recs'[..|recs|] == recs;
  }

  lemma KeepStands(defs: seq<ParamDef>, recs: seq<Rec>, name: seq<byte>, value: seq<byte>)
    requires InTable(defs, recs)
    ensures var i, kept := IndexOf(defs, name), Keep(defs, recs, name, value);
            var at := |Encode(defs, recs)| + |name| + 3;
            && InTable(defs, kept)
            && (i >= 0 && i !in Coords(defs, recs) ==>
                  Coords(defs, kept) == Coords(defs, recs)[i := (at, |value|)] && |Encode(defs, kept)| == at + |value|)
            && (i < 0 || i in Coords(defs, recs) ==> kept == recs)
  {
    hide Coords, Encode;
    var i := IndexOf(defs, name);
    CoordsKeys(defs, recs, i);
    if i >= 0 {
      CoordsAppend(defs, recs, Rec(i, value));
    }
  }

  /** While the size was read, a turn does what the parser does. */
  lemma TurnParses(defs: seq<ParamDef>, source: seq<byte>, l: Loop, recs: seq<Rec>) returns (recs': seq<Rec>)
    requires Terminated(source) && GoesOn(source, l) && StandsFor(defs, l, recs)
    ensures Turn(defs, source, l).j > l.j
    ensures StandsFor(defs, Turn(defs, source, l), recs')
    ensures ParseFrom(defs, source, Turn(defs, source, l).j, recs') == ParseFrom(defs, source, l.j, recs)
  {
    hide ParseFrom, Keep, Coords, Encode, LEValue, IndexOf;
    var e := NameLength(source, l.j);
    var v := l.j + e + 3;
    recs' := recs;
    if v > |source| - 1 {
      StepShort(defs, source, l.j, e, recs);
    } else {
      var n := LEValue(source[v - 2..v]);
      if v + n <= |source| - 1 {
        StepKeep(defs, source, l.j, e, n, recs);
        KeepStands(defs, recs, source[l.j..l.j + e], source[v..v + n]);
        recs' := Keep(defs, recs, source[l.j..l.j + e], source[v..v + n]);
      } else {
        StepSkip(defs, source, l.j, e, n, recs);
      }
    }
  }

  /** From a state with a size that was read, the loop ends with what the parser accepts. */
  lemma {:induction false} LoopParses(defs: seq<ParamDef>, source: seq<byte>, l: Loop, recs: seq<Rec>) returns (n: nat)
    requires Terminated(source) && StandsFor(defs, l, recs)
    ensures Ended(source, Turns(defs, source, l, n))
    ensures StandsFor(defs, Turns(defs, source, l, n), ParseFrom(defs, source, l.j, recs))
    decreases |source| - l.j
  {
    hide ParseFrom, StandsFor, Turn, Turns, Parse;
    StandsAt(defs, l, recs);
    if GoesOn(source, l) {
      var recs' := TurnParses(defs, source, l, recs);
      StandsAt(defs, Turn(defs, source, l), recs');
      var m := LoopParses(defs, source, Turn(defs, source, l), recs');
      n := m + 1;
      TurnsStep(defs, source, l, m);
    } else {
      n := 0;
      NoTurn(defs, source, l);
      ParseEnds(defs, source, l.j, recs);
    }
  }

  lemma NoTurn(defs: seq<ParamDef>, source: seq<byte>, l: Loop)
    requires Terminated(source)
    ensures Turns(defs, source, l, 0) == l
  {
  }

  lemma StandsAt(defs: seq<ParamDef>, l: Loop, recs: seq<Rec>)
    requires StandsFor(defs, l, recs)
    ensures l.j >= 0
  {
  }

  // ---------------------------------------------------------------- with a size that was not

  /** The first record ends before its size, and the leftover decides that its value is complete. */
  ghost predicate Leftover(source: seq<byte>, stale: int)
    requires Terminated(source)
  {
    |source| > 1 && source[0] != 0 &&
    var v := NameLength(source, 0) + 3;
    v > |source| - 1 && v + stale <= |source| - 1
  }

  /** The leftover does no harm: it is not used, does not pass the test, or only moves the cursor to where nothing follows. */
  ghost predicate Harmless(defs: seq<ParamDef>, source: seq<byte>, stale: int)
    requires Terminated(source)
  {
    Leftover(source, stale) ==> IndexOf(defs, source[..NameLength(source, 0)]) < 0 && stale >= -3
  }

  /** From l the loop ends with exactly what the parser accepts. */
  ghost predicate ParserResult(defs: seq<ParamDef>, source: seq<byte>, l: Loop)
    requires Terminated(source)
  {
    var recs := Parse(defs, source, []);
    InTable(defs, recs) && Results(defs, source, l, Coords(defs, recs), |Encode(defs, recs)|)
  }

  lemma Concluded(defs: seq<ParamDef>, source: seq<byte>, l: Loop, n: nat, recs: seq<Rec>)
    requires Terminated(source) && recs == Parse(defs, source, []) && InTable(defs, recs)
    requires var end := Turns(defs, source, l, n);
             Ended(source, end) && end.placed == Coords(defs, recs) && end.offset == |Encode(defs, recs)|
    ensures ParserResult(defs, source, l)
  {
  }

  lemma EmptyStands(defs: seq<ParamDef>)
    ensures StandsFor(defs, Begin(0), [])
    ensures InTable(defs, []) && Coords(defs, []) == map[] && Encode(defs, []) == []
  {
  }

  lemma Immediate(defs: seq<ParamDef>, source: seq<byte>, stale: int)
    requires Terminated(source) && (|source| == 1 || source[0] == 0)
    ensures ParserResult(defs, source, Begin(stale))
  {
    ParseStarts(defs, source);
    ParseEnds(defs, source, 0, []);
    EmptyStands(defs);
    Concluded(defs, source, Begin(stale), 0, []);
  }

  lemma SizeRead(defs: seq<ParamDef>, source: seq<byte>, stale: int)
    requires Terminated(source) && |source| > 1 && source[0] != 0 && NameLength(source, 0) + 3 <= |source| - 1
    ensures Turn(defs, source, Begin(stale)) == Turn(defs, source, Begin(0))
  {
    hide LEValue, IndexOf;
  }

  /** A first record with its size: the leftover is overwritten before it is used. */
  lemma Overwritten(defs: seq<ParamDef>, source: seq<byte>, stale: int)
    requires Terminated(source) && |source| > 1 && source[0] != 0 && NameLength(source, 0) + 3 <= |source| - 1
    ensures ParserResult(defs, source, Begin(stale))
  {
    hide Coords, Encode, ParseFrom, Parse, Turn, Turns;
    SizeRead(defs, source, stale);
    var b := Turn(defs, source, Begin(0));
    EmptyStands(defs);
    ParseStarts(defs, source);
    var recs := TurnParses(defs, source, Begin(0), []);
    var n := LoopParses(defs, source, b, recs);
    TurnsStep(defs, source, Begin(stale), n);
    Concluded(defs, source, Begin(stale), n + 1, Parse(defs, source, []));
  }

  /** A first record without its size is nothing to the parser. */
  lemma CutOff(defs: seq<ParamDef>, source: seq<byte>)
    requires Terminated(source) && |source| > 1 && source[0] != 0 && NameLength(source, 0) + 3 > |source| - 1
    ensures Parse(defs, source, []) == []
  {
    ParseStarts(defs, source);
    StepShort(defs, source, 0, NameLength(source, 0), []);
  }

  lemma TooLarge(defs: seq<ParamDef>, source: seq<byte>, stale: int)
    requires Terminated(source) && |source| > 1 && source[0] != 0
    requires NameLength(source, 0) + 3 > |source| - 1 && NameLength(source, 0) + 3 + stale > |source| - 1
    ensures ParserResult(defs, source, Begin(stale))
  {
    hide Parse;
    CutOff(defs, source);
    EmptyStands(defs);
    TurnsStep(defs, source, Begin(stale), 0);
    Concluded(defs, source, Begin(stale), 1, []);
  }

  // ---------------------------------------------------------------- a leftover that passes

  lemma TurnKeepsPlaced(defs: seq<ParamDef>, source: seq<byte>, l: Loop, i: nat)
    requires Terminated(source) && GoesOn(source, l) && i in l.placed
    ensures i in Turn(defs, source, l).placed
  {
    hide IndexOf, LEValue;
  }

  lemma {:induction false} PlacedStays(defs: seq<ParamDef>, source: seq<byte>, l: Loop, n: nat, i: nat)
    requires Terminated(source) && i in l.placed
    ensures i in Turns(defs, source, l, n).placed
    decreases n
  {
    hide Turn;
    if n > 0 && GoesOn(source, l) {
      TurnKeepsPlaced(defs, source, l, i);
      PlacedStays(defs, source, Turn(defs, source, l), n - 1, i);
    }
  }

  /** A known name: a record of negative size is stored, and stays. */
  lemma KnownName(defs: seq<ParamDef>, source: seq<byte>, stale: int)
    requires Terminated(source) && Leftover(source, stale) && IndexOf(defs, source[..NameLength(source, 0)]) >= 0
    ensures !ParserResult(defs, source, Begin(stale))
  {
    hide Parse, IndexOf;
    CutOff(defs, source);
    EmptyStands(defs);
    var i := IndexOf(defs, source[..NameLength(source, 0)]);
    assert source[0..0 + NameLength(source, 0)] == source[..NameLength(source, 0)];
    forall n: nat ensures Ended(source, Turns(defs, source, Begin(stale), n)) ==> i in Turns(defs, source, Begin(stale), n).placed {
      if n > 0 {
        PlacedStays(defs, source, Turn(defs, source, Begin(stale)), n - 1, i);
      }
    }
  }

  /** The same name, seen from a position inside it. */
  lemma NameTail(source: seq<byte>, j: nat)
    requires Terminated(source) && |source| > 1 && source[0] != 0 && j < NameLength(source, 0)
    ensures j < |source| - 1 && source[j] != 0 && NameLength(source, j) == NameLength(source, 0) - j
  {
    var e := NameLength(source, 0);
    assert source[0..] == source;
    var s := source[j..];
    assert s[e - j] == 0;
    forall i | 0 <= i < e - j ensures s[i] != 0 {
      assert s[i] == source[j + i];
    }
    FirstZero(s, e - j);
  }

  lemma StuckTurn(defs: seq<ParamDef>, source: seq<byte>, l: Loop)
    requires Terminated(source) && |source| > 1 && source[0] != 0 && NameLength(source, 0) + 3 > |source| - 1
    requires 0 <= l.j == NameLength(source, 0) + 3 + l.size < NameLength(source, 0) && GoesOn(source, l)
    ensures Turn(defs, source, l).j == l.j && Turn(defs, source, l).size == l.size
  {
    hide IndexOf, LEValue;
    NameTail(source, l.j);
  }

  /** Moved back into the name, or in front of the source, the cursor never gets out again. */
  lemma {:induction false} NeverEnds(defs: seq<ParamDef>, source: seq<byte>, l: Loop, n: nat)
    requires Terminated(source) && |source| > 1 && source[0] != 0 && NameLength(source, 0) + 3 > |source| - 1
    requires l.j == NameLength(source, 0) + 3 + l.size < NameLength(source, 0)
    ensures !Ended(source, Turns(defs, source, l, n))
    decreases n
  {
    hide Turn;
    if l.j >= 0 {
      NameTail(source, l.j);
      if n > 0 {
        StuckTurn(defs, source, l);
        NeverEnds(defs, source, Turn(defs, source, l), n - 1);
      }
    }
  }

  lemma MovedBack(defs: seq<ParamDef>, source: seq<byte>, stale: int)
    requires Terminated(source) && Leftover(source, stale) && IndexOf(defs, source[..NameLength(source, 0)]) < 0
    ensures Turn(defs, source, Begin(stale)) == Loop(NameLength(source, 0) + 3 + stale, stale, 0, map[])
  {
    hide IndexOf;
    assert source[0..0 + NameLength(source, 0)] == source[..NameLength(source, 0)];
  }

  lemma UnknownBack(defs: seq<ParamDef>, source: seq<byte>, stale: int)
    requires Terminated(source) && Leftover(source, stale)
    requires IndexOf(defs, source[..NameLength(source, 0)]) < 0 && stale < -3
    ensures !ParserResult(defs, source, Begin(stale))
  {
    hide Parse, IndexOf, Turn, Turns, Coords, Encode;
    MovedBack(defs, source, stale);
    var l := Begin(stale);
    assert GoesOn(source, l);
    forall n: nat ensures !Ended(source, Turns(defs, source, l, n)) {
      if n > 0 {
        TurnsStep(defs, source, l, n - 1);
        NeverEnds(defs, source, Turn(defs, source, l), n - 1);
      } else {
        NoTurn(defs, source, l);
      }
    }
  }

  /** Moved back by at most three, it is behind the name, and nothing follows there. */
  lemma UnknownNear(defs: seq<ParamDef>, source: seq<byte>, stale: int)
    requires Terminated(source) && Leftover(source, stale)
    requires IndexOf(defs, source[..NameLength(source, 0)]) < 0 && stale >= -3
    ensures ParserResult(defs, source, Begin(stale))
  {
    hide Parse, IndexOf, LEValue;
    CutOff(defs, source);
    EmptyStands(defs);
    var e := NameLength(source, 0);
    MovedBack(defs, source, stale);
    assert source[0..] == source;
    var l := Turn(defs, source, Begin(stale));
    if GoesOn(source, l) {
      assert l.j == e + 1 && stale == -2 && |source| == e + 3;
      assert NameLength(source, l.j) >= 1;
      TurnsStep(defs, source, Begin(stale), 1);
      Concluded(defs, source, Begin(stale), 2, []);
    } else {
      TurnsStep(defs, source, Begin(stale), 0);
      Concluded(defs, source, Begin(stale), 1, []);
    }
  }

  /**
   Exactly when what the size variable holds before the loop makes no difference: then the loop
   ends with what the parser accepts, and otherwise it stores a record of negative size, reads
   in front of the source, or does not end.
   */
  lemma StaleExact(defs: seq<ParamDef>, source: seq<byte>, stale: int)
    requires Terminated(source)
    ensures ParserResult(defs, source, Begin(stale)) <==> Harmless(defs, source, stale)
  {
    hide ParserResult, IndexOf, Begin;
    if |source| == 1 || source[0] == 0 {
      Immediate(defs, source, stale);
    } else if NameLength(source, 0) + 3 <= |source| - 1 {
      Overwritten(defs, source, stale);
    } else if NameLength(source, 0) + 3 + stale > |source| - 1 {
      TooLarge(defs, source, stale);
    } else if IndexOf(defs, source[..NameLength(source, 0)]) >= 0 {
      KnownName(defs, source, stale);
    } else if stale < -3 {
      UnknownBack(defs, source, stale);
    } else {
      UnknownNear(defs, source, stale);
    }
  }

  /** A source that ends after the name of a known parameter, with a leftover of -3, stores a record of size -3. */
  lemma NegativeSizeStored(d: ParamDef)
    requires TableOk([d])
    ensures var source := d.name + [0];
            && Terminated(source) && !Harmless([d], source, -3)
            && Results([d], source, Begin(-3), map[0 := (|d.name| + 3, -3)], |d.name|)
  {
    var source := d.name + [0];
    var e := |d.name|;
    assert [d][0] == d;
    assert source[..e] == d.name && source[0..] == source && source[0..0 + e] == d.name;
    assert source[0] == d.name[0];
    forall i | 0 <= i < e ensures source[i] != 0 {
      assert source[i] == d.name[i];
    }
    FirstZero(source, e);
    IndexOfEntry([d], 0);
    var l := Turn([d], source, Begin(-3));
    assert l == Loop(e, -3, e, map[0 := (e + 3, -3)]);
    TurnsStep([d], source, Begin(-3), 0);
    assert Turns([d], source, Begin(-3), 1) == l;
  }
}
