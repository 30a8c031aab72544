/**
 * One intag column of a document's forward record (dbmode-blob.c, UdmBlobEncodeBdictiRecord):
 * the words of one hash class, sorted by word, section and position.
 */
module ForwardRecord {
  import opened Bytes
  import opened Seqs
  import opened Coord
  import opened Rows
  import opened Sections

  /** UDM_WORD. */
  datatype Word = Word(word: seq<byte>, pos: nat, secno: byte)

  /** SaveSectionSize, and how many positions each section of the document has (CrossWords.wordpos). */
  datatype Context = Context(save: bool, wordpos: byte -> nat)

  /** udm_coord_put of a difference; a negative one has no code. */
  function GapCode(prev: nat, pos: nat): seq<byte> {
    if pos >= prev then TryPut(pos - prev, 4) else []
  }

  predicate SameSection(a: Word, b: Word) { a.word == b.word && a.secno == b.secno }

  predicate EndOfSection(ws: seq<Word>)
    requires ws != []
  {
    |ws| == 1 || !SameSection(ws[0], ws[1])
  }

  function SectionLength(c: Context, w: Word): seq<byte> {
    if c.save then GapCode(w.pos, c.wordpos(w.secno) + 1) else []
  }

  /** The bytes one pass of the encoder's loop appends. */
  function Step(ws: seq<Word>, pw: seq<byte>, ps: byte, pp: nat, c: Context): seq<byte>
    requires ws != []
  {
    var w := ws[0];
    var newWord := w.word != pw;
    var newSecno := w.secno != if newWord then 0 else ps;
    var prev := if newWord || newSecno then 0 else pp;
    (if newWord then (if pw != [] then [0, 0] else []) + w.word else [])
    + (if newSecno then [0, w.secno] else [])
    + GapCode(prev, w.pos)
    + (if EndOfSection(ws) then SectionLength(c, w) else [])
  }

  /** Everything still to be written after the word pw, section ps and position pp. */
  function Enc(ws: seq<Word>, pw: seq<byte>, ps: byte, pp: nat, c: Context): seq<byte>
    decreases |ws|
  {
    if ws == [] then [] else Step(ws, pw, ps, pp, c) + Enc(ws[1..], ws[0].word, ws[0].secno, ws[0].pos, c)
  }

  lemma EncStep(pre: seq<byte>, ws: seq<Word>, j: nat, pw: seq<byte>, ps: byte, pp: nat, c: Context)
    requires j < |ws|
    ensures pre + Enc(ws[j..], pw, ps, pp, c) ==
            pre + Step(ws[j..], pw, ps, pp, c) + Enc(ws[j + 1..], ws[j].word, ws[j].secno, ws[j].pos, c)
  {
    hide Step;
    assert ws[j..][1..] == ws[j + 1..];
    Assoc(pre, Step(ws[j..], pw, ps, pp, c), Enc(ws[j + 1..], ws[j].word, ws[j].secno, ws[j].pos, c));
  }

  /** One pass of the encoder's loop. */
  method EncodeWord(before: seq<byte>, ws: seq<Word>, j: nat, pw: seq<byte>, ps: byte, pp: nat, c: Context)
    returns (dbuf: seq<byte>)
    requires j < |ws|
    ensures dbuf == before + Step(ws[j..], pw, ps, pp, c)
  {
    hide GapCode;
    var w := ws[j];
    var prevSecno, prevPos := ps, pp;
    dbuf := before;
    if w.word != pw {
      if pw != [] { dbuf := dbuf + [0, 0]; }
      dbuf := dbuf + w.word;
      prevSecno, prevPos := 0, 0;
    }
    ghost var a := (if w.word != pw then (if pw != [] then [0, 0] else []) + w.word else []);
    assert dbuf == before + a;
    if w.secno != prevSecno {
      dbuf := dbuf + [0, w.secno];
      prevPos := 0;
    }
    ghost var b := if w.secno != (if w.word != pw then 0 else ps) then [0, w.secno] else [];
    var g := GapCode(prevPos, w.pos);
    dbuf := dbuf + g;
    Assoc4(before, a, b, g);
    if c.save && (j + 1 >= |ws| || w.word != ws[j + 1].word || w.secno != ws[j + 1].secno) {
      dbuf := dbuf + GapCode(w.pos, c.wordpos(w.secno) + 1);
    }
    Assoc(before, a + b + g, if EndOfSection(ws[j..]) then SectionLength(c, w) else []);
  }

  /** The encoder's loop over one of the 32 lists. */
  method EncodeColumn(ws: seq<Word>, c: Context) returns (dbuf: seq<byte>)
    ensures dbuf == Enc(ws, [], 0, 0, c)
  {
    hide Enc, Step;
    dbuf := [];
    var prevPos: nat, prevSecno: byte, prevWord := 0, 0, [];
    var j := 0;
    assert ws[0..] == ws && [] + Enc(ws, [], 0, 0, c) == Enc(ws, [], 0, 0, c);
    while j < |ws|
      invariant j <= |ws| && dbuf + Enc(ws[j..], prevWord, prevSecno, prevPos, c) == Enc(ws, [], 0, 0, c)
    {
      EncStep(dbuf, ws, j, prevWord, prevSecno, prevPos, c);
      dbuf := EncodeWord(dbuf, ws, j, prevWord, prevSecno, prevPos, c);
      prevWord, prevSecno, prevPos := ws[j].word, ws[j].secno, ws[j].pos;
      j := j + 1;
    }
    EncNothing(dbuf, prevWord, prevSecno, prevPos, c);
    assert ws[|ws|..] == [];
  }

  lemma EncNothing(pre: seq<byte>, pw: seq<byte>, ps: byte, pp: nat, c: Context)
    ensures pre + Enc([], pw, ps, pp, c) == pre
  {
  }

  /**
   * Word "a" at positions 3 and 5 of section 1 with 9 words, and "b" at 4 of section 2 with 6: a zero byte before a
   * section, two before a new word, differences of positions, and at the end of a section the step to its length.
   */
  lemma LiteralColumn(c: Context)
    requires c.save && c.wordpos(1) == 9 && c.wordpos(2) == 6
    ensures Enc([Word([97], 3, 1), Word([97], 5, 1), Word([98], 4, 2)], [], 0, 0, c) ==
            [97, 0, 1, 3] + ([2, 5] + [0, 0, 98, 0, 2, 4, 3])
  {
    hide Step;
    var v, w, x := Word([97], 3, 1), Word([97], 5, 1), Word([98], 4, 2);
    assert [v, w, x][1..] == [w, x] && [w, x][1..] == [x] && [x][1..] == [];
    LiteralSteps(c, v, w, x);
    assert Enc([x], [97], 1, 5, c) == Step([x], [97], 1, 5, c) + Enc([], [98], 2, 4, c);
  }

  lemma LiteralSteps(c: Context, v: Word, w: Word, x: Word)
    requires c.save && c.wordpos(1) == 9 && c.wordpos(2) == 6
    requires v == Word([97], 3, 1) && w == Word([97], 5, 1) && x == Word([98], 4, 2)
    ensures Step([v, w, x], [], 0, 0, c) == [97, 0, 1, 3] && Step([w, x], [97], 1, 3, c) == [2, 5]
    ensures Step([x], [97], 1, 5, c) == [0, 0, 98, 0, 2, 4, 3]
  {
  }

  // ---------- The reference: one entry per (word, section) ----------

  /** The words after the leading section. */
  function AfterSection(ws: seq<Word>): (r: seq<Word>)
    requires ws != []
    ensures |r| < |ws|
    decreases |ws|
  {
    if EndOfSection(ws) then ws[1..] else AfterSection(ws[1..])
  }

  /** Position differences of the leading section, and the step to the section length if it is saved. */
  function Gaps(prev: nat, ws: seq<Word>, c: Context): (gs: seq<nat>)
    requires ws != []
    ensures gs != []
    decreases |ws|
  {
    [Minus(ws[0].pos, prev)] +
    if !EndOfSection(ws) then Gaps(ws[0].pos, ws[1..], c)
    else if c.save then [Minus(c.wordpos(ws[0].secno) + 1, ws[0].pos)] else []
  }

  /** Increasing positions with a code, none past the section's word count, and a step to the length with a code. */
  ghost predicate GoodSection(prev: nat, ws: seq<Word>, c: Context)
    requires ws != []
    decreases |ws|
  {
    && prev < ws[0].pos < LIMIT && ws[0].pos <= c.wordpos(ws[0].secno)
    && if EndOfSection(ws) then c.save ==> c.wordpos(ws[0].secno) + 1 - ws[0].pos < LIMIT
       else GoodSection(ws[0].pos, ws[1..], c)
  }

  ghost predicate GoodColumn(ws: seq<Word>, c: Context)
    decreases |ws|
  {
    ws != [] ==>
      && ws[0].word != [] && 0 !in ws[0].word && ws[0].secno != 0
      && GoodSection(0, ws, c) && |Gaps(0, ws, c)| < LIMIT
      && GoodColumn(AfterSection(ws), c)
  }

  lemma {:induction false} GapsAreCodable(prev: nat, ws: seq<Word>, c: Context)
    requires ws != [] && GoodSection(prev, ws, c)
    ensures forall i :: 0 <= i < |Gaps(prev, ws, c)| ==> 0 < Gaps(prev, ws, c)[i] < LIMIT
    ensures prev + Sum(Gaps(prev, ws, c)) < 2 * LIMIT
    decreases |ws|
  {
    if !EndOfSection(ws) {
      GapsAreCodable(ws[0].pos, ws[1..], c);
      SumConcat([Minus(ws[0].pos, prev)], Gaps(ws[0].pos, ws[1..], c));
    } else if c.save {
      var a, b := Minus(ws[0].pos, prev), Minus(c.wordpos(ws[0].secno) + 1, ws[0].pos);
      SumConcat([a], [b]);
    } else {
      SumConcat([Minus(ws[0].pos, prev)], []);
    }
  }

  /** The gaps of a good section as values that have a code. */
  ghost function GapValues(prev: nat, ws: seq<Word>, c: Context): (vs: seq<value>)
    requires ws != [] && GoodSection(prev, ws, c)
    ensures vs == Gaps(prev, ws, c)
  {
    GapsAreCodable(prev, ws, c);
    Gaps(prev, ws, c)
  }

  lemma StepInside(prev: nat, ws: seq<Word>, c: Context)
    requires ws != [] && ws[0].secno != 0 && prev < ws[0].pos < LIMIT
    ensures Step(ws, ws[0].word, ws[0].secno, prev, c) ==
            Put(ws[0].pos - prev) + if EndOfSection(ws) then SectionLength(c, ws[0]) else []
  {
    hide Put, SectionLength;
  }

  lemma GapValuesStep(prev: nat, ws: seq<Word>, c: Context)
    requires ws != [] && GoodSection(prev, ws, c) && !EndOfSection(ws)
    ensures Codes(GapValues(prev, ws, c)) == Put(ws[0].pos - prev) + Codes(GapValues(ws[0].pos, ws[1..], c))
  {
    hide Put;
    assert GapValues(prev, ws, c)[1..] == GapValues(ws[0].pos, ws[1..], c);
  }

  /** The encoder writes the leading section as the codes of its gaps. */
  lemma {:induction false} EncSection(prev: nat, ws: seq<Word>, c: Context)
    requires ws != [] && ws[0].secno != 0 && GoodSection(prev, ws, c)
    requires AfterSection(ws) != [] ==> AfterSection(ws)[0].secno != 0
    ensures Enc(ws, ws[0].word, ws[0].secno, prev, c) ==
            Codes(GapValues(prev, ws, c)) + Enc(AfterSection(ws), ws[0].word, ws[0].secno, 0, c)
    decreases |ws|
  {
    hide Put, SectionLength, Codes, GapValues, Step;
    var w := ws[0];
    StepInside(prev, ws, c);
    if !EndOfSection(ws) {
      EncSection(w.pos, ws[1..], c);
      GapValuesStep(prev, ws, c);
      var p, rest := Put(w.pos - prev), Enc(AfterSection(ws), w.word, w.secno, 0, c);
      Assoc(p, Codes(GapValues(w.pos, ws[1..], c)), rest);
      assert p + [] == p;
    } else {
      EncIgnoresPosition(ws, c);
      LastCodes(prev, ws, c);
    }
  }

  lemma LastCodes(prev: nat, ws: seq<Word>, c: Context)
    requires ws != [] && GoodSection(prev, ws, c) && EndOfSection(ws)
    ensures Codes(GapValues(prev, ws, c)) == Put(ws[0].pos - prev) + SectionLength(c, ws[0])
  {
    var vs := GapValues(prev, ws, c);
    if c.save {
      assert vs == [ws[0].pos - prev, c.wordpos(ws[0].secno) + 1 - ws[0].pos];
      assert vs[1..][1..] == [];
    } else {
      assert vs == [ws[0].pos - prev];
    }
  }

  lemma EncIgnoresPosition(ws: seq<Word>, c: Context)
    requires ws != [] && EndOfSection(ws) && (|ws| > 1 ==> ws[1].secno != 0)
    ensures Enc(ws[1..], ws[0].word, ws[0].secno, ws[0].pos, c) == Enc(ws[1..], ws[0].word, ws[0].secno, 0, c)
  {
    if |ws| > 1 {
      assert Step(ws[1..], ws[0].word, ws[0].secno, ws[0].pos, c) == Step(ws[1..], ws[0].word, ws[0].secno, 0, c);
    }
  }
}
