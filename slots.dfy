/** Batch slot creation: the codes `{deposito}-{letra}-{prateleira}-{nivel}`
    enumerated letter by letter, shelf by shelf, level by level, and the
    slot table after each code is offered to it under a uniqueness guard. */
module Slots {
  import opened Text
  import opened Tables
  import opened Records

  /** A storage location: depot, aisle letter, shelf and level. */
  datatype SlotCode = SlotCode(deposito: int, letra: char, prateleira: nat, nivel: nat)
  {
    /** The code the batch builder writes; shelf and level are not zero-padded. */
    function Render(): string
    {
      IntStr(deposito) + "-" + [letra] + "-" + NatStr(prateleira) + "-" + NatStr(nivel)
    }
  }

  /** `s.rfind('-')`: the index of the last '-' in s, or -1. */
  function LastDash(s: string): int
    decreases |s|
  {
    if s == [] then -1
    else if s[|s| - 1] == '-' then |s| - 1
    else LastDash(s[..|s| - 1])
  }

  lemma {:induction false} LastDashOf(a: string, b: string)
    requires '-' !in b
    ensures LastDash(a + "-" + b) == |a|
    decreases |b|
  {
    var s := a + "-" + b;
    if b != [] {
      assert b[|b| - 1] in b;
      assert s[..|s| - 1] == a + "-" + b[..|b| - 1];
      assert forall c :: c in b[..|b| - 1] ==> c in b;
      LastDashOf(a, b[..|b| - 1]);
    }
  }

  /** A string with a dash-free tail splits at its last '-' in only one way. */
  lemma SplitAtLastDash(a: string, b: string, c: string, e: string)
    requires '-' !in b && '-' !in e
    requires a + "-" + b == c + "-" + e
    ensures a == c && b == e
  {
    var s := a + "-" + b;
    LastDashOf(a, b);
    LastDashOf(c, e);
    assert a == s[..|a|];
    assert b == s[|a| + 1..];
  }

  /** Different slots never share a code. */
  lemma RenderInjective(x: SlotCode, y: SlotCode)
    ensures x.Render() == y.Render() <==> x == y
  {
    if x.Render() == y.Render() {
      var b1 := IntStr(x.deposito) + "-" + [x.letra];
      var b2 := IntStr(y.deposito) + "-" + [y.letra];
      SplitAtLastDash(b1 + "-" + NatStr(x.prateleira), NatStr(x.nivel),
                      b2 + "-" + NatStr(y.prateleira), NatStr(y.nivel));
      SplitAtLastDash(b1, NatStr(x.prateleira), b2, NatStr(y.prateleira));
      NatStrInjective(x.nivel, y.nivel);
      NatStrInjective(x.prateleira, y.prateleira);
      assert x.letra == b1[|b1| - 1];
      assert IntStr(x.deposito) == b1[..|b1| - 2];
      IntStrInjective(x.deposito, y.deposito);
    }
  }

  /** The number of values in `range(1, n + 1)`. */
  function RangeLen(n: int): nat
  {
    if n < 0 then 0 else n
  }

  /** `string.ascii_uppercase`. */
  function Alphabet(): (r: string)
    ensures |r| == 26
  {
    seq(26, i requires 0 <= i < 26 => ('A' as int + i) as char)
  }

  predicate IsLetter(c: char) { 'A' <= c <= 'Z' }

  /** `letras.index(c)`. */
  function LetterIndex(c: char): (k: nat)
    requires IsLetter(c)
    ensures k < 26 && Alphabet()[k] == c
  {
    c as int - 'A' as int
  }

  /** `letras[letras.index(ini):letras.index(fim) + 1]`: the letters from ini to fim. */
  function LetterRange(ini: char, fim: char): (r: string)
    requires IsLetter(ini) && IsLetter(fim)
    ensures |r| == RangeLen(fim as int - ini as int + 1)
    ensures forall k :: 0 <= k < |r| ==> r[k] as int == ini as int + k
  {
    if LetterIndex(ini) <= LetterIndex(fim) then Alphabet()[LetterIndex(ini)..LetterIndex(fim) + 1] else []
  }

  lemma LetterRangeMembers(ini: char, fim: char)
    requires IsLetter(ini) && IsLetter(fim)
    ensures forall c :: c in LetterRange(ini, fim) <==> ini <= c <= fim
    ensures Ascending(LetterRange(ini, fim))
  {
    var r := LetterRange(ini, fim);
    forall c | ini <= c <= fim
      ensures c in r
    {
      assert r[c as int - ini as int] == c;
    }
  }

  predicate Ascending(ls: string)
  {
    forall i, j :: 0 <= i < j < |ls| ==> ls[i] < ls[j]
  }

  /** x is generated before y: by letter, then shelf, then level. */
  predicate Precedes(x: SlotCode, y: SlotCode)
  {
    || x.letra < y.letra
    || (x.letra == y.letra && x.prateleira < y.prateleira)
    || (x.letra == y.letra && x.prateleira == y.prateleira && x.nivel < y.nivel)
  }

  predicate InNestingOrder(s: seq<SlotCode>)
  {
    forall i, j :: 0 <= i < j < |s| ==> Precedes(s[i], s[j])
  }

  lemma AppendInOrder(a: seq<SlotCode>, b: seq<SlotCode>)
    requires InNestingOrder(a) && InNestingOrder(b)
    requires forall x, y :: x in a && y in b ==> Precedes(x, y)
    ensures InNestingOrder(a + b)
  {
    forall i, j | 0 <= i < j < |a + b|
      ensures Precedes((a + b)[i], (a + b)[j])
    {
      if j < |a| {
        assert (a + b)[i] == a[i] && (a + b)[j] == a[j];
      } else if |a| <= i {
        assert (a + b)[i] == b[i - |a|] && (a + b)[j] == b[j - |a|];
      } else {
        assert (a + b)[i] == a[i] && (a + b)[j] == b[j - |a|];
        assert a[i] in a && b[j - |a|] in b;
      }
    }
  }

  /** The slots of one shelf, levels 1..nMax (the innermost loop). */
  function LevelSlots(d: int, l: char, p: nat, nMax: int): seq<SlotCode>
    decreases nMax
  {
    if nMax <= 0 then [] else LevelSlots(d, l, p, nMax - 1) + [SlotCode(d, l, p, nMax)]
  }

  /** The slots of one aisle letter, shelves 1..pMax, each with levels 1..nMax. */
  function ShelfSlots(d: int, l: char, pMax: int, nMax: int): seq<SlotCode>
    decreases pMax
  {
    if pMax <= 0 then [] else ShelfSlots(d, l, pMax - 1, nMax) + LevelSlots(d, l, pMax, nMax)
  }

  /** The slots of the letters ls in turn, each with shelves 1..pMax and levels 1..nMax. */
  function LetterSlots(d: int, ls: string, pMax: int, nMax: int): seq<SlotCode>
    decreases |ls|
  {
    if ls == [] then []
    else LetterSlots(d, ls[..|ls| - 1], pMax, nMax) + ShelfSlots(d, ls[|ls| - 1], pMax, nMax)
  }

  /** Every slot `criar_posicoes_em_lote` offers, in the order its three loops offer them. */
  function BatchSlots(d: int, ini: char, fim: char, pMax: int, nMax: int): seq<SlotCode>
    requires IsLetter(ini) && IsLetter(fim)
  {
    LetterSlots(d, LetterRange(ini, fim), pMax, nMax)
  }

  lemma LastLetter(ls: string)
    requires ls != []
    ensures forall c :: c in ls <==> c in ls[..|ls| - 1] || c == ls[|ls| - 1]
    ensures Ascending(ls) ==> forall i :: 0 <= i < |ls| - 1 ==> ls[i] < ls[|ls| - 1]
  {
    assert ls == ls[..|ls| - 1] + [ls[|ls| - 1]];
  }

  /** One shelf holds levels 1..nMax, once each, in increasing order. */
  lemma {:induction false} LevelSlotsSpec(d: int, l: char, p: nat, nMax: int)
    ensures |LevelSlots(d, l, p, nMax)| == RangeLen(nMax)
    ensures forall x :: x in LevelSlots(d, l, p, nMax) <==>
      x.deposito == d && x.letra == l && x.prateleira == p && 1 <= x.nivel <= nMax
    ensures InNestingOrder(LevelSlots(d, l, p, nMax))
    decreases nMax
  {
    if nMax > 0 {
      LevelSlotsSpec(d, l, p, nMax - 1);
      AppendInOrder(LevelSlots(d, l, p, nMax - 1), [SlotCode(d, l, p, nMax)]);
    }
  }

  lemma {:induction false} ShelfSlotsLength(d: int, l: char, pMax: int, nMax: int)
    ensures |ShelfSlots(d, l, pMax, nMax)| == RangeLen(pMax) * RangeLen(nMax)
    decreases pMax
  {
    if pMax > 0 {
      ShelfSlotsLength(d, l, pMax - 1, nMax);
      LevelSlotsSpec(d, l, pMax, nMax);
      var k := RangeLen(nMax);
      assert (pMax - 1) * k + k == pMax * k;
    }
  }

  /** One letter holds shelves 1..pMax times levels 1..nMax. */
  lemma {:induction false} ShelfSlotsMembers(d: int, l: char, pMax: int, nMax: int)
    ensures forall x :: x in ShelfSlots(d, l, pMax, nMax) <==>
      x.deposito == d && x.letra == l && 1 <= x.prateleira <= pMax && 1 <= x.nivel <= nMax
    decreases pMax
  {
    if pMax > 0 {
      ShelfSlotsMembers(d, l, pMax - 1, nMax);
      LevelSlotsSpec(d, l, pMax, nMax);
    }
  }

  /** Within one letter, slots come shelf by shelf and level by level. */
  lemma {:induction false} ShelfSlotsOrder(d: int, l: char, pMax: int, nMax: int)
    ensures InNestingOrder(ShelfSlots(d, l, pMax, nMax))
    decreases pMax
  {
    if pMax > 0 {
      var prev := ShelfSlots(d, l, pMax - 1, nMax);
      var row := LevelSlots(d, l, pMax, nMax);
      ShelfSlotsOrder(d, l, pMax - 1, nMax);
      ShelfSlotsMembers(d, l, pMax - 1, nMax);
      LevelSlotsSpec(d, l, pMax, nMax);
      forall x, y | x in prev && y in row
        ensures Precedes(x, y)
      {
        assert x.prateleira < y.prateleira;
      }
      AppendInOrder(prev, row);
    }
  }

  lemma {:induction false} LetterSlotsLength(d: int, ls: string, pMax: int, nMax: int)
    ensures |LetterSlots(d, ls, pMax, nMax)| == |ls| * (RangeLen(pMax) * RangeLen(nMax))
    decreases |ls|
  {
    if ls != [] {
      LetterSlotsLength(d, ls[..|ls| - 1], pMax, nMax);
      ShelfSlotsLength(d, ls[|ls| - 1], pMax, nMax);
      var k := RangeLen(pMax) * RangeLen(nMax);
      assert (|ls| - 1) * k + k == |ls| * k;
    }
  }

  /** The letters ls, each with all its shelves and levels. */
  lemma {:induction false} LetterSlotsMembers(d: int, ls: string, pMax: int, nMax: int)
    ensures forall x :: x in LetterSlots(d, ls, pMax, nMax) <==>
      x.deposito == d && x.letra in ls && 1 <= x.prateleira <= pMax && 1 <= x.nivel <= nMax
    decreases |ls|
  {
    if ls != [] {
      LetterSlotsMembers(d, ls[..|ls| - 1], pMax, nMax);
      ShelfSlotsMembers(d, ls[|ls| - 1], pMax, nMax);
      LastLetter(ls);
    }
  }

  /** Over ascending letters, slots come letter by letter, then shelf, then level. */
  lemma {:induction false} LetterSlotsOrder(d: int, ls: string, pMax: int, nMax: int)
    requires Ascending(ls)
    ensures InNestingOrder(LetterSlots(d, ls, pMax, nMax))
    decreases |ls|
  {
    if ls != [] {
      var prev := LetterSlots(d, ls[..|ls| - 1], pMax, nMax);
      var block := ShelfSlots(d, ls[|ls| - 1], pMax, nMax);
      LetterSlotsOrder(d, ls[..|ls| - 1], pMax, nMax);
      LetterSlotsMembers(d, ls[..|ls| - 1], pMax, nMax);
      ShelfSlotsMembers(d, ls[|ls| - 1], pMax, nMax);
      ShelfSlotsOrder(d, ls[|ls| - 1], pMax, nMax);
      LastLetter(ls);
      forall x, y | x in prev && y in block
        ensures Precedes(x, y)
      {
        var i :| 0 <= i < |ls| - 1 && ls[i] == x.letra;
      }
      AppendInOrder(prev, block);
    }
  }

  /** The batch offers exactly the slots of depot d with letter in ini..fim, shelf in
      1..pMax and level in 1..nMax, each once, ordered by letter, then shelf, then level. */
  lemma BatchSlotsSpec(d: int, ini: char, fim: char, pMax: int, nMax: int)
    requires IsLetter(ini) && IsLetter(fim)
    ensures |BatchSlots(d, ini, fim, pMax, nMax)| ==
            RangeLen(fim as int - ini as int + 1) * (RangeLen(pMax) * RangeLen(nMax))
    ensures forall x :: x in BatchSlots(d, ini, fim, pMax, nMax) <==>
      x.deposito == d && ini <= x.letra <= fim && 1 <= x.prateleira <= pMax && 1 <= x.nivel <= nMax
    ensures InNestingOrder(BatchSlots(d, ini, fim, pMax, nMax))
  {
    LetterRangeMembers(ini, fim);
    LetterSlotsLength(d, LetterRange(ini, fim), pMax, nMax);
    LetterSlotsMembers(d, LetterRange(ini, fim), pMax, nMax);
    LetterSlotsOrder(d, LetterRange(ini, fim), pMax, nMax);
  }

  /** The codes of a sequence of slots, position by position. */
  function Renders(s: seq<SlotCode>): (r: seq<string>)
    ensures |r| == |s|
    ensures forall i :: 0 <= i < |s| ==> r[i] == s[i].Render()
  {
    seq(|s|, i requires 0 <= i < |s| => s[i].Render())
  }

  lemma RendersAppend(a: seq<SlotCode>, b: seq<SlotCode>)
    ensures Renders(a + b) == Renders(a) + Renders(b)
  {
  }

  lemma RendersSnoc(s: seq<SlotCode>, x: SlotCode)
    ensures Renders(s + [x]) == Renders(s) + [x.Render()]
  {
  }

  /** The codes `criar_posicoes_em_lote` offers, in order. */
  function BatchCodes(d: int, ini: char, fim: char, pMax: int, nMax: int): seq<string>
    requires IsLetter(ini) && IsLetter(fim)
  {
    Renders(BatchSlots(d, ini, fim, pMax, nMax))
  }

  // ---------------------------------------------------------------------
  // The slot table under the existence check

  /** `posicoes.search(Q.codigo == codigo)`. */
  function WithCode(t: seq<Slot>, codigo: string): (r: seq<Slot>)
    ensures r == [] <==> Slot(codigo) !in t
  {
    var r := WithValue(t, Codigo, codigo);
    assert Slot(codigo) in t ==> Slot(codigo) in r;
    r
  }

  /** The slot table after each code of `codes` is offered in turn and
      inserted as `{"codigo": c}` only when no record has it yet. */
  function InsertMissing(t: seq<Slot>, codes: seq<string>): (r: seq<Slot>)
    ensures t <= r && |r| <= |t| + |codes|
    decreases |codes|
  {
    if codes == [] then t
    else
      var prev := InsertMissing(t, codes[..|codes| - 1]);
      var c := codes[|codes| - 1];
      if WithCode(prev, c) == [] then prev + [Slot(c)] else prev
  }

  lemma InsertMissingSnoc(t: seq<Slot>, codes: seq<string>, c: string)
    ensures InsertMissing(t, codes + [c]) ==
      if Slot(c) in InsertMissing(t, codes) then InsertMissing(t, codes)
      else InsertMissing(t, codes) + [Slot(c)]
  {
    assert (codes + [c])[..|codes|] == codes;
  }

  /** Offering `a` and then `b` is offering `a + b`: the loops can be split at
      any point and resumed on the table they left. */
  lemma {:induction false} InsertMissingAppend(t: seq<Slot>, a: seq<string>, b: seq<string>)
    ensures InsertMissing(t, a + b) == InsertMissing(InsertMissing(t, a), b)
    decreases |b|
  {
    if b == [] {
      assert a + b == a;
    } else {
      var init, c := b[..|b| - 1], b[|b| - 1];
      assert b == init + [c];
      assert a + b == (a + init) + [c];
      InsertMissingAppend(t, a, init);
      InsertMissingSnoc(t, a + init, c);
      InsertMissingSnoc(InsertMissing(t, a), init, c);
    }
  }

  /** Existing records stay where they were; the table afterwards holds exactly
      the old records and the offered codes. */
  lemma {:induction false} InsertMissingContents(t: seq<Slot>, codes: seq<string>)
    ensures t <= InsertMissing(t, codes)
    ensures forall x :: x in InsertMissing(t, codes) <==> x in t || x.codigo in codes
    decreases |codes|
  {
    if codes != [] {
      var init, c := codes[..|codes| - 1], codes[|codes| - 1];
      assert codes == init + [c];
      InsertMissingSnoc(t, init, c);
      InsertMissingContents(t, init);
      assert forall s :: s in codes <==> s in init || s == c;
    }
  }

  /** A table without duplicate codes keeps none after the batch. */
  lemma {:induction false} InsertMissingDistinct(t: seq<Slot>, codes: seq<string>)
    requires Distinct(t)
    ensures Distinct(InsertMissing(t, codes))
    decreases |codes|
  {
    if codes != [] {
      var init, c := codes[..|codes| - 1], codes[|codes| - 1];
      assert codes == init + [c];
      InsertMissingSnoc(t, init, c);
      InsertMissingDistinct(t, init);
      if Slot(c) !in InsertMissing(t, init) {
        DistinctSnoc(InsertMissing(t, init), Slot(c));
      }
    }
  }

  /** Offering only codes that are already present inserts nothing. */
  lemma {:induction false} InsertMissingPresent(t: seq<Slot>, codes: seq<string>)
    requires forall c :: c in codes ==> Slot(c) in t
    ensures InsertMissing(t, codes) == t
    decreases |codes|
  {
    if codes != [] {
      var init, c := codes[..|codes| - 1], codes[|codes| - 1];
      assert codes == init + [c];
      assert forall s :: s in init ==> s in codes;
      InsertMissingSnoc(t, init, c);
      InsertMissingPresent(t, init);
    }
  }

  /** Offering the same codes a second time inserts nothing. */
  lemma InsertMissingIdempotent(t: seq<Slot>, codes: seq<string>)
    ensures InsertMissing(InsertMissing(t, codes), codes) == InsertMissing(t, codes)
  {
    InsertMissingContents(t, codes);
    InsertMissingPresent(InsertMissing(t, codes), codes);
  }

  /** The condition "no record of t has this code". */
  function NotIn(t: seq<Slot>): string -> bool
  {
    c => Slot(c) !in t
  }

  /** The offered codes that t does not hold yet, in the order offered. */
  function Absent(t: seq<Slot>, codes: seq<string>): seq<string>
  {
    Search(codes, NotIn(t))
  }

  /** One record `{"codigo": c}` per code. */
  function SlotsOf(codes: seq<string>): (r: seq<Slot>)
    ensures |r| == |codes|
    ensures forall i :: 0 <= i < |codes| ==> r[i] == Slot(codes[i])
  {
    seq(|codes|, i requires 0 <= i < |codes| => Slot(codes[i]))
  }

  lemma SlotsOfSnoc(codes: seq<string>, c: string)
    ensures SlotsOf(codes + [c]) == SlotsOf(codes) + [Slot(c)]
    ensures Slot(c) in SlotsOf(codes) <==> c in codes
  {
    if Slot(c) in SlotsOf(codes) {
      var i :| 0 <= i < |codes| && SlotsOf(codes)[i] == Slot(c);
      assert codes[i] == c;
    }
    if c in codes {
      var i :| 0 <= i < |codes| && codes[i] == c;
      assert SlotsOf(codes)[i] == Slot(c);
    }
  }

  lemma AbsentSnoc(t: seq<Slot>, codes: seq<string>, c: string)
    ensures Absent(t, codes + [c]) == Absent(t, codes) + (if Slot(c) in t then [] else [c])
  {
    SearchAppend(codes, [c], NotIn(t));
    assert [c][1..] == [];
  }

  /** With duplicate-free codes, the batch appends exactly the codes that were
      missing, in the order they were offered. */
  lemma {:induction false} InsertMissingExact(t: seq<Slot>, codes: seq<string>)
    requires Distinct(codes)
    ensures InsertMissing(t, codes) == t + SlotsOf(Absent(t, codes))
    decreases |codes|
  {
    if codes != [] {
      var init, c := codes[..|codes| - 1], codes[|codes| - 1];
      assert codes == init + [c];
      assert Distinct(init);
      forall i | 0 <= i < |init|
        ensures init[i] != c
      {
        assert init[i] == codes[i];
      }
      InsertMissingExact(t, init);
      var a := Absent(t, init);
      assert c !in a;
      SlotsOfSnoc(a, c);
      InsertMissingSnoc(t, init, c);
      AbsentSnoc(t, init, c);
    }
  }

  // ---------------------------------------------------------------------
  // What one call of the batch builder does to the slot table

  /** The batch offers no code twice, and exactly one per (letter, shelf, level). */
  lemma BatchCodesDistinct(d: int, ini: char, fim: char, pMax: int, nMax: int)
    requires IsLetter(ini) && IsLetter(fim)
    ensures Distinct(BatchCodes(d, ini, fim, pMax, nMax))
    ensures |BatchCodes(d, ini, fim, pMax, nMax)| ==
            RangeLen(fim as int - ini as int + 1) * (RangeLen(pMax) * RangeLen(nMax))
  {
    var s := BatchSlots(d, ini, fim, pMax, nMax);
    var r := BatchCodes(d, ini, fim, pMax, nMax);
    BatchSlotsSpec(d, ini, fim, pMax, nMax);
    forall i, j | 0 <= i < j < |r|
      ensures r[i] != r[j]
    {
      assert Precedes(s[i], s[j]);
      RenderInjective(s[i], s[j]);
    }
  }

  /** A code is offered exactly when it is the code of a slot of depot d whose
      letter lies in ini..fim, shelf in 1..pMax and level in 1..nMax. */
  lemma BatchCodesMembers(d: int, ini: char, fim: char, pMax: int, nMax: int)
    requires IsLetter(ini) && IsLetter(fim)
    ensures forall x: SlotCode ::
      x.Render() in BatchCodes(d, ini, fim, pMax, nMax) <==>
      x.deposito == d && ini <= x.letra <= fim && 1 <= x.prateleira <= pMax && 1 <= x.nivel <= nMax
    ensures forall c :: c in BatchCodes(d, ini, fim, pMax, nMax) ==>
      exists x: SlotCode :: x in BatchSlots(d, ini, fim, pMax, nMax) && x.Render() == c
  {
    var s := BatchSlots(d, ini, fim, pMax, nMax);
    var r := BatchCodes(d, ini, fim, pMax, nMax);
    assert forall x :: x in s <==>
      x.deposito == d && ini <= x.letra <= fim && 1 <= x.prateleira <= pMax && 1 <= x.nivel <= nMax
    by {
      BatchSlotsSpec(d, ini, fim, pMax, nMax);
    }
    forall x: SlotCode
      ensures x.Render() in r <==> x in s
    {
      if x in s {
        var i :| 0 <= i < |s| && s[i] == x;
        assert r[i] == x.Render();
      }
      if x.Render() in r {
        var i :| 0 <= i < |r| && r[i] == x.Render();
        RenderInjective(s[i], x);
      }
    }
    forall c | c in r
      ensures exists x: SlotCode :: x in s && x.Render() == c
    {
      var i :| 0 <= i < |r| && r[i] == c;
      assert s[i] in s && s[i].Render() == c;
    }
  }

  /** After the batch every slot code of the requested ranges is in the table,
      the old records are untouched at the front, and nothing but old records
      and offered codes is there. */
  lemma BatchCoversRanges(t: seq<Slot>, d: int, ini: char, fim: char, pMax: int, nMax: int)
    requires IsLetter(ini) && IsLetter(fim)
    ensures t <= InsertMissing(t, BatchCodes(d, ini, fim, pMax, nMax))
    ensures forall l: char, p: nat, n: nat ::
      ini <= l <= fim && 1 <= p <= pMax && 1 <= n <= nMax ==>
      Slot(SlotCode(d, l, p, n).Render()) in InsertMissing(t, BatchCodes(d, ini, fim, pMax, nMax))
  {
    BatchCodesMembers(d, ini, fim, pMax, nMax);
    InsertMissingContents(t, BatchCodes(d, ini, fim, pMax, nMax));
  }

  /** The batch appends exactly the missing codes of the ranges, in letter,
      shelf, level order; into a table holding none of them it appends them all. */
  lemma BatchAppendsMissing(t: seq<Slot>, d: int, ini: char, fim: char, pMax: int, nMax: int)
    requires IsLetter(ini) && IsLetter(fim)
    ensures InsertMissing(t, BatchCodes(d, ini, fim, pMax, nMax)) ==
            t + SlotsOf(Absent(t, BatchCodes(d, ini, fim, pMax, nMax)))
    ensures (forall c :: c in BatchCodes(d, ini, fim, pMax, nMax) ==> Slot(c) !in t) ==>
            |InsertMissing(t, BatchCodes(d, ini, fim, pMax, nMax))| ==
            |t| + RangeLen(fim as int - ini as int + 1) * (RangeLen(pMax) * RangeLen(nMax))
  {
    var codes := BatchCodes(d, ini, fim, pMax, nMax);
    BatchCodesDistinct(d, ini, fim, pMax, nMax);
    InsertMissingExact(t, codes);
    if forall c :: c in codes ==> Slot(c) !in t {
      SearchAll(codes, NotIn(t));
    }
  }

  /** An empty letter range or a non-positive shelf or level count leaves the table as it was. */
  lemma EmptyRangeNoChange(t: seq<Slot>, d: int, ini: char, fim: char, pMax: int, nMax: int)
    requires IsLetter(ini) && IsLetter(fim)
    requires fim < ini || pMax <= 0 || nMax <= 0
    ensures InsertMissing(t, BatchCodes(d, ini, fim, pMax, nMax)) == t
  {
    BatchSlotsSpec(d, ini, fim, pMax, nMax);
    assert BatchCodes(d, ini, fim, pMax, nMax) == [];
  }

  /** The code of a slot whose depot, shelf and level are single digits. */
  lemma RenderSingleDigits(x: SlotCode)
    requires 0 <= x.deposito < 10 && x.prateleira < 10 && x.nivel < 10
    ensures x.Render() == [DigitChar(x.deposito), '-', x.letra, '-', DigitChar(x.prateleira), '-', DigitChar(x.nivel)]
  {
  }

  lemma TwoLevels(d: int, l: char, p: nat)
    ensures LevelSlots(d, l, p, 2) == [SlotCode(d, l, p, 1), SlotCode(d, l, p, 2)]
  {
    assert LevelSlots(d, l, p, 1) == [SlotCode(d, l, p, 1)];
  }

  lemma TwoShelves(d: int, l: char, nMax: int)
    ensures ShelfSlots(d, l, 2, nMax) == LevelSlots(d, l, 1, nMax) + LevelSlots(d, l, 2, nMax)
  {
    assert ShelfSlots(d, l, 1, nMax) == LevelSlots(d, l, 1, nMax);
  }

  lemma TwoLetters(d: int, ls: string, pMax: int, nMax: int)
    requires |ls| == 2
    ensures LetterSlots(d, ls, pMax, nMax) == ShelfSlots(d, ls[0], pMax, nMax) + ShelfSlots(d, ls[1], pMax, nMax)
  {
    assert ls[..1][..0] == [];
    assert LetterSlots(d, ls[..1], pMax, nMax) == ShelfSlots(d, ls[0], pMax, nMax);
  }

  lemma ExampleCode(l: char, p: nat, n: nat)
    requires 1 <= p <= 2 && 1 <= n <= 2
    ensures SlotCode(1, l, p, n).Render() ==
      ['1', '-', l, '-', if p == 1 then '1' else '2', '-', if n == 1 then '1' else '2']
  {
    RenderSingleDigits(SlotCode(1, l, p, n));
  }

  lemma ExampleSlots()
    ensures BatchSlots(1, 'A', 'B', 2, 2) ==
      [SlotCode(1, 'A', 1, 1), SlotCode(1, 'A', 1, 2), SlotCode(1, 'A', 2, 1), SlotCode(1, 'A', 2, 2),
       SlotCode(1, 'B', 1, 1), SlotCode(1, 'B', 1, 2), SlotCode(1, 'B', 2, 1), SlotCode(1, 'B', 2, 2)]
  {
    var ab := LetterRange('A', 'B');
    assert ab[0] == 'A' && ab[1] == 'B';
    TwoLetters(1, ab, 2, 2);
    TwoShelves(1, 'A', 2);
    TwoShelves(1, 'B', 2);
    TwoLevels(1, 'A', 1);
    TwoLevels(1, 'A', 2);
    TwoLevels(1, 'B', 1);
    TwoLevels(1, 'B', 2);
  }

  /** Depot 1, letters A..B, two shelves, two levels: eight codes, unpadded. */
  lemma BatchExample()
    ensures BatchCodes(1, 'A', 'B', 2, 2) ==
      ["1-A-1-1", "1-A-1-2", "1-A-2-1", "1-A-2-2", "1-B-1-1", "1-B-1-2", "1-B-2-1", "1-B-2-2"]
  {
    ExampleSlots();
    var all := BatchSlots(1, 'A', 'B', 2, 2);
    var codes := ["1-A-1-1", "1-A-1-2", "1-A-2-1", "1-A-2-2", "1-B-1-1", "1-B-1-2", "1-B-2-1", "1-B-2-2"];
    forall i | 0 <= i < 8
      ensures Renders(all)[i] == codes[i]
    {
      ExampleCode(all[i].letra, all[i].prateleira, all[i].nivel);
    }
  }




}
