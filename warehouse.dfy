/** The warehouse database and the operations that write to it: batch slot
    creation, and product registration with its unique-code generator. */
module Warehouse {
  import opened Text
  import opened Tables
  import opened Records
  import opened Slots

  /** `not tabela.search(Q[campo] == valor)`: no record holds `valor` under `campo`. */
  predicate IsFree<R(==,!new)>(tabela: seq<R>, campo: R -> string, valor: string)
  {
    WithValue(tabela, campo, valor) == []
  }

  /** `gerar_codigo(tabela, campo)`. The random source is the parameter `draws`:
      the values `random.randint(1, 999999)` returns, in order, up to one whose
      zero-padded code is free. The result is the first free one, and it is a
      six-digit code held by no record. */
  method GenerateCode<R(==,!new)>(tabela: seq<R>, campo: R -> string, draws: seq<int>) returns (codigo: string)
    requires forall j :: 0 <= j < |draws| ==> 1 <= draws[j] <= 999999
    requires exists j :: 0 <= j < |draws| && IsFree(tabela, campo, PaddedCode(draws[j]))
    ensures |codigo| == 6 && IsDigits(codigo)
    ensures forall r :: r in tabela ==> campo(r) != codigo
    ensures exists k :: 0 <= k < |draws| && codigo == PaddedCode(draws[k]) &&
                        (forall j :: 0 <= j < k ==> !IsFree(tabela, campo, PaddedCode(draws[j])))
  {
    ghost var free :| 0 <= free < |draws| && IsFree(tabela, campo, PaddedCode(draws[free]));
    var k := 0;
    codigo := PaddedCode(draws[0]);
    while !IsFree(tabela, campo, codigo)
      invariant 0 <= k <= free && codigo == PaddedCode(draws[k])
      invariant forall j :: 0 <= j < k ==> !IsFree(tabela, campo, PaddedCode(draws[j]))
      decreases free - k
    {
      k := k + 1;
      codigo := PaddedCode(draws[k]);
    }
    assert 0 <= k < |draws| && codigo == PaddedCode(draws[k]);
  }

  /** One pass of the innermost loop body of `criar_posicoes_em_lote`: offering
      slot `x` after the slots `done` inserts its code exactly when it is absent. */
  lemma InsertMissingStep(t: seq<Slot>, done: seq<SlotCode>, x: SlotCode, cur: seq<Slot>)
    requires cur == InsertMissing(t, Renders(done))
    ensures InsertMissing(t, Renders(done + [x])) ==
      if WithCode(cur, x.Render()) == [] then cur + [Slot(x.Render())] else cur
  {
    RendersSnoc(done, x);
    InsertMissingSnoc(t, Renders(done), x.Render());
  }

  /** Non-positive bounds give no levels, like a bound of zero. */
  lemma LevelsClamped(d: int, l: char, p: nat, nMax: int)
    ensures LevelSlots(d, l, p, nMax) == LevelSlots(d, l, p, RangeLen(nMax))
  {
  }

  /** Non-positive bounds give no shelves, like a bound of zero. */
  lemma ShelvesClamped(d: int, l: char, pMax: int, nMax: int)
    ensures ShelfSlots(d, l, pMax, nMax) == ShelfSlots(d, l, RangeLen(pMax), nMax)
  {
  }

  /** No two products share a SKU. */
  predicate UniqueSkus(produtos: seq<Product>)
  {
    forall i, j :: 0 <= i < j < |produtos| ==> produtos[i].sku != produtos[j].sku
  }

  /** The three tables of `db.json`. */
  class Warehouse {
    var produtos: seq<Product>
    var posicoes: seq<Slot>
    var pedidos: seq<Order>

    /** What the writing operations keep: slot codes are unique, and so are SKUs. */
    ghost predicate Valid()
      reads this
    {
      Distinct(posicoes) && UniqueSkus(produtos)
    }

    /** The database as opened, with whatever the tables already hold. */
    constructor (produtos: seq<Product>, posicoes: seq<Slot>, pedidos: seq<Order>)
      ensures this.produtos == produtos && this.posicoes == posicoes && this.pedidos == pedidos
    {
      this.produtos := produtos;
      this.posicoes := posicoes;
      this.pedidos := pedidos;
    }

    /** `criar_posicoes_em_lote(deposito, letra_ini, letra_fim, prateleiras, niveis)`:
        for each letter, shelf and level in turn, insert the slot's code unless
        a record already has it. The two inner loops are `AddShelves` and
        `AddLevels`. A letter outside `string.ascii_uppercase` makes
        `letras.index` raise before anything is inserted: `ok` is false and
        the table is unchanged. */
    method CreateSlotsBatch(deposito: int, letraIni: char, letraFim: char, prateleiras: int, niveis: int)
      returns (ok: bool)
      modifies this`posicoes
      ensures ok <==> IsLetter(letraIni) && IsLetter(letraFim)
      ensures ok ==> posicoes == InsertMissing(old(posicoes), BatchCodes(deposito, letraIni, letraFim, prateleiras, niveis))
      ensures !ok ==> posicoes == old(posicoes)
      ensures old(Valid()) ==> Valid()
    {
      if !IsLetter(letraIni) || !IsLetter(letraFim) {
        return false;
      }
      ok := true;
      var letras := LetterRange(letraIni, letraFim);
      var i := 0;
      while i < |letras|
        invariant 0 <= i <= |letras|
        invariant posicoes == InsertMissing(old(posicoes), Renders(LetterSlots(deposito, letras[..i], prateleiras, niveis)))
      {
        ghost var done := LetterSlots(deposito, letras[..i], prateleiras, niveis);
        ghost var prev := posicoes;
        AddShelves(deposito, letras[i], prateleiras, niveis);
        ghost var added := ShelfSlots(deposito, letras[i], prateleiras, niveis);
        InsertMissingAppend(old(posicoes), Renders(done), Renders(added));
        RendersAppend(done, added);
        assert letras[..i + 1][..i] == letras[..i];
        assert done + added == LetterSlots(deposito, letras[..i + 1], prateleiras, niveis);
        i := i + 1;
      }
      assert letras[..|letras|] == letras;
      if old(Valid()) {
        InsertMissingDistinct(old(posicoes), BatchCodes(deposito, letraIni, letraFim, prateleiras, niveis));
      }
    }

    /** The shelf loop of `criar_posicoes_em_lote` for one letter `l`. */
    method AddShelves(deposito: int, l: char, prateleiras: int, niveis: int)
      modifies this`posicoes
      ensures posicoes == InsertMissing(old(posicoes), Renders(ShelfSlots(deposito, l, prateleiras, niveis)))
    {
      var p := 1;
      while p <= prateleiras
        invariant 1 <= p <= RangeLen(prateleiras) + 1
        invariant posicoes == InsertMissing(old(posicoes), Renders(ShelfSlots(deposito, l, p - 1, niveis)))
      {
        ghost var done := ShelfSlots(deposito, l, p - 1, niveis);
        AddLevels(deposito, l, p, niveis);
        ghost var added := LevelSlots(deposito, l, p, niveis);
        InsertMissingAppend(old(posicoes), Renders(done), Renders(added));
        RendersAppend(done, added);
        assert done + added == ShelfSlots(deposito, l, p, niveis);
        p := p + 1;
      }
      assert p - 1 == RangeLen(prateleiras);
      ShelvesClamped(deposito, l, prateleiras, niveis);
    }

    /** The level loop of `criar_posicoes_em_lote` for letter `l` and shelf `p`. */
    method AddLevels(deposito: int, l: char, p: nat, niveis: int)
      modifies this`posicoes
      ensures posicoes == InsertMissing(old(posicoes), Renders(LevelSlots(deposito, l, p, niveis)))
    {
      var n := 1;
      while n <= niveis
        invariant 1 <= n <= RangeLen(niveis) + 1
        invariant posicoes == InsertMissing(old(posicoes), Renders(LevelSlots(deposito, l, p, n - 1)))
      {
        var codigo := SlotCode(deposito, l, p, n).Render();
        InsertMissingStep(old(posicoes), LevelSlots(deposito, l, p, n - 1), SlotCode(deposito, l, p, n), posicoes);
        if WithCode(posicoes, codigo) == [] {
          posicoes := posicoes + [Slot(codigo)];
        }
        n := n + 1;
      }
      assert n - 1 == RangeLen(niveis);
      LevelsClamped(deposito, l, p, niveis);
    }

    /** `salvar()` on the products screen: insert a product under a freshly
        generated SKU; the position is stored upper-cased. */
    method RegisterProduct(nome: string, quantidade: int, posicao: string, draws: seq<int>) returns (sku: string)
      requires forall j :: 0 <= j < |draws| ==> 1 <= draws[j] <= 999999
      requires exists j :: 0 <= j < |draws| && IsFree(produtos, Sku, PaddedCode(draws[j]))
      modifies this`produtos
      ensures produtos == old(produtos) + [Product(sku, nome, quantidade, Upper(posicao))]
      ensures |sku| == 6 && IsDigits(sku)
      ensures forall p :: p in old(produtos) ==> p.sku != sku
      ensures exists k :: 0 <= k < |draws| && sku == PaddedCode(draws[k]) &&
                          (forall j :: 0 <= j < k ==> !IsFree(old(produtos), Sku, PaddedCode(draws[j])))
      ensures old(Valid()) ==> Valid()
    {
      sku := GenerateCode(produtos, Sku, draws);
      produtos := produtos + [Product(sku, nome, quantidade, Upper(posicao))];
      assert forall i :: 0 <= i < |produtos| - 1 ==> produtos[i] in old(produtos);
    }
  }
}
