/** The read-only queries behind the dashboard and the lookup screens:
    order and occupancy counts for the two charts, the product search, and
    the list of products stored in one slot. */
module Queries {
  import opened Text
  import opened Tables
  import opened Records

  // ---------------------------------------------------------------------
  // Orders chart

  /** The status of an order that has been shipped. */
  const Expedido: string := "EXPEDIDO"

  predicate IsShipped(o: Order) { o.status == Expedido }

  predicate IsPending(o: Order) { o.status != Expedido }

  /** The two slices of the orders chart. */
  datatype OrderCounts = OrderCounts(atendidos: int, pendentes: int)

  /** `atendidos = len(pedidos.search(Q.status == "EXPEDIDO"))`, `pendentes = len(pedidos) - atendidos`:
      pending are exactly the orders in any other status. */
  function CountOrders(pedidos: seq<Order>): (r: OrderCounts)
    ensures r.atendidos == |Search(pedidos, IsShipped)|
    ensures r.pendentes == |Search(pedidos, IsPending)|
    ensures 0 <= r.atendidos && 0 <= r.pendentes && r.atendidos + r.pendentes == |pedidos|
  {
    SearchPartition(pedidos, IsShipped, IsPending);
    var atendidos := |Search(pedidos, IsShipped)|;
    OrderCounts(atendidos, |pedidos| - atendidos)
  }

  /** One more order adds one to exactly one of the two counts, chosen by its status. */
  lemma CountOrdersSnoc(pedidos: seq<Order>, o: Order)
    ensures CountOrders(pedidos + [o]) ==
      if IsShipped(o) then OrderCounts(CountOrders(pedidos).atendidos + 1, CountOrders(pedidos).pendentes)
      else OrderCounts(CountOrders(pedidos).atendidos, CountOrders(pedidos).pendentes + 1)
  {
    SearchAppend(pedidos, [o], IsShipped);
    assert [o][1..] == [];
  }

  // ---------------------------------------------------------------------
  // Occupancy chart

  /** `p.get("posicao") and p["quantidade"] > 0`: the product names a slot and has stock. */
  predicate Occupies(p: Product) { p.posicao != "" && p.quantidade > 0 }

  /** `{p.get("posicao") for p in produtos if p.get("posicao") and p["quantidade"] > 0}`. */
  function OccupiedSlots(produtos: seq<Product>): set<string>
  {
    set p | p in produtos && Occupies(p) :: p.posicao
  }

  /** The two slices of the occupancy chart. */
  datatype Occupancy = Occupancy(ocupadas: int, livres: int)

  lemma {:induction false} OccupiedBound(produtos: seq<Product>)
    ensures |OccupiedSlots(produtos)| <= |Search(produtos, Occupies)|
    decreases |produtos|
  {
    if produtos != [] {
      var init, p := produtos[..|produtos| - 1], produtos[|produtos| - 1];
      assert produtos == init + [p];
      OccupiedBound(init);
      SearchAppend(init, [p], Occupies);
      assert [p][1..] == [];
      if Occupies(p) {
        assert OccupiedSlots(produtos) == OccupiedSlots(init) + {p.posicao};
      } else {
        assert OccupiedSlots(produtos) == OccupiedSlots(init);
      }
    }
  }

  /** `ocupadas` is the number of distinct slots named by stocked products, `livres = total - ocupadas`. */
  function CountOccupancy(produtos: seq<Product>, posicoes: seq<Slot>): (r: Occupancy)
    ensures r.ocupadas == |OccupiedSlots(produtos)|
    ensures r.ocupadas + r.livres == |posicoes|
    ensures 0 <= r.ocupadas <= |Search(produtos, Occupies)| <= |produtos|
  {
    OccupiedBound(produtos);
    var ocupadas := |OccupiedSlots(produtos)|;
    Occupancy(ocupadas, |posicoes| - ocupadas)
  }

  /** A product without stock or without a slot never changes the counts, wherever it sits in the table. */
  lemma IdleProductIgnored(a: seq<Product>, p: Product, b: seq<Product>, posicoes: seq<Slot>)
    requires !Occupies(p)
    ensures CountOccupancy(a + [p] + b, posicoes) == CountOccupancy(a + b, posicoes)
  {
    assert forall q :: q in a + [p] + b <==> q in a + b || q == p;
    assert OccupiedSlots(a + [p] + b) == OccupiedSlots(a + b);
  }

  /** The codes the slot table holds. */
  function SlotCodes(posicoes: seq<Slot>): set<string>
  {
    set s | s in posicoes :: s.codigo
  }

  lemma {:induction false} SlotCodesBound(posicoes: seq<Slot>)
    ensures |SlotCodes(posicoes)| <= |posicoes|
    decreases |posicoes|
  {
    if posicoes != [] {
      var init, s := posicoes[..|posicoes| - 1], posicoes[|posicoes| - 1];
      assert posicoes == init + [s];
      SlotCodesBound(init);
      assert SlotCodes(posicoes) == SlotCodes(init) + {s.codigo};
    }
  }

  /** When every occupied slot named by a product is a registered slot, `livres` is never negative. */
  lemma FreeNonNegative(produtos: seq<Product>, posicoes: seq<Slot>)
    requires forall p :: p in produtos && Occupies(p) ==> Slot(p.posicao) in posicoes
    ensures CountOccupancy(produtos, posicoes).livres >= 0
  {
    assert OccupiedSlots(produtos) <= SlotCodes(posicoes) by {
      forall x | x in OccupiedSlots(produtos)
        ensures x in SlotCodes(posicoes)
      {
        var p :| p in produtos && Occupies(p) && p.posicao == x;
        assert Slot(x) in posicoes && Slot(x).codigo == x;
      }
    }
    SlotCodesBound(posicoes);
    SubsetCard(OccupiedSlots(produtos), SlotCodes(posicoes));
  }

  lemma {:induction false} SubsetCard(a: set<string>, b: set<string>)
    requires a <= b
    ensures |a| <= |b|
    decreases |b|
  {
    if a != {} {
      var x :| x in a;
      SubsetCard(a - {x}, b - {x});
    }
  }

  /** Nothing ties a product's slot to the slot table: one stocked product in a
      slot that was never created, with no slots at all, gives `livres == -1`. */
  lemma OrphanSlotMakesFreeNegative(p: Product)
    requires Occupies(p)
    ensures CountOccupancy([p], []) == Occupancy(1, -1)
  {
    assert OccupiedSlots([p]) == {p.posicao};
  }

  /** Eight slots and one product with quantity 5 in one of them: one occupied, seven free. */
  lemma OccupancyExample(posicoes: seq<Slot>, sku: string, nome: string)
    requires |posicoes| == 8
    ensures CountOccupancy([Product(sku, nome, 5, "1-A-1-1")], posicoes) == Occupancy(1, 7)
  {
    assert OccupiedSlots([Product(sku, nome, 5, "1-A-1-1")]) == {"1-A-1-1"};
  }

  // ---------------------------------------------------------------------
  // Slot contents screen

  /** The condition `(Q.posicao == codigo) & (Q.quantidade > 0)`. */
  function InSlot(codigo: string): Product -> bool
  {
    (p: Product) => p.posicao == codigo && p.quantidade > 0
  }

  /** `produtos.search((Q.posicao == codigo) & (Q.quantidade > 0))`: the stocked products of one slot, in table order. */
  function SlotContents(produtos: seq<Product>, codigo: string): (r: seq<Product>)
    ensures forall p :: p in r <==> p in produtos && p.posicao == codigo && p.quantidade > 0
  {
    Search(produtos, InSlot(codigo))
  }

  /** The slot screen shows something exactly for the slots the occupancy chart counts as occupied. */
  lemma SlotContentsMatchOccupancy(produtos: seq<Product>, codigo: string)
    requires codigo != ""
    ensures SlotContents(produtos, codigo) != [] <==> codigo in OccupiedSlots(produtos)
  {
    var r := SlotContents(produtos, codigo);
    if r != [] {
      assert r[0] in r;
    }
    if codigo in OccupiedSlots(produtos) {
      var p :| p in produtos && Occupies(p) && p.posicao == codigo;
      assert p in r;
    }
  }

  // ---------------------------------------------------------------------
  // Product search screen

  /** `termo in p["nome"].lower() or termo == p["sku"]`, where `termo` is the typed text lower-cased. */
  predicate Matches(entrada: string, p: Product)
  {
    IsSubstring(Lower(entrada), Lower(p.nome)) || Lower(entrada) == p.sku
  }

  function MatchesEntry(entrada: string): Product -> bool
  {
    (p: Product) => Matches(entrada, p)
  }

  /** The products `buscar` lists for the typed text, in table order. */
  function SearchProducts(produtos: seq<Product>, entrada: string): (r: seq<Product>)
    ensures forall p :: p in r <==> p in produtos && Matches(entrada, p)
  {
    Search(produtos, MatchesEntry(entrada))
  }

  /** Results keep table order: searching two tables one after the other lists
      the first table's matches, then the second's. */
  lemma SearchProductsAppend(a: seq<Product>, b: seq<Product>, entrada: string)
    ensures SearchProducts(a + b, entrada) == SearchProducts(a, entrada) + SearchProducts(b, entrada)
  {
    SearchAppend(a, b, MatchesEntry(entrada));
  }

  /** An empty search lists every product, in table order. */
  lemma EmptyEntryListsAll(produtos: seq<Product>)
    ensures SearchProducts(produtos, "") == produtos
  {
    forall p | p in produtos
      ensures MatchesEntry("")(p)
    {
      assert OccursAt([], Lower(p.nome), 0);
    }
    SearchAll(produtos, MatchesEntry(""));
  }

  /** The case the text is typed in does not change the result. */
  lemma SearchIgnoresCase(produtos: seq<Product>, entrada: string)
    ensures SearchProducts(produtos, Upper(entrada)) == SearchProducts(produtos, entrada)
    ensures SearchProducts(produtos, Lower(entrada)) == SearchProducts(produtos, entrada)
  {
    LowerForgetsCase(entrada);
    SearchSameCondition(produtos, MatchesEntry(Upper(entrada)), MatchesEntry(entrada));
    SearchSameCondition(produtos, MatchesEntry(Lower(entrada)), MatchesEntry(entrada));
  }

  /** Typing a product's name, as stored or upper-cased, finds it. */
  lemma SearchFindsByName(produtos: seq<Product>, p: Product)
    requires p in produtos
    ensures p in SearchProducts(produtos, p.nome)
    ensures p in SearchProducts(produtos, Upper(p.nome))
  {
    assert OccursAt(Lower(p.nome), Lower(p.nome), 0);
    SearchIgnoresCase(produtos, p.nome);
  }

  /** Accented Latin-1 letters are matched regardless of case: a product named
      `AÇÚCAR` is listed when `açúcar` is typed, and `ACUCAR` does not find it. */
  lemma AccentedSearchExample()
    ensures SearchProducts([Product("000001", "A\U{00C7}\U{00DA}CAR", 1, "")], "a\U{00E7}\U{00FA}car")
      == [Product("000001", "A\U{00C7}\U{00DA}CAR", 1, "")]
    ensures SearchProducts([Product("000001", "A\U{00C7}\U{00DA}CAR", 1, "")], "ACUCAR") == []
  {
    var p := Product("000001", "A\U{00C7}\U{00DA}CAR", 1, "");
    assert Lower(p.nome) == "a\U{00E7}\U{00FA}car";
    assert Lower("a\U{00E7}\U{00FA}car") == "a\U{00E7}\U{00FA}car";
    assert OccursAt(Lower("a\U{00E7}\U{00FA}car"), Lower(p.nome), 0);
    assert Matches("a\U{00E7}\U{00FA}car", p);
    assert Lower("ACUCAR") == "acucar";
    assert !OccursAt("acucar", Lower(p.nome), 0) by {
      assert Lower(p.nome)[1] != "acucar"[1];
    }
    assert !Matches("ACUCAR", p);
    SearchAll([p], MatchesEntry("a\U{00E7}\U{00FA}car"));
  }

  /** Typing a product's numeric SKU finds it. */
  lemma SearchFindsBySku(produtos: seq<Product>, p: Product)
    requires p in produtos && IsDigits(p.sku)
    ensures p in SearchProducts(produtos, p.sku)
  {
    LowerOfDigits(p.sku);
  }
}
