/** The three document tables of the warehouse database, one record type each.
    Only the fields the inventory logic reads or writes are modelled. */
module Records {

  /** A row of `produtos`: `{"sku", "nome", "quantidade", "posicao"}`. */
  datatype Product = Product(sku: string, nome: string, quantidade: int, posicao: string)

  /** A row of `posicoes`: `{"codigo"}`. */
  datatype Slot = Slot(codigo: string)

  /** A row of `pedidos`; only its `status` is ever read. */
  datatype Order = Order(status: string)

  /** The `sku` field, as a selector usable where a field name is expected. */
  function Sku(p: Product): string { p.sku }

  /** The `codigo` field, as a selector. */
  function Codigo(s: Slot): string { s.codigo }
}
