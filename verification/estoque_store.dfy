/** The stock table the stock-adjustment use case reads and writes. The repository
    that would back it has no quantity write of its own, so the store is kept abstract:
    rows keyed by stock code, plus the unique product-code index that the
    by-product lookup relies on. */
module EstoqueStore {
  import opened Wrappers

  /** One stock row: its own code, the product it counts, and the quantity on hand. */
  datatype Estoque = Estoque(codigoEstoque: string, codigoProduto: string, quantidade: int)

  /** Rows keyed by stock code, and the product-code index naming each product's row. */
  datatype Store = Store(records: map<string, Estoque>, byProduto: map<string, string>)

  /** One entry of the adjustment ledger. */
  datatype AlteracaoEstoque = AlteracaoEstoque(valorAlteracao: int, codigoEstoque: string)

  /** Each row sits under its own stock code, and the product index names exactly
      the rows, one row per product (both codes are unique columns). */
  ghost predicate Valid(s: Store) {
    && (forall k :: k in s.records ==> s.records[k].codigoEstoque == k)
    && (forall k :: k in s.records ==>
          s.records[k].codigoProduto in s.byProduto && s.byProduto[s.records[k].codigoProduto] == k)
    && (forall p :: p in s.byProduto ==>
          s.byProduto[p] in s.records && s.records[s.byProduto[p]].codigoProduto == p)
  }

  /** No row holds a negative quantity. */
  ghost predicate NonNegative(s: Store) {
    forall k :: k in s.records ==> s.records[k].quantidade >= 0
  }

  /** The lookup by product code; `None` plays the part of a `null` row. */
  function GetByProduto(s: Store, codigoProduto: string): (r: Option<Estoque>)
    ensures r.Some? ==> r.value in s.records.Values
    ensures Valid(s) ==>
      (r.Some? <==> exists k :: k in s.records && s.records[k].codigoProduto == codigoProduto)
    ensures Valid(s) && r.Some? ==>
      r.value.codigoProduto == codigoProduto
      && r.value.codigoEstoque in s.records
      && s.records[r.value.codigoEstoque] == r.value
  {
    if codigoProduto in s.byProduto && s.byProduto[codigoProduto] in s.records
    then Some(s.records[s.byProduto[codigoProduto]])
    else None
  }

  /** The lookup by stock code; `None` plays the part of a `null` row. */
  function GetByCodigo(s: Store, codigoEstoque: string): (r: Option<Estoque>)
    ensures r.Some? <==> codigoEstoque in s.records
    ensures r.Some? ==> r.value == s.records[codigoEstoque]
    ensures Valid(s) && r.Some? ==> r.value.codigoEstoque == codigoEstoque
  {
    if codigoEstoque in s.records then Some(s.records[codigoEstoque]) else None
  }

  /** The quantity write: sets the quantity of one row and touches nothing else.
      A write to a code with no row changes nothing. */
  function AlterarEstoque(s: Store, codigoEstoque: string, quantidade: int): (r: Store)
    ensures r.byProduto == s.byProduto && r.records.Keys == s.records.Keys
    ensures codigoEstoque in s.records ==>
      r.records[codigoEstoque] == s.records[codigoEstoque].(quantidade := quantidade)
    ensures forall k :: k in s.records && k != codigoEstoque ==> r.records[k] == s.records[k]
    ensures Valid(s) ==> Valid(r)
    ensures NonNegative(s) && quantidade >= 0 ==> NonNegative(r)
  {
    if codigoEstoque in s.records
    then s.(records := s.records[codigoEstoque := s.records[codigoEstoque].(quantidade := quantidade)])
    else s
  }
}
