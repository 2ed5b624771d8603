/** The list-backed address repository: a seeded list of addresses, a lookup that scans
    it front to back, and a save that appends. */
module InMemoryEnderecos {
  import opened Wrappers

  datatype Endereco = Endereco(
    codigoEndereco: string, cep: string, nomeRua: string, numeroCasa: string, complemento: string,
    bairro: string, cidade: string, estado: string, codigoCliente: string)

  /** The one address a fresh repository holds. */
  const Seed: Endereco := Endereco("EQQWWWEEERRR", "12970000", "Rua 1", "44B", "", "Centro",
                                   "Piracaia", "São Paulo", "C12312323123")

  /** The items of a fresh repository. */
  const InitialItems: seq<Endereco> := [Seed]

  /** The index of the first item carrying `codigo`, if any: the reference the scan is
      measured against. */
  function FirstIndex(items: seq<Endereco>, codigo: string): (r: Option<nat>)
    ensures r.Some? ==>
      && r.value < |items|
      && items[r.value].codigoEndereco == codigo
      && forall j :: 0 <= j < r.value ==> items[j].codigoEndereco != codigo
    ensures r.None? <==> forall j :: 0 <= j < |items| ==> items[j].codigoEndereco != codigo
  {
    if |items| == 0 then None
    else if items[0].codigoEndereco == codigo then Some(0)
    else match FirstIndex(items[1..], codigo)
      case None => None
      case Some(i) => Some(i + 1)
  }

  /** `getByCodigoEndereco`: scans from the front and returns the first item with the
      code, or `None` (the source's `null`) when there is none. */
  method GetByCodigoEndereco(items: seq<Endereco>, codigo: string) returns (r: Option<Endereco>)
    ensures r.None? <==> forall j :: 0 <= j < |items| ==> items[j].codigoEndereco != codigo
    ensures r.Some? ==>
      exists i :: 0 <= i < |items| && items[i] == r.value && r.value.codigoEndereco == codigo
        && forall j :: 0 <= j < i ==> items[j].codigoEndereco != codigo
    ensures r.Some? ==> FirstIndex(items, codigo).Some? && r.value == items[FirstIndex(items, codigo).value]
  {
    var i := 0;
    while i < |items|
      invariant 0 <= i <= |items|
      invariant forall j :: 0 <= j < i ==> items[j].codigoEndereco != codigo
    {
      if items[i].codigoEndereco == codigo {
        return Some(items[i]);
      }
      i := i + 1;
    }
    return None;
  }

  /** `save`: the address goes at the end, and every earlier item stays where it was. */
  function Save(items: seq<Endereco>, endereco: Endereco): (r: seq<Endereco>)
    ensures |r| == |items| + 1 && r[|items|] == endereco
    ensures forall j :: 0 <= j < |items| ==> r[j] == items[j]
  {
    items + [endereco]
  }

  /** Saving never hides an existing address: a code already present still finds its
      first holder, and a new code finds the saved address at the end. Duplicates are not
      rejected. */
  lemma SaveKeepsFirstMatch(items: seq<Endereco>, endereco: Endereco, codigo: string)
    ensures FirstIndex(Save(items, endereco), codigo)
         == if FirstIndex(items, codigo).Some? then FirstIndex(items, codigo)
            else if endereco.codigoEndereco == codigo then Some(|items|)
            else None
  {
  }

  /** A fresh repository holds exactly the seed address, owned by client
      "C12312323123", and a lookup of its code finds it. */
  lemma FreshRepositoryFindsSeed()
    ensures |InitialItems| == 1
    ensures FirstIndex(InitialItems, "EQQWWWEEERRR") == Some(0)
    ensures InitialItems[0].codigoCliente == "C12312323123"
  {
  }
}
