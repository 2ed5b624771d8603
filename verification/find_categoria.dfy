/** The category lookup use case and the status its controller answers with: a loose
    null guard on the code, a read-only lookup, and a projection of the row found. */
module FindCategoria {
  import opened Wrappers
  import opened AppErrors

  const CodigoInvalido: Thrown := AppError("Código inválido!", 400)
  const NaoEncontrada: string := "Categoria não encontrada!"

  /** The JavaScript value given as `codigoCategoria`. */
  datatype Codigo = Undefined | Null | Given(value: string)

  /** A stored category row; `outros` stands for whatever further columns it has. */
  datatype Categoria = Categoria(codigoCategoria: string, nomeCategoria: string, outros: map<string, string>)

  /** The response: exactly the code and the name. */
  datatype CategoriaView = CategoriaView(codigoCategoria: string, nomeCategoria: string)

  /** The category table, keyed by code. */
  type Store = map<string, Categoria>

  /** `codigoCategoria == null`: true of `null` and of `undefined`, and of nothing else. */
  predicate LooselyNull(c: Codigo) {
    c.Undefined? || c.Null?
  }

  /** One run of the use case: the guard, the lookup, and the projection; a missing
      category is an ordinary `None` result, not an error. `lookupFault` is what the
      awaited repository lookup throws, if it throws; that error leaves unchanged. */
  function Execute(store: Store, codigo: Codigo, lookupFault: Option<Thrown>): (r: Result<Option<CategoriaView>, Thrown>)
    ensures r.Err? <==> LooselyNull(codigo) || lookupFault.Some?
    ensures LooselyNull(codigo) ==> r == Err(CodigoInvalido)
    ensures !LooselyNull(codigo) && lookupFault.Some? ==> r == Err(lookupFault.value)
    ensures r.Ok? ==> (r.value.Some? <==> codigo.value in store)
    ensures r.Ok? && r.value.Some? ==>
      && r.value.value.codigoCategoria == store[codigo.value].codigoCategoria
      && r.value.value.nomeCategoria == store[codigo.value].nomeCategoria
  {
    if LooselyNull(codigo) then Err(CodigoInvalido)
    else if lookupFault.Some? then Err(lookupFault.value)
    else if codigo.value in store then
      var categoria := store[codigo.value];
      Ok(Some(CategoriaView(categoria.codigoCategoria, categoria.nomeCategoria)))
    else Ok(None)
  }

  /** What the controller answers: the category with 200, the not-found message with
      404, or the error handed on to the error middleware. */
  datatype Reply = Found(status: int, result: CategoriaView) | Missing(status: int, error: string) | Forwarded(thrown: Thrown)

  function Respond(r: Result<Option<CategoriaView>, Thrown>): (reply: Reply)
    ensures reply.Found? <==> r.Ok? && r.value.Some?
    ensures reply.Found? ==> reply.status == 200 && reply.result == r.value.value
    ensures reply.Missing? ==> reply == Missing(404, NaoEncontrada)
    ensures r.Err? ==> reply == Forwarded(r.error)
  {
    match r
    case Err(e) => Forwarded(e)
    case Ok(Some(v)) => Found(200, v)
    case Ok(None) => Missing(404, NaoEncontrada)
  }

  /** A `null` or `undefined` code is refused with 400 whatever the store holds: the
      repository is not consulted. */
  lemma NullCodeRejectedWithoutLookup(store: Store, other: Store, codigo: Codigo,
                                      fault: Option<Thrown>, otherFault: Option<Thrown>)
    requires LooselyNull(codigo)
    ensures Execute(store, codigo, fault) == Execute(other, codigo, otherFault) == Err(CodigoInvalido)
  {
  }

  /** The empty string passes the guard and is looked up like any other code. */
  lemma EmptyCodeIsLookedUp(store: Store)
    ensures Execute(store, Given(""), None).Ok?
    ensures Execute(store, Given(""), None).value.Some? <==> "" in store
  {
  }

  /** An unknown code yields no category and the controller answers 404 with the
      not-found message. */
  lemma MissingCategoryIs404(store: Store, codigo: string)
    requires codigo !in store
    ensures Execute(store, Given(codigo), None) == Ok(None)
    ensures Respond(Execute(store, Given(codigo), None)) == Missing(404, NaoEncontrada)
  {
  }

  /** The projection depends only on the code and name of the row found: rows that differ
      in other columns give the same response. */
  lemma ProjectionIgnoresOtherColumns(store: Store, codigo: string, outros: map<string, string>)
    requires codigo in store
    ensures Execute(store[codigo := store[codigo].(outros := outros)], Given(codigo), None)
         == Execute(store, Given(codigo), None)
  {
  }

  /** A lookup that throws is not mistaken for a missing category: its error reaches the
      controller, which hands it on instead of answering 404. */
  lemma LookupFaultIsForwarded(store: Store, codigo: string, e: Thrown)
    ensures Respond(Execute(store, Given(codigo), Some(e))) == Forwarded(e)
  {
  }
}
