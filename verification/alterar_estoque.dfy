/** The stock-adjustment use case: look the row up by product, refuse a change that
    would make the quantity negative, write the new quantity, append a ledger entry,
    and, when anything inside the guarded block throws, re-read the row and write the
    old quantity back if it moved. Every awaited call that can fail is an explicit
    oracle input, so each path is a plain function of its inputs. */
module AlterarEstoque {
  import opened Wrappers
  import opened AppErrors
  import opened EstoqueStore

  const NaoEncontrado: Thrown := AppError("Estoque não encontrado!", 404)
  const Insuficiente: Thrown := AppError("Estoque insuficiente!", 400)
  const Sucesso: string := "Estoque alterado com sucesso!"

  /** The behaviour of every collaborator call in one run. */
  datatype Faults = Faults(
    lookup: Option<Thrown>,   // getByProduto throws
    write: Effect,            // the quantity write
    append: Effect,           // the ledger append
    reread: Option<Thrown>,   // getByCodigo in the catch block throws
    restore: Effect)          // the compensating quantity write

  /** The calls a run issues to its collaborators, in order. */
  datatype Call =
    | ReadByProduto(codigoProduto: string)
    | WriteQuantidade(codigoEstoque: string, quantidade: int)
    | AppendEntry(entry: AlteracaoEstoque)
    | ReadByCodigo(codigoEstoque: string)

  datatype State = State(store: Store, ledger: seq<AlteracaoEstoque>)

  datatype Response = Response(message: string, codigoEstoque: string, codigoProduto: string, quantidade: int)

  datatype Outcome = Outcome(result: Result<Response, Thrown>, state: State, calls: seq<Call>)

  function ApplyWrite(s: Store, codigoEstoque: string, quantidade: int, e: Effect): (r: Store)
  {
    if e.Applied() then EstoqueStore.AlterarEstoque(s, codigoEstoque, quantidade) else s
  }

  function ApplyAppend(ledger: seq<AlteracaoEstoque>, entry: AlteracaoEstoque, e: Effect): (r: seq<AlteracaoEstoque>)
  {
    if e.Applied() then ledger + [entry] else ledger
  }

  /** Every write in `calls` targets `codigoEstoque`. */
  predicate WritesOnly(calls: seq<Call>, codigoEstoque: string) {
    forall i :: 0 <= i < |calls| && calls[i].WriteQuantidade? ==> calls[i].codigoEstoque == codigoEstoque
  }

  /** The number of writes in `calls`. */
  function CountWrites(calls: seq<Call>): (n: nat)
  {
    if |calls| == 0 then 0 else (if calls[0].WriteQuantidade? then 1 else 0) + CountWrites(calls[1..])
  }

  /** Counting writes distributes over concatenation. */
  lemma {:induction false} CountWritesAppend(a: seq<Call>, b: seq<Call>)
    ensures CountWrites(a + b) == CountWrites(a) + CountWrites(b)
    decreases |a|
  {
    if |a| == 0 {
      assert a + b == b;
    } else {
      assert (a + b)[1..] == a[1..] + b;
      CountWritesAppend(a[1..], b);
    }
  }

  /** The calls of a run that reached the guarded block: the lookup, the write, the
      append when the write completed, then the catch block's calls. */
  function GuardedCalls(codigoProduto: string, codigoEstoque: string, quantidadeNova: int,
                        entry: AlteracaoEstoque, appended: bool, catchCalls: seq<Call>): (calls: seq<Call>)
  {
    [ReadByProduto(codigoProduto), WriteQuantidade(codigoEstoque, quantidadeNova)]
      + (if appended then [AppendEntry(entry)] else []) + catchCalls
  }

  /** A run that reached the guarded block issues one write there, plus those of its catch block. */
  lemma GuardedCallsWrites(codigoProduto: string, codigoEstoque: string, quantidadeNova: int,
                           entry: AlteracaoEstoque, appended: bool, catchCalls: seq<Call>)
    ensures CountWrites(GuardedCalls(codigoProduto, codigoEstoque, quantidadeNova, entry, appended, catchCalls))
         == 1 + CountWrites(catchCalls)
  {
    var tail := if appended then [AppendEntry(entry)] else [];
    var head := [ReadByProduto(codigoProduto), WriteQuantidade(codigoEstoque, quantidadeNova)] + tail;
    CountWritesAppend(head, catchCalls);
    CountWritesAppend([ReadByProduto(codigoProduto), WriteQuantidade(codigoEstoque, quantidadeNova)], tail);
    CountWritesAppend([ReadByProduto(codigoProduto)], [WriteQuantidade(codigoEstoque, quantidadeNova)]);
    CountWritesSingle(ReadByProduto(codigoProduto));
    CountWritesSingle(WriteQuantidade(codigoEstoque, quantidadeNova));
    if appended {
      CountWritesSingle(AppendEntry(entry));
    }
  }

  /** A single call counts as a write exactly when it is one. */
  lemma CountWritesSingle(c: Call)
    ensures CountWrites([c]) == if c.WriteQuantidade? then 1 else 0
  {
  }

  /** The catch block: re-read the row, write the old quantity back if it differs,
      then rethrow. An error from the re-read or the restoring write escapes in
      place of `error`; a `null` re-read faults on the property access. */
  function Compensate(st: State, codigoEstoque: string, quantidadeAtual: int, error: Thrown,
                      f: Faults, calls: seq<Call>): (o: Outcome)
    ensures o.result.Err? && o.state.ledger == st.ledger
    ensures o.state.store.byProduto == st.store.byProduto
    ensures o.state.store.records.Keys == st.store.records.Keys
    ensures forall k :: k in st.store.records && k != codigoEstoque ==>
      o.state.store.records[k] == st.store.records[k]
    ensures WritesOnly(calls, codigoEstoque) ==> WritesOnly(o.calls, codigoEstoque)
    ensures Valid(st.store) ==> Valid(o.state.store)
  {
    var calls := calls + [ReadByCodigo(codigoEstoque)];
    if f.reread.Some? then Outcome(Err(f.reread.value), st, calls)
    else match GetByCodigo(st.store, codigoEstoque)
      case None => Outcome(Err(NullDereference), st, calls)
      case Some(estoque) =>
        if estoque.quantidade != quantidadeAtual then
          var restored := st.(store := ApplyWrite(st.store, codigoEstoque, quantidadeAtual, f.restore));
          var calls := calls + [WriteQuantidade(codigoEstoque, quantidadeAtual)];
          Outcome(Err(if f.restore.Completes? then error else f.restore.error), restored, calls)
        else
          Outcome(Err(error), st, calls)
  }

  /** One run of the use case on `st`, adjusting the stock of `codigoProduto` by
      `valorAlteracao`. */
  function Execute(st: State, codigoProduto: string, valorAlteracao: int, f: Faults): (o: Outcome)
    ensures o.result.Ok? <==>
      && f.lookup.None?
      && GetByProduto(st.store, codigoProduto).Some?
      && GetByProduto(st.store, codigoProduto).value.quantidade + valorAlteracao >= 0
      && f.write.Completes? && f.append.Completes?
    ensures o.result.Ok? ==>
      var estoque := GetByProduto(st.store, codigoProduto).value;
      o.result.value == Response(Sucesso, estoque.codigoEstoque, estoque.codigoProduto,
                                 estoque.quantidade + valorAlteracao)
    ensures |o.calls| >= 1 && o.calls[0] == ReadByProduto(codigoProduto)
    ensures Valid(st.store) ==> Valid(o.state.store)
  {
    var calls := [ReadByProduto(codigoProduto)];
    if f.lookup.Some? then Outcome(Err(f.lookup.value), st, calls)
    else match GetByProduto(st.store, codigoProduto)
      case None => Outcome(Err(NaoEncontrado), st, calls)
      case Some(estoque) =>
        if estoque.quantidade + valorAlteracao < 0 then Outcome(Err(Insuficiente), st, calls)
        else
          var quantidadeAtual := estoque.quantidade;
          var codigoEstoque := estoque.codigoEstoque;
          var quantidadeNova := quantidadeAtual + valorAlteracao;
          var written := st.(store := ApplyWrite(st.store, codigoEstoque, quantidadeNova, f.write));
          var calls := calls + [WriteQuantidade(codigoEstoque, quantidadeNova)];
          if !f.write.Completes? then
            Compensate(written, codigoEstoque, quantidadeAtual, f.write.error, f, calls)
          else
            var entry := AlteracaoEstoque(valorAlteracao, codigoEstoque);
            var logged := written.(ledger := ApplyAppend(written.ledger, entry, f.append));
            var calls := calls + [AppendEntry(entry)];
            if !f.append.Completes? then
              Compensate(logged, codigoEstoque, quantidadeAtual, f.append.error, f, calls)
            else
              Outcome(Ok(Response(Sucesso, codigoEstoque, estoque.codigoProduto, quantidadeNova)), logged, calls)
  }

  /** Which error a failure inside the guarded block raised: the write's, or else the append's. */
  function GuardedError(f: Faults): (e: Thrown)
    requires !f.write.Completes? || !f.append.Completes?
  {
    if !f.write.Completes? then f.write.error else f.append.error
  }

  /** The run gets past the lookup and the negativity guard and reaches the guarded block. */
  ghost predicate ReachesWrite(st: State, codigoProduto: string, valorAlteracao: int, f: Faults) {
    && f.lookup.None?
    && GetByProduto(st.store, codigoProduto).Some?
    && GetByProduto(st.store, codigoProduto).value.quantidade + valorAlteracao >= 0
  }

  /** An unknown product is reported as 404 after the single lookup: no write, no append. */
  lemma NotFoundChangesNothing(st: State, codigoProduto: string, valorAlteracao: int, f: Faults)
    requires f.lookup.None? && GetByProduto(st.store, codigoProduto).None?
    ensures Execute(st, codigoProduto, valorAlteracao, f)
         == Outcome(Err(NaoEncontrado), st, [ReadByProduto(codigoProduto)])
  {
  }

  /** A change that would make the quantity negative is refused with 400 before the
      guarded block: no write, no append. */
  lemma InsufficientChangesNothing(st: State, codigoProduto: string, valorAlteracao: int, f: Faults)
    requires f.lookup.None? && GetByProduto(st.store, codigoProduto).Some?
    requires GetByProduto(st.store, codigoProduto).value.quantidade + valorAlteracao < 0
    ensures Execute(st, codigoProduto, valorAlteracao, f)
         == Outcome(Err(Insuficiente), st, [ReadByProduto(codigoProduto)])
  {
  }

  /** On success the stored quantity and the returned one are both the old quantity
      plus the change; every other row is as before. */
  lemma SuccessWritesNewQuantity(st: State, codigoProduto: string, valorAlteracao: int, f: Faults)
    requires Valid(st.store)
    ensures var o := Execute(st, codigoProduto, valorAlteracao, f);
      o.result.Ok? ==>
        var estoque := GetByProduto(st.store, codigoProduto).value;
        && o.result.value.quantidade == estoque.quantidade + valorAlteracao
        && o.state.store.records[estoque.codigoEstoque].quantidade == estoque.quantidade + valorAlteracao
        && o.state.store.records.Keys == st.store.records.Keys
        && (forall k :: k in st.store.records && k != estoque.codigoEstoque ==>
              o.state.store.records[k] == st.store.records[k])
  {
  }

  /** On success exactly one ledger entry `{valorAlteracao, codigoEstoque}` is appended,
      and the response echoes the stock code and the row's product code. */
  lemma SuccessAppendsOneEntry(st: State, codigoProduto: string, valorAlteracao: int, f: Faults)
    requires Valid(st.store)
    ensures var o := Execute(st, codigoProduto, valorAlteracao, f);
      o.result.Ok? ==>
        var codigoEstoque := GetByProduto(st.store, codigoProduto).value.codigoEstoque;
        && o.state.ledger == st.ledger + [AlteracaoEstoque(valorAlteracao, codigoEstoque)]
        && o.result.value.message == Sucesso
        && o.result.value.codigoEstoque == codigoEstoque
        && o.result.value.codigoProduto == codigoProduto
        && o.calls == [ReadByProduto(codigoProduto), WriteQuantidade(codigoEstoque, o.result.value.quantidade),
                       AppendEntry(AlteracaoEstoque(valorAlteracao, codigoEstoque))]
  {
  }

  /** No run, successful or not, leaves a negative quantity behind when none was there. */
  lemma PreservesNonNegative(st: State, codigoProduto: string, valorAlteracao: int, f: Faults)
    requires NonNegative(st.store)
    ensures NonNegative(Execute(st, codigoProduto, valorAlteracao, f).state.store)
  {
  }

  /** Only the row found by the lookup is ever written, by either write; the ledger gains
      at most that row's entry; a run that stops before the guarded block changes nothing. */
  lemma WritesOnlyLookedUpRecord(st: State, codigoProduto: string, valorAlteracao: int, f: Faults)
    ensures var o := Execute(st, codigoProduto, valorAlteracao, f);
      if !ReachesWrite(st, codigoProduto, valorAlteracao, f) then o.state == st
      else
        var codigoEstoque := GetByProduto(st.store, codigoProduto).value.codigoEstoque;
        && WritesOnly(o.calls, codigoEstoque)
        && o.state.store.byProduto == st.store.byProduto
        && o.state.store.records.Keys == st.store.records.Keys
        && (forall k :: k in st.store.records && k != codigoEstoque ==>
              o.state.store.records[k] == st.store.records[k])
        && (o.state.ledger == st.ledger
            || o.state.ledger == st.ledger + [AlteracaoEstoque(valorAlteracao, codigoEstoque)])
  {
  }

  /** When the guarded block fails and the re-read works, the restoring write puts the
      pre-call quantity back whenever it takes effect; if it completes, the original
      error is the one rethrown. A ledger entry already written is not removed. */
  lemma CompensationRestores(st: State, codigoProduto: string, valorAlteracao: int, f: Faults)
    requires Valid(st.store) && ReachesWrite(st, codigoProduto, valorAlteracao, f)
    requires !f.write.Completes? || !f.append.Completes?
    requires f.reread.None? && f.restore.Applied()
    ensures var o := Execute(st, codigoProduto, valorAlteracao, f);
      && o.state.store == st.store
      && (f.restore.Completes? ==> o.result == Err(GuardedError(f)))
      && (f.write.Completes? && f.append.FailsAfter? ==>
            o.state.ledger == st.ledger
              + [AlteracaoEstoque(valorAlteracao, GetByProduto(st.store, codigoProduto).value.codigoEstoque)])
  {
  }

  /** A failure that leaves the quantity where it was (the first write did not take
      effect, or the change is zero) issues no compensating write: the re-read is the
      only further call and the original error is rethrown. */
  lemma NoCompensationWhenUnchanged(st: State, codigoProduto: string, valorAlteracao: int, f: Faults)
    requires Valid(st.store) && ReachesWrite(st, codigoProduto, valorAlteracao, f)
    requires !f.write.Completes? || !f.append.Completes?
    requires f.write.FailsBefore? || valorAlteracao == 0
    requires f.reread.None?
    ensures var o := Execute(st, codigoProduto, valorAlteracao, f);
      && CountWrites(o.calls) == 1
      && o.calls[|o.calls| - 1] == ReadByCodigo(GetByProduto(st.store, codigoProduto).value.codigoEstoque)
      && o.state.store == st.store
      && o.result == Err(GuardedError(f))
  {
    var estoque := GetByProduto(st.store, codigoProduto).value;
    var entry := AlteracaoEstoque(valorAlteracao, estoque.codigoEstoque);
    var catchCalls := [ReadByCodigo(estoque.codigoEstoque)];
    assert Execute(st, codigoProduto, valorAlteracao, f).calls
        == GuardedCalls(codigoProduto, estoque.codigoEstoque, estoque.quantidade + valorAlteracao,
                        entry, f.write.Completes?, catchCalls);
    GuardedCallsWrites(codigoProduto, estoque.codigoEstoque, estoque.quantidade + valorAlteracao,
                       entry, f.write.Completes?, catchCalls);
  }

  /** An error thrown by the re-read escapes in place of the original one, and no
      restoring write is issued. */
  lemma RereadFailureEscapes(st: State, codigoProduto: string, valorAlteracao: int, f: Faults)
    requires ReachesWrite(st, codigoProduto, valorAlteracao, f)
    requires !f.write.Completes? || !f.append.Completes?
    requires f.reread.Some?
    ensures var o := Execute(st, codigoProduto, valorAlteracao, f);
      && o.result == Err(f.reread.value)
      && CountWrites(o.calls) == 1
  {
    var estoque := GetByProduto(st.store, codigoProduto).value;
    var entry := AlteracaoEstoque(valorAlteracao, estoque.codigoEstoque);
    var catchCalls := [ReadByCodigo(estoque.codigoEstoque)];
    assert Execute(st, codigoProduto, valorAlteracao, f).calls
        == GuardedCalls(codigoProduto, estoque.codigoEstoque, estoque.quantidade + valorAlteracao,
                        entry, f.write.Completes?, catchCalls);
    GuardedCallsWrites(codigoProduto, estoque.codigoEstoque, estoque.quantidade + valorAlteracao,
                       entry, f.write.Completes?, catchCalls);
  }

  /** When the restoring write itself throws, its error escapes in place of the original
      one; if it did not take effect, the row keeps the new, uncompensated quantity. */
  lemma RestoreFailureEscapes(st: State, codigoProduto: string, valorAlteracao: int, f: Faults)
    requires Valid(st.store) && ReachesWrite(st, codigoProduto, valorAlteracao, f)
    requires f.write.Applied() && (!f.write.Completes? || !f.append.Completes?)
    requires valorAlteracao != 0 && f.reread.None? && !f.restore.Completes?
    ensures var o := Execute(st, codigoProduto, valorAlteracao, f);
      var estoque := GetByProduto(st.store, codigoProduto).value;
      && o.result == Err(f.restore.error)
      && CountWrites(o.calls) == 2
      && (f.restore.FailsBefore? ==>
            o.state.store.records[estoque.codigoEstoque].quantidade == estoque.quantidade + valorAlteracao)
  {
    var estoque := GetByProduto(st.store, codigoProduto).value;
    var codigoEstoque, quantidadeNova := estoque.codigoEstoque, estoque.quantidade + valorAlteracao;
    var entry := AlteracaoEstoque(valorAlteracao, codigoEstoque);
    var catchCalls := [ReadByCodigo(codigoEstoque), WriteQuantidade(codigoEstoque, estoque.quantidade)];
    RestoreFailureResult(st, codigoProduto, valorAlteracao, f);
    RestoreFailureCalls(st, codigoProduto, valorAlteracao, f);
    GuardedCallsWrites(codigoProduto, codigoEstoque, quantidadeNova, entry, f.write.Completes?, catchCalls);
    CountWritesAppend([catchCalls[0]], [catchCalls[1]]);
    CountWritesSingle(catchCalls[0]);
    CountWritesSingle(catchCalls[1]);
  }

  /** The result and the store of a run whose restoring write fails. */
  lemma RestoreFailureResult(st: State, codigoProduto: string, valorAlteracao: int, f: Faults)
    requires Valid(st.store) && ReachesWrite(st, codigoProduto, valorAlteracao, f)
    requires f.write.Applied() && (!f.write.Completes? || !f.append.Completes?)
    requires valorAlteracao != 0 && f.reread.None? && !f.restore.Completes?
    ensures var o := Execute(st, codigoProduto, valorAlteracao, f);
      var estoque := GetByProduto(st.store, codigoProduto).value;
      && o.result == Err(f.restore.error)
      && (f.restore.FailsBefore? ==>
            o.state.store.records[estoque.codigoEstoque].quantidade == estoque.quantidade + valorAlteracao)
  {
  }

  /** The calls of a run whose restoring write is issued. */
  lemma RestoreFailureCalls(st: State, codigoProduto: string, valorAlteracao: int, f: Faults)
    requires Valid(st.store) && ReachesWrite(st, codigoProduto, valorAlteracao, f)
    requires f.write.Applied() && (!f.write.Completes? || !f.append.Completes?)
    requires valorAlteracao != 0 && f.reread.None?
    ensures var estoque := GetByProduto(st.store, codigoProduto).value;
      Execute(st, codigoProduto, valorAlteracao, f).calls
        == GuardedCalls(codigoProduto, estoque.codigoEstoque, estoque.quantidade + valorAlteracao,
                        AlteracaoEstoque(valorAlteracao, estoque.codigoEstoque), f.write.Completes?,
                        [ReadByCodigo(estoque.codigoEstoque), WriteQuantidade(estoque.codigoEstoque, estoque.quantidade)])
  {
  }

  /** A zero change that succeeds leaves every quantity as it was yet still appends a
      zero entry to the ledger. */
  lemma ZeroChangeStillLogged(st: State, codigoProduto: string, f: Faults)
    requires Valid(st.store)
    ensures var o := Execute(st, codigoProduto, 0, f);
      o.result.Ok? ==>
        && o.state.store == st.store
        && o.state.ledger == st.ledger
             + [AlteracaoEstoque(0, GetByProduto(st.store, codigoProduto).value.codigoEstoque)]
  {
  }

  /** When the row the lookup returns carries a stock code under which no row is stored,
      the write changes nothing, the re-read in the catch block comes back `null`, and
      reading its quantity faults: a TypeError escapes, not the error that started it. */
  lemma NullRereadFaults(st: State, codigoProduto: string, valorAlteracao: int, f: Faults)
    requires ReachesWrite(st, codigoProduto, valorAlteracao, f)
    requires !f.write.Completes? || !f.append.Completes?
    requires f.reread.None?
    requires GetByProduto(st.store, codigoProduto).value.codigoEstoque !in st.store.records
    ensures Execute(st, codigoProduto, valorAlteracao, f).result == Err(NullDereference)
  {
  }

  /** Such a store exists: its product index names a row filed under another stock code. */
  lemma NullRereadReachable()
    ensures
      var st := State(Store(map["E1" := Estoque("E9", "P1", 10)], map["P1" := "E1"]), []);
      var f := Faults(None, FailsBefore(Failure("StorageError")), Completes, None, Completes);
      && ReachesWrite(st, "P1", -3, f)
      && GetByProduto(st.store, "P1").value.codigoEstoque !in st.store.records
      && Execute(st, "P1", -3, f).result == Err(NullDereference)
  {
  }

  /** On a consistent store the re-read always finds the row, so a TypeError escapes only
      when a collaborator itself threw one. */
  lemma ValidStoreNeverRereadsNull(st: State, codigoProduto: string, valorAlteracao: int, f: Faults)
    requires Valid(st.store)
    requires f.lookup != Some(NullDereference) && f.reread != Some(NullDereference)
    requires f.write == Completes || f.write.error != NullDereference
    requires f.append == Completes || f.append.error != NullDereference
    requires f.restore == Completes || f.restore.error != NullDereference
    ensures Execute(st, codigoProduto, valorAlteracao, f).result != Err(NullDereference)
  {
  }
}
