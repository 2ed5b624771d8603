# Use-case core of an e-commerce backend, in Dafny

This project models the four pieces of the backend that hold business logic rather
than HTTP or ORM plumbing. Each one is stated as pure functions over immutable state,
with every awaited collaborator call that can fail given as an explicit oracle input.

- **Stock adjustment with compensation** (`AlterarEstoqueUC.execute`), modules
  `EstoqueStore` and `AlterarEstoque`. The stock table is rows keyed by stock code,
  plus the unique product-code index; the adjustment ledger is a sequence.
  A run does the following:
  - looks the row up by product;
  - refuses a change that would make the quantity negative;
  - writes the new quantity and appends a ledger entry;
  - if either of those throws, re-reads the row and writes the old quantity back when
    it moved.

  Each write is described by an `Effect`. It may complete, throw without taking effect,
  or take effect and still throw, which is why the catch block re-reads. Every run also
  returns the list of collaborator calls it issued. This lets "no write", "one write"
  and "only this row is written" be stated directly.
- **Client creation** (`CreateClienteUC.execute`), module `CreateCliente`:
  - CPF normalisation, then the CPF check and the password-length check;
  - the loop drawing a free client code;
  - hashing, then the CPF and e-mail uniqueness checks;
  - the single save, and the mapping of whatever was thrown.

  The CPF check-digit validator, the hasher, the `uniqid` values, the clock, the
  faults of the hasher and the entity constructor, and the behaviour of the save are
  fields of `Env`. Like a stock write, the save may store the client and still throw.
- **In-memory address repository** (`InMemoryEnderecosRepository`), module
  `InMemoryEnderecos`: the seeded list, the front-to-back lookup (a method with a loop
  invariant, measured against the reference `FirstIndex`), and the appending save.
- **Category lookup** (`FindCategoriaUC.execute`), module `FindCategoria`: the loose
  `== null` guard, the projection to code and name, and `None` for a missing category.
  A lookup that throws is an oracle input whose error leaves unchanged. Also the
  controller's 200/404 answer.

Thrown values are sorted by the tests the catch clauses apply (`AppErrors.Thrown`):
the application's `AppError`, a zod schema error, any other `Error`, and a non-Error
throwable. `AppError` is taken to be an `Error` subclass. The client tests expect
"O CPF é Inválido" with status 400 to come out of the catch clause at
`CreateClienteUC.ts:66-67` (backend/tests/api/cliente.test.ts:35-45), and that happens
only if `AppError` is an `Error`.

Two consequences of the compensation code are worth stating plainly:
- The catch block does not always rethrow the error it caught. An error from the
  re-read (`AlterarEstoqueUC.ts:45`) or from the restoring write (`:48`) escapes in its
  place (`RereadFailureEscapes`, `RestoreFailureEscapes`).
- A ledger entry that was written before its append threw is not removed by the
  compensation (`CompensationRestores`).

## Model

| member | source | states |
|---|---|---|
| `EstoqueStore.GetByProduto` | backend/src/repositories/implementations/PostgresEstoquesRepository.ts:24-32 | on a consistent store the lookup finds a row exactly when some row has that product code, and then returns that very row |
| `EstoqueStore.GetByCodigo` | backend/src/repositories/implementations/PostgresEstoquesRepository.ts:14-22 | the lookup by stock code finds a row exactly when one is stored under that code, and returns it; on a consistent store that row carries the code |
| `EstoqueStore.AlterarEstoque` | backend/src/useCases/estoques/AlterarEstoque/AlterarEstoqueUC.ts:32 | the quantity write changes only the quantity of the named row; keys, index and every other row stay; consistency and non-negativity (for a non-negative value) are kept |
| `AlterarEstoque.Compensate` | backend/src/useCases/estoques/AlterarEstoque/AlterarEstoqueUC.ts:44-51 | the catch block always ends in an error, never touches the ledger, and writes no row but the adjusted one |
| `AlterarEstoque.Execute` | backend/src/useCases/estoques/AlterarEstoque/AlterarEstoqueUC.ts:12-53 | a run succeeds exactly when the lookup finds the row, the new quantity is not negative and both the write and the append complete; the response carries the stock code, the row's product code and old quantity plus change; the lookup is the first call; store consistency is kept |
| `AlterarEstoque.NotFoundChangesNothing` | backend/src/useCases/estoques/AlterarEstoque/AlterarEstoqueUC.ts:15-19 | an unknown product gives 404 "Estoque não encontrado!" after the single lookup, with store and ledger unchanged |
| `AlterarEstoque.InsufficientChangesNothing` | backend/src/useCases/estoques/AlterarEstoque/AlterarEstoqueUC.ts:21-23 | a change taking the quantity below zero gives 400 "Estoque insuficiente!" before any write, with store and ledger unchanged |
| `AlterarEstoque.SuccessWritesNewQuantity` | backend/src/useCases/estoques/AlterarEstoque/AlterarEstoqueUC.ts:25-41 | on success the stored and the returned quantity are both old quantity plus change, and every other row is unchanged |
| `AlterarEstoque.SuccessAppendsOneEntry` | backend/src/useCases/estoques/AlterarEstoque/AlterarEstoqueUC.ts:35-42 | on success exactly one ledger entry {change, stock code} is appended, the calls are lookup, write, append, and the response echoes the stock code and the product code |
| `AlterarEstoque.PreservesNonNegative` | backend/src/useCases/estoques/AlterarEstoque/AlterarEstoqueUC.ts:21-32 | on every path, successful or not, a store with no negative quantity is left with none |
| `AlterarEstoque.WritesOnlyLookedUpRecord` | backend/src/useCases/estoques/AlterarEstoque/AlterarEstoqueUC.ts:26-48 | a run that stops before the guarded block changes nothing; otherwise both writes target the looked-up row only, no other row changes, and the ledger gains at most that row's entry |
| `AlterarEstoque.CompensationRestores` | backend/src/useCases/estoques/AlterarEstoque/AlterarEstoqueUC.ts:44-50 | after a failure in the guarded block, a working re-read and a restoring write that takes effect leave the store exactly as before the call; if the restore completes, the original error is rethrown; an already written ledger entry stays |
| `AlterarEstoque.NoCompensationWhenUnchanged` | backend/src/useCases/estoques/AlterarEstoque/AlterarEstoqueUC.ts:45-50 | when the first write did not take effect or the change is zero, the re-read is the last call, only one write is ever issued, the store is as before and the original error is rethrown |
| `AlterarEstoque.RereadFailureEscapes` | backend/src/useCases/estoques/AlterarEstoque/AlterarEstoqueUC.ts:44-45 | an error thrown by the re-read escapes in place of the original one and no restoring write is issued |
| `AlterarEstoque.RestoreFailureEscapes` | backend/src/useCases/estoques/AlterarEstoque/AlterarEstoqueUC.ts:47-50 | an error thrown by the restoring write escapes in place of the original one; two writes were issued; if the restore did not take effect the row keeps the new quantity |
| `AlterarEstoque.ZeroChangeStillLogged` | backend/src/useCases/estoques/AlterarEstoque/AlterarEstoqueUC.ts:30-35 | a successful zero change leaves the store as it was and still appends a zero entry |
| `AlterarEstoque.NullRereadFaults` | backend/src/useCases/estoques/AlterarEstoque/AlterarEstoqueUC.ts:45-47 | whenever the looked-up row carries a stock code under which no row is stored, a failure in the guarded block with a working re-read ends in a TypeError, not in the error that started it |
| `AlterarEstoque.NullRereadReachable` | backend/src/useCases/estoques/AlterarEstoque/AlterarEstoqueUC.ts:45-47 | such a store exists: an index naming a row filed under another stock code, where a failed write ends in the TypeError |
| `AlterarEstoque.ValidStoreNeverRereadsNull` | backend/src/useCases/estoques/AlterarEstoque/AlterarEstoqueUC.ts:44-47 | on a consistent store the re-read always finds the row, so a TypeError escapes only when a collaborator threw one |
| `CreateCliente.StripCpf` | backend/src/useCases/clientes/CreateCliente/CreateClienteUC.ts:18 | the normalised CPF holds no dot or hyphen and is no longer than the input |
| `CreateCliente.StripCpfCounts` | backend/src/useCases/clientes/CreateCliente/CreateClienteUC.ts:18 | normalisation keeps every character other than a dot or a hyphen as often as the input holds it |
| `CreateCliente.StripCpfAppend` | backend/src/useCases/clientes/CreateCliente/CreateClienteUC.ts:18 | normalisation works piece by piece: normalising a + b gives the normalised a followed by the normalised b, so kept characters stay in order |
| `CreateCliente.StripCpfOneChar` | backend/src/useCases/clientes/CreateCliente/CreateClienteUC.ts:18 | on one character it deletes a dot or a hyphen and keeps anything else; with the previous row this fixes the result of every input |
| `CreateCliente.StripCpfIdempotent` | backend/src/useCases/clientes/CreateCliente/CreateClienteUC.ts:18 | normalising a normalised CPF changes nothing |
| `CreateCliente.StripCpfKeepsDigits` | backend/tests/api/cliente.test.ts:169 | on a CPF made of digits, dots and hyphens, the stored CPF equals its digit string |
| `CreateCliente.LastChars` | backend/src/useCases/clientes/CreateCliente/CreateClienteUC.ts:30 | `slice(-n)` yields min(length, n) characters that end the input |
| `CreateCliente.CodeFrom` | backend/src/useCases/clientes/CreateCliente/CreateClienteUC.ts:30 | a candidate code is "C" followed by min(length, 11) characters |
| `CreateCliente.CodeFromKeepsTail` | backend/src/useCases/clientes/CreateCliente/CreateClienteUC.ts:30 | the characters after the "C" are the ones that end the `uniqid` value |
| `CreateCliente.Candidates` | backend/src/useCases/clientes/CreateCliente/CreateClienteUC.ts:29-30 | the stream of candidate codes has one code per `uniqid` value, the i-th drawn from the i-th value |
| `CreateCliente.FirstFreeDraw` | backend/src/useCases/clientes/CreateCliente/CreateClienteUC.ts:27-34 | the loop stops at the first candidate no client holds, every earlier candidate being taken; it never stops exactly when every candidate is taken |
| `CreateCliente.GenerateCode` | backend/src/useCases/clientes/CreateCliente/CreateClienteUC.ts:27-34 | the loop exits with the first candidate no client holds, a "C" and at most eleven characters; it finds none exactly when every candidate is taken |
| `CreateCliente.MapCaught` | backend/src/useCases/clientes/CreateCliente/CreateClienteUC.ts:61-70 | a schema error becomes 400 with its first message, another Error is rethrown unchanged, a non-Error becomes 500 "Unexpected error!"; what leaves is always a non-schema Error |
| `CreateCliente.MapCaughtIdempotent` | backend/src/useCases/clientes/CreateCliente/CreateClienteUC.ts:61-70 | mapping the mapped error again changes nothing |
| `CreateCliente.NewCliente` | backend/src/useCases/clientes/CreateCliente/CreateClienteUC.ts:36-41 | the client built holds the drawn code, the normalised CPF (free of dots and hyphens), the hash of the password, the clock reading, `isAdmin` false, and the request's name, phone and e-mail |
| `CreateCliente.TryBlock` | backend/src/useCases/clientes/CreateCliente/CreateClienteUC.ts:16-59 | an error leaves the clients unchanged unless the save stored the client and then threw; success appends exactly the client built from the drawn code |
| `CreateCliente.Execute` | backend/src/useCases/clientes/CreateCliente/CreateClienteUC.ts:15-72 | an error is a non-schema Error and saves nothing, except that a save which stored the client and then threw leaves one client appended; success returns "Cliente cadastrado com sucesso!" and appends one client with a fresh code, the normalised CPF, the hashed password, `isAdmin` false and the request's name, phone and e-mail |
| `CreateCliente.InvalidCpfRejectedFirst` | backend/src/useCases/clientes/CreateCliente/CreateClienteUC.ts:18-21 | an invalid normalised CPF gives 400 "O CPF é Inválido" whatever the password, stored clients and libraries do; nothing is saved |
| `CreateCliente.ShortSenhaRejected` | backend/src/useCases/clientes/CreateCliente/CreateClienteUC.ts:23-25 | a valid CPF with a password under eight characters gives 400 "A senha deve conter pelo menos 8 caracteres"; nothing is saved |
| `CreateCliente.CpfCheckPrecedesEmail` | backend/src/useCases/clientes/CreateCliente/CreateClienteUC.ts:43-47 | a registered CPF gives 400 "O CPF já está cadastrado" whatever the e-mail; nothing is saved |
| `CreateCliente.EmailTakenRejected` | backend/src/useCases/clientes/CreateCliente/CreateClienteUC.ts:49-53 | a new CPF with a registered e-mail gives 400 "O e-mail já está cadastrado"; nothing is saved |
| `CreateCliente.SuccessExactlyWhen` | backend/src/useCases/clientes/CreateCliente/CreateClienteUC.ts:19-59 | a client is saved with success exactly when every check passes, the code loop ends, the CPF and e-mail are new and no collaborator throws |
| `CreateCliente.SaveFailsAfterKeepsClient` | backend/src/useCases/clientes/CreateCliente/CreateClienteUC.ts:57-67 | a save that stores the client and still throws leaves the client stored while the caller sees the mapped error; nothing undoes the save |
| `CreateCliente.KeepDigits` | backend/tests/api/cliente.test.ts:169 | `replace(/\D/g, '')` leaves only digits and is no longer than the input |
| `CreateCliente.KeepDigitsCounts` | backend/tests/api/cliente.test.ts:169 | the filter keeps every digit of the input as often as it occurs |
| `CreateCliente.KeepDigitsAppend` | backend/tests/api/cliente.test.ts:169 | the digit filter works piece by piece, so the digits keep their order |
| `InMemoryEnderecos.FirstIndex` | backend/src/repositories/in-memory/InMemoryEnderecosRepository.ts:21-27 | the reference lookup: the lowest index holding the code, or none exactly when no item holds it |
| `InMemoryEnderecos.GetByCodigoEndereco` | backend/src/repositories/in-memory/InMemoryEnderecosRepository.ts:21-28 | the scan returns the first item with the code, the one `FirstIndex` names, and `None` exactly when no item has it |
| `InMemoryEnderecos.Save` | backend/src/repositories/in-memory/InMemoryEnderecosRepository.ts:29-31 | save grows the list by one with the address last and every earlier item in place |
| `InMemoryEnderecos.SaveKeepsFirstMatch` | backend/src/repositories/in-memory/InMemoryEnderecosRepository.ts:22-30 | after a save a code already present still finds its earlier holder, a duplicate is not rejected, and a new code finds the saved address |
| `InMemoryEnderecos.FreshRepositoryFindsSeed` | backend/src/repositories/in-memory/InMemoryEnderecosRepository.ts:6-18 | a fresh repository holds one address, "EQQWWWEEERRR" of client "C12312323123", and the lookup of that code finds it |
| `FindCategoria.Execute` | backend/src/useCases/categorias/FindCategoria/FindCategoriaUC.ts:10-27 | a null or undefined code fails with 400 "Código inválido!" before the lookup; a lookup that throws lets its error out unchanged; otherwise a category is found exactly when the code is stored, returning its stored code and name |
| `FindCategoria.Respond` | backend/src/useCases/categorias/FindCategoria/FindCategoriaController.ts:17-23 | a found category is answered 200 with it, a missing one 404 "Categoria não encontrada!", and an error is handed on |
| `FindCategoria.NullCodeRejectedWithoutLookup` | backend/src/useCases/categorias/FindCategoria/FindCategoriaUC.ts:13-15 | a null or undefined code gives the same 400 for any two stores and any lookup behaviour: the repository is not consulted |
| `FindCategoria.EmptyCodeIsLookedUp` | backend/src/useCases/categorias/FindCategoria/FindCategoriaUC.ts:13-17 | the empty string passes the guard and is found exactly when stored |
| `FindCategoria.MissingCategoryIs404` | backend/src/useCases/categorias/FindCategoria/FindCategoriaUC.ts:17-26 | an unknown code yields `None`, not an error, and the controller answers 404 |
| `FindCategoria.ProjectionIgnoresOtherColumns` | backend/src/useCases/categorias/FindCategoria/FindCategoriaUC.ts:19-24 | the response depends only on the code and name of the row found |
| `FindCategoria.LookupFaultIsForwarded` | backend/src/useCases/categorias/FindCategoria/FindCategoriaController.ts:12-23 | an error thrown by the lookup is not taken for a missing category: the controller hands it on instead of answering 404 |

## Left out

- Concurrency: the read-then-write lost update between the lookup at
  `AlterarEstoqueUC.ts:15` and the write at `:32`. The model assumes one sequential
  caller.
- The Prisma repository (`PostgresEstoquesRepository.ts`). Its two lookups become map
  reads. It has no quantity write at all, so the write is an abstract store operation.
  A write to a code with no row changes nothing.
- `CreateAlteracaoEstoqueUC` is not part of this model. The ledger append is a sequence
  append whose behaviour is an `Effect` oracle.
- HTTP controllers (`CreateProdutoController.ts`, and all of `FindCategoriaController.ts`
  except its 200/404 choice): request and response plumbing only.
- `FindEstoqueUC.ts` is a bare guard in front of a repository call.
  `FindCategoriasByProdutoUC.ts` depends on `FindProdutoUC`, which is not part of this
  model.
- CPF check digits, `uniqid`, password hashing and the `Cliente` entity constructor are
  libraries. They are oracles here; the entity constructor enters only as a possible
  thrown value.
- `CreateCliente.GenerateCode`: the source loop is unbounded. The model draws from a
  finite stream of `uniqid` values and returns `None` when every one gives a taken
  code. The source would keep looping in that case.
- Repository lookups in client creation (by code, CPF and e-mail) are modelled as never
  throwing. Only the hasher, the entity constructor and the save may throw.
- Timestamps: `createdAt` is the clock reading `Env.now`.
- Missing request fields (an undefined `cpfCliente` would throw at `.replace`) are not
  modelled; every request field is a string.
- Quantities are unbounded integers. JavaScript numbers are doubles, and a change that
  arrives as a string would concatenate; neither is modelled.
- `CreateCliente.ShortSenhaRejected`: the length counts characters (Unicode scalar
  values), where JavaScript counts UTF-16 code units. The two differ for characters
  outside the Basic Multilingual Plane.
- The address repository and the category store are values, not mutable objects. That
  lookups leave them unchanged therefore holds by construction and is not a separate
  contract.
