/** The client-creation use case: normalise the CPF, check it, check the password
    length, draw client codes until one is free, hash the password, build the client,
    refuse a CPF or e-mail already registered, save, and map whatever was thrown.
    The CPF check-digit validator, the `uniqid` generator, the password hasher and the
    entity constructor are library code; they enter as oracle inputs. */
module CreateCliente {
  import opened Wrappers
  import opened AppErrors

  const CpfInvalido: Thrown := AppError("O CPF é Inválido", 400)
  const SenhaCurta: Thrown := AppError("A senha deve conter pelo menos 8 caracteres", 400)
  const CpfCadastrado: Thrown := AppError("O CPF já está cadastrado", 400)
  const EmailCadastrado: Thrown := AppError("O e-mail já está cadastrado", 400)
  const Inesperado: Thrown := AppError("Unexpected error!", 500)
  const Sucesso: string := "Cliente cadastrado com sucesso!"

  /** The minimum password length, in characters. */
  const MinSenha: nat := 8
  /** How many trailing characters of a `uniqid` value go into a client code. */
  const CodeSuffix: nat := 11

  datatype Cliente = Cliente(
    codigoCliente: string, nomeCliente: string, cpfCliente: string, celularCliente: string,
    emailCliente: string, senha: string, createdAt: int, isAdmin: bool)

  datatype Request = Request(
    nomeCliente: string, cpfCliente: string, celularCliente: string, emailCliente: string, senha: string)

  /** The library behaviour one run sees. `ids` is the stream of values `uniqid`
      returns, in order; `now` is the clock reading; the two faults say whether the
      hasher and the entity constructor throw; `save` says how the save behaves, which
      may be to store the client and still throw. */
  datatype Env = Env(
    cpfIsValid: string -> bool,
    hash: string -> string,
    ids: seq<string>,
    now: int,
    hashFault: Option<Thrown>,
    buildFault: Option<Thrown>,
    save: Effect)

  /** What a finished run leaves: the value returned or the error thrown, and the clients. */
  datatype Outcome = Outcome(result: Result<string, Thrown>, clientes: seq<Cliente>)

  predicate IsSeparator(c: char) {
    c == '.' || c == '-'
  }

  /** `cpf.replace(/[.-]/g, '')`: the CPF with every dot and hyphen deleted. */
  function StripCpf(s: string): (r: string)
    ensures forall i :: 0 <= i < |r| ==> !IsSeparator(r[i])
    ensures |r| <= |s|
  {
    if |s| == 0 then []
    else if IsSeparator(s[0]) then StripCpf(s[1..]) else [s[0]] + StripCpf(s[1..])
  }

  /** Every character other than a dot or a hyphen survives normalisation as often as
      it occurs in the CPF. */
  lemma {:induction false} StripCpfCounts(s: string)
    ensures forall c :: !IsSeparator(c) ==> multiset(StripCpf(s))[c] == multiset(s)[c]
  {
    if |s| > 0 {
      assert s == [s[0]] + s[1..];
      StripCpfCounts(s[1..]);
    }
  }

  /** `uniqid().slice(-11)`: the last eleven characters, or the whole value when shorter. */
  function LastChars(s: string, n: nat): (r: string)
    ensures |r| == if |s| < n then |s| else n
    ensures r == s[|s| - |r|..]
  {
    if |s| <= n then s else s[|s| - n..]
  }

  /** `t` is the tail of `s`. */
  predicate EndsWith(s: string, t: string) {
    |t| <= |s| && s[|s| - |t|..] == t
  }

  /** A candidate client code: "C" and the tail of one `uniqid` value. */
  function CodeFrom(id: string): (c: string)
    ensures |c| == 1 + (if |id| < CodeSuffix then |id| else CodeSuffix)
    ensures c[0] == 'C'
  {
    "C" + LastChars(id, CodeSuffix)
  }

  /** After the leading "C", a candidate code is the tail of the `uniqid` value it was
      drawn from. */
  lemma CodeFromKeepsTail(id: string)
    ensures EndsWith(id, CodeFrom(id)[1..])
  {
    assert CodeFrom(id)[1..] == LastChars(id, CodeSuffix);
  }

  predicate CodigoTaken(clientes: seq<Cliente>, codigo: string) {
    exists i :: 0 <= i < |clientes| && clientes[i].codigoCliente == codigo
  }

  predicate CpfTaken(clientes: seq<Cliente>, cpf: string) {
    exists i :: 0 <= i < |clientes| && clientes[i].cpfCliente == cpf
  }

  predicate EmailTaken(clientes: seq<Cliente>, email: string) {
    exists i :: 0 <= i < |clientes| && clientes[i].emailCliente == email
  }

  /** The do-while loop over the candidate codes, from the `k`-th draw on: the position
      of the first code no client holds, or `None` when every remaining code is taken. */
  function FirstFreeDraw(codes: seq<string>, clientes: seq<Cliente>, k: nat): (r: Option<nat>)
    requires k <= |codes|
    ensures r.Some? ==>
      && k <= r.value < |codes|
      && !CodigoTaken(clientes, codes[r.value])
      && forall j :: k <= j < r.value ==> CodigoTaken(clientes, codes[j])
    ensures r.None? <==> forall j :: k <= j < |codes| ==> CodigoTaken(clientes, codes[j])
    decreases |codes| - k
  {
    if k == |codes| then None
    else if !CodigoTaken(clientes, codes[k]) then Some(k)
    else FirstFreeDraw(codes, clientes, k + 1)
  }

  /** The code each `uniqid` value in the stream would give, in drawing order. */
  function Candidates(ids: seq<string>): (codes: seq<string>)
    ensures |codes| == |ids|
    ensures forall i :: 0 <= i < |ids| ==> codes[i] == CodeFrom(ids[i])
  {
    if |ids| == 0 then [] else [CodeFrom(ids[0])] + Candidates(ids[1..])
  }

  /** The code the loop exits with: the first candidate no client holds, or `None` when
      every value in the stream gives a code already taken. */
  function GenerateCode(ids: seq<string>, clientes: seq<Cliente>): (r: Option<string>)
    ensures r.Some? ==> !CodigoTaken(clientes, r.value) && 1 <= |r.value| <= 1 + CodeSuffix && r.value[0] == 'C'
    ensures r.Some? ==>
      exists i :: 0 <= i < |ids| && r.value == CodeFrom(ids[i])
        && forall j :: 0 <= j < i ==> CodigoTaken(clientes, CodeFrom(ids[j]))
    ensures r.None? <==> forall i :: 0 <= i < |ids| ==> CodigoTaken(clientes, CodeFrom(ids[i]))
  {
    var codes := Candidates(ids);
    match FirstFreeDraw(codes, clientes, 0)
    case None => None
    case Some(i) => Some(codes[i])
  }

  /** The catch clause: a schema error becomes a 400 carrying its first message, any
      other `Error` is rethrown unchanged, and anything else becomes a 500. Reading the
      first message of a schema error with no issues is itself a TypeError. */
  function MapCaught(e: Thrown): (r: Thrown)
    ensures IsErrorInstance(r) && !r.Zod?
    ensures e.Zod? && |e.issues| > 0 ==> r == AppError(e.issues[0], 400)
    ensures IsErrorInstance(e) && !e.Zod? ==> r == e
    ensures !IsErrorInstance(e) ==> r == Inesperado
  {
    match e
    case Zod(issues) => if |issues| > 0 then AppError(issues[0], 400) else NullDereference
    case NonError(_) => Inesperado
    case _ => e
  }

  /** The client the run builds once it holds a free code: the normalised CPF, the
      hashed password, the clock reading, and no administrator rights. */
  function NewCliente(codigo: string, req: Request, env: Env): (c: Cliente)
    ensures c.codigoCliente == codigo && !c.isAdmin && c.createdAt == env.now
    ensures c.cpfCliente == StripCpf(req.cpfCliente)
    ensures forall i :: 0 <= i < |c.cpfCliente| ==> !IsSeparator(c.cpfCliente[i])
    ensures c.senha == env.hash(req.senha)
    ensures c.nomeCliente == req.nomeCliente && c.celularCliente == req.celularCliente
    ensures c.emailCliente == req.emailCliente
  {
    Cliente(codigo, req.nomeCliente, StripCpf(req.cpfCliente), req.celularCliente, req.emailCliente,
            env.hash(req.senha), env.now, false)
  }

  /** The body of the `try` block; `None` when the `uniqid` stream runs out inside the loop. */
  function TryBlock(clientes: seq<Cliente>, req: Request, env: Env): (o: Option<Outcome>)
    ensures o.Some? && o.value.result.Err? ==>
      || o.value.clientes == clientes
      || (&& env.save.FailsAfter?
          && GenerateCode(env.ids, clientes).Some?
          && o.value.clientes == clientes + [NewCliente(GenerateCode(env.ids, clientes).value, req, env)])
    ensures o.Some? && o.value.result.Ok? ==>
      && o.value.result.value == Sucesso
      && GenerateCode(env.ids, clientes).Some?
      && o.value.clientes == clientes + [NewCliente(GenerateCode(env.ids, clientes).value, req, env)]
  {
    var cpf := StripCpf(req.cpfCliente);
    if !env.cpfIsValid(cpf) then Some(Outcome(Err(CpfInvalido), clientes))
    else if |req.senha| < MinSenha then Some(Outcome(Err(SenhaCurta), clientes))
    else match GenerateCode(env.ids, clientes)
      case None => None
      case Some(codigo) =>
        if env.hashFault.Some? then Some(Outcome(Err(env.hashFault.value), clientes))
        else if env.buildFault.Some? then Some(Outcome(Err(env.buildFault.value), clientes))
        else if CpfTaken(clientes, cpf) then Some(Outcome(Err(CpfCadastrado), clientes))
        else if EmailTaken(clientes, req.emailCliente) then Some(Outcome(Err(EmailCadastrado), clientes))
        else match env.save
          case Completes => Some(Outcome(Ok(Sucesso), clientes + [NewCliente(codigo, req, env)]))
          case FailsBefore(e) => Some(Outcome(Err(e), clientes))
          case FailsAfter(e) => Some(Outcome(Err(e), clientes + [NewCliente(codigo, req, env)]))
  }

  /** One run of the use case; `None` when the `uniqid` stream runs out. */
  function Execute(clientes: seq<Cliente>, req: Request, env: Env): (o: Option<Outcome>)
    ensures o.Some? && o.value.result.Err? ==>
      && IsErrorInstance(o.value.result.error) && !o.value.result.error.Zod?
      && (!env.save.FailsAfter? ==> o.value.clientes == clientes)
      && (env.save.FailsAfter? ==>
            || o.value.clientes == clientes
            || (|o.value.clientes| == |clientes| + 1 && o.value.clientes[..|clientes|] == clientes))
    ensures o.Some? && o.value.result.Ok? ==>
      && o.value.result.value == Sucesso
      && |o.value.clientes| == |clientes| + 1
      && o.value.clientes[..|clientes|] == clientes
    ensures o.Some? && o.value.result.Ok? && |o.value.clientes| == |clientes| + 1 ==>
      var saved := o.value.clientes[|clientes|];
      && !CodigoTaken(clientes, saved.codigoCliente)
      && saved.cpfCliente == StripCpf(req.cpfCliente)
      && saved.senha == env.hash(req.senha)
      && !saved.isAdmin
      && saved.nomeCliente == req.nomeCliente
      && saved.celularCliente == req.celularCliente
      && saved.emailCliente == req.emailCliente
  {
    match TryBlock(clientes, req, env)
    case None => None
    case Some(Outcome(Err(e), cs)) => Some(Outcome(Err(MapCaught(e)), cs))
    case Some(done) => Some(done)
  }

  /** The run gets past the CPF and password checks and the code loop, and the hasher
      and the entity constructor do not throw. */
  predicate ReachesDuplicateChecks(clientes: seq<Cliente>, req: Request, env: Env) {
    && env.cpfIsValid(StripCpf(req.cpfCliente))
    && |req.senha| >= MinSenha
    && GenerateCode(env.ids, clientes).Some?
    && env.hashFault.None? && env.buildFault.None?
  }

  /** An invalid CPF is refused first, whatever the password, the stored clients and the
      other libraries do: nothing is read from the repository and nothing is saved. */
  lemma InvalidCpfRejectedFirst(clientes: seq<Cliente>, req: Request, env: Env)
    requires !env.cpfIsValid(StripCpf(req.cpfCliente))
    ensures Execute(clientes, req, env) == Some(Outcome(Err(CpfInvalido), clientes))
  {
  }

  /** A valid CPF with a password under eight characters is refused; nothing is saved. */
  lemma ShortSenhaRejected(clientes: seq<Cliente>, req: Request, env: Env)
    requires env.cpfIsValid(StripCpf(req.cpfCliente)) && |req.senha| < MinSenha
    ensures Execute(clientes, req, env) == Some(Outcome(Err(SenhaCurta), clientes))
  {
  }

  /** A CPF already registered is refused before the e-mail is looked at; nothing is saved. */
  lemma CpfCheckPrecedesEmail(clientes: seq<Cliente>, req: Request, env: Env, holder: nat)
    requires ReachesDuplicateChecks(clientes, req, env)
    requires holder < |clientes| && clientes[holder].cpfCliente == StripCpf(req.cpfCliente)
    ensures Execute(clientes, req, env) == Some(Outcome(Err(CpfCadastrado), clientes))
  {
  }

  /** A new CPF with an e-mail already registered is refused; nothing is saved. */
  lemma EmailTakenRejected(clientes: seq<Cliente>, req: Request, env: Env, holder: nat)
    requires ReachesDuplicateChecks(clientes, req, env)
    requires !CpfTaken(clientes, StripCpf(req.cpfCliente))
    requires holder < |clientes| && clientes[holder].emailCliente == req.emailCliente
    ensures Execute(clientes, req, env) == Some(Outcome(Err(EmailCadastrado), clientes))
  {
  }

  /** A run saves a client exactly when every check passes and no collaborator throws,
      and then the CPF and e-mail it saved were new. */
  lemma SuccessExactlyWhen(clientes: seq<Cliente>, req: Request, env: Env)
    ensures var o := Execute(clientes, req, env);
      (o.Some? && o.value.result.Ok?) <==>
        && ReachesDuplicateChecks(clientes, req, env)
        && !CpfTaken(clientes, StripCpf(req.cpfCliente))
        && !EmailTaken(clientes, req.emailCliente)
        && env.save.Completes?
  {
  }

  /** A save that stores the client and still throws leaves the client stored while the
      caller sees the mapped error: the use case does not undo the save. */
  lemma SaveFailsAfterKeepsClient(clientes: seq<Cliente>, req: Request, env: Env)
    requires ReachesDuplicateChecks(clientes, req, env)
    requires !CpfTaken(clientes, StripCpf(req.cpfCliente)) && !EmailTaken(clientes, req.emailCliente)
    requires env.save.FailsAfter?
    ensures Execute(clientes, req, env)
         == Some(Outcome(Err(MapCaught(env.save.error)),
                         clientes + [NewCliente(GenerateCode(env.ids, clientes).value, req, env)]))
  {
    SaveFailsAfterInsideTry(clientes, req, env);
  }

  /** Inside the `try` block, a save that stores the client and throws leaves the client
      stored and hands the raw error to the catch clause. */
  lemma SaveFailsAfterInsideTry(clientes: seq<Cliente>, req: Request, env: Env)
    requires ReachesDuplicateChecks(clientes, req, env)
    requires !CpfTaken(clientes, StripCpf(req.cpfCliente)) && !EmailTaken(clientes, req.emailCliente)
    requires env.save.FailsAfter?
    ensures TryBlock(clientes, req, env)
         == Some(Outcome(Err(env.save.error),
                         clientes + [NewCliente(GenerateCode(env.ids, clientes).value, req, env)]))
  {
    var codigo := GenerateCode(env.ids, clientes).value;
    assert GenerateCode(env.ids, clientes) == Some(codigo);
    assert env.save == FailsAfter(env.save.error);
  }

  /** Mapping a caught error twice gives what mapping it once gives: what leaves the
      catch clause is already in its final form. */
  lemma MapCaughtIdempotent(e: Thrown)
    ensures MapCaught(MapCaught(e)) == MapCaught(e)
  {
  }

  /** Normalisation deletes characters in place: it works piece by piece, so the kept
      characters stay in their order. */
  lemma {:induction false} StripCpfAppend(a: string, b: string)
    ensures StripCpf(a + b) == StripCpf(a) + StripCpf(b)
    decreases |a|
  {
    if |a| == 0 {
      assert a + b == b;
    } else {
      assert (a + b)[0] == a[0] && (a + b)[1..] == a[1..] + b;
      assert StripCpf(a + b) == (if IsSeparator(a[0]) then [] else [a[0]]) + StripCpf(a[1..] + b);
      assert StripCpf(a) == (if IsSeparator(a[0]) then [] else [a[0]]) + StripCpf(a[1..]);
      StripCpfAppend(a[1..], b);
    }
  }

  /** On one character normalisation deletes a dot or a hyphen and keeps anything else. */
  lemma StripCpfOneChar(c: char)
    ensures StripCpf([c]) == if IsSeparator(c) then [] else [c]
  {
    assert [c][1..] == [];
  }

  /** Normalising a normalised CPF changes nothing. */
  lemma {:induction false} StripCpfIdempotent(s: string)
    ensures StripCpf(StripCpf(s)) == StripCpf(s)
  {
    if |s| > 0 {
      StripCpfIdempotent(s[1..]);
      if !IsSeparator(s[0]) {
        var t := [s[0]] + StripCpf(s[1..]);
        assert t[0] == s[0] && t[1..] == StripCpf(s[1..]);
      }
    }
  }

  predicate IsDigit(c: char) {
    '0' <= c <= '9'
  }

  /** `replace(/\D/g, '')`: the digits of `s`, in order. */
  function KeepDigits(s: string): (r: string)
    ensures forall i :: 0 <= i < |r| ==> IsDigit(r[i])
    ensures |r| <= |s|
  {
    if |s| == 0 then []
    else if IsDigit(s[0]) then [s[0]] + KeepDigits(s[1..]) else KeepDigits(s[1..])
  }

  /** Every digit of `s` survives the filter as often as it occurs in `s`. */
  lemma {:induction false} KeepDigitsCounts(s: string)
    ensures forall c :: IsDigit(c) ==> multiset(KeepDigits(s))[c] == multiset(s)[c]
  {
    if |s| > 0 {
      assert s == [s[0]] + s[1..];
      KeepDigitsCounts(s[1..]);
    }
  }

  /** The digit filter also works piece by piece, so the digits keep their order. */
  lemma {:induction false} KeepDigitsAppend(a: string, b: string)
    ensures KeepDigits(a + b) == KeepDigits(a) + KeepDigits(b)
    decreases |a|
  {
    if |a| == 0 {
      assert a + b == b;
    } else {
      assert (a + b)[0] == a[0] && (a + b)[1..] == a[1..] + b;
      assert KeepDigits(a + b) == (if IsDigit(a[0]) then [a[0]] else []) + KeepDigits(a[1..] + b);
      assert KeepDigits(a) == (if IsDigit(a[0]) then [a[0]] else []) + KeepDigits(a[1..]);
      KeepDigitsAppend(a[1..], b);
    }
  }

  /** On a CPF written with digits, dots and hyphens only, deleting dots and hyphens and
      keeping only digits agree: the stored CPF is the digit string. */
  lemma {:induction false} StripCpfKeepsDigits(s: string)
    requires forall i :: 0 <= i < |s| ==> IsDigit(s[i]) || IsSeparator(s[i])
    ensures StripCpf(s) == KeepDigits(s)
  {
    if |s| > 0 {
      StripCpfKeepsDigits(s[1..]);
    }
  }
}
