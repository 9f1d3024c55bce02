/** The client-record service as functions of the table: what each operation
    of ClienteService returns and what the table holds afterwards. The
    table stands for the repository: the rows keyed by id, and the next
    identity value the store will hand out. Every operation takes the day
    of the call, which LocalDate.now() would give. */
module ClienteRules {
  import opened Nullable
  import opened Calendar
  import opened ClienteModel
  import opened ClienteDto
  import Cpf

  /** ClienteResponseDTO: a row plus its age on the day of the read. */
  datatype View = View(id: int, nome: string, cpf: string, dataNascimento: Date, idade: int)

  datatype Error =
    | NotFound(id: int)                   // EntityNotFoundException
    | CpfJaCadastrado                     // IllegalArgumentException: "CPF já cadastrado ..."
    | StoreRejected                       // the store refuses the row; the transaction rolls back
    | Invalid(violations: set<Violation>) // @Valid refuses the body at the controller

  datatype Result<T> = Ok(value: T) | Err(error: Error)

  datatype Table = Table(rows: map<int, Cliente>, nextId: int)

  /** What an operation returns, and the table after it. */
  datatype Outcome<T> = Outcome(result: Result<T>, table: Table)

  /** The store's invariant: rows keyed by their ids, all below the next
      identity value, each within its column constraints, cpf unique. */
  predicate StoreInvariant(t: Table) {
    && t.nextId >= 1
    && KeyedById(t.rows)
    && (forall k :: k in t.rows ==> 1 <= k < t.nextId && FieldsFit(t.rows[k]))
    && CpfUnique(t.rows)
  }

  /** Every stored birth date is strictly before today. */
  predicate AllBornBefore(t: Table, today: Date) {
    forall k :: k in t.rows ==> BornBefore(t.rows[k], today)
  }

  /** A new repository: no rows, identities start at 1. */
  function Empty(): (t: Table)
    ensures StoreInvariant(t) && t.rows == map[]
  {
    Table(map[], 1)
  }

  /** toResponseDTO: the row's fields and its whole-year age on day today. */
  function ToView(c: Cliente, today: Date): (v: View)
    ensures v.id == c.id && v.nome == c.nome && v.cpf == c.cpf
    ensures v.dataNascimento == c.dataNascimento
    ensures !Before(today, c.dataNascimento) ==> v.idade == AgeOn(c.dataNascimento, today)
    ensures Before(c.dataNascimento, today) ==> v.idade >= 0
  {
    var idade := PeriodYears(c.dataNascimento, today);
    assert !Before(today, c.dataNascimento) ==> idade == AgeOn(c.dataNascimento, today) by {
      if !Before(today, c.dataNascimento) {
        PeriodYearsIsAge(c.dataNascimento, today);
      }
    }
    View(c.id, c.nome, c.cpf, c.dataNascimento, idade)
  }

  /** The row the service fills in with setters, when no field is null. */
  predicate Complete(f: ClienteRequest) {
    f.nome.Some? && f.cpf.Some? && f.dataNascimento.Some?
  }

  function RowOf(key: int, f: ClienteRequest): (c: Cliente)
    requires Complete(f)
    ensures c.id == key
    ensures Some(c.nome) == f.nome && Some(c.cpf) == f.cpf && Some(c.dataNascimento) == f.dataNascimento
  {
    Cliente(key, f.nome.value, f.cpf.value, f.dataNascimento.value)
  }

  /** The store accepts the row with the given fields at key: none is null,
      all constraints hold, and no other row holds its cpf. */
  predicate StoreAccepts(rows: map<int, Cliente>, key: int, f: ClienteRequest, today: Date) {
    Complete(f) && Admissible(RowOf(key, f), today) && !CpfHeldByOther(rows, f.cpf.value, key)
  }

  /** repository.save: a row without an id is inserted under the next
      identity value; a row with an id replaces the row at that key. A
      refused row leaves the table as it was. */
  function Save(t: Table, id: Option<int>, f: ClienteRequest, today: Date): (o: Outcome<Cliente>)
    ensures o.result.Err? ==> o.result.error == StoreRejected && o.table == t
    ensures o.result.Ok? <==> StoreAccepts(t.rows, if id.Some? then id.value else t.nextId, f, today)
    ensures o.result.Ok? ==>
      && o.result.value == RowOf(if id.Some? then id.value else t.nextId, f)
      && o.table.rows == t.rows[o.result.value.id := o.result.value]
      && o.table.nextId == if id.Some? then t.nextId else t.nextId + 1
  {
    var key := if id.Some? then id.value else t.nextId;
    if StoreAccepts(t.rows, key, f, today) then
      var c := RowOf(key, f);
      Outcome(Ok(c), Table(t.rows[key := c], if id.Some? then t.nextId else t.nextId + 1))
    else
      Outcome(Err(StoreRejected), t)
  }

  function ViewOf(r: Result<Cliente>, today: Date): Result<View> {
    match r
    case Ok(c) => Ok(ToView(c, today))
    case Err(e) => Err(e)
  }

  /** buscarClientePorId: the view of the row with that id, or NotFound. */
  function Get(t: Table, id: int, today: Date): (r: Result<View>)
    ensures r.Ok? <==> id in t.rows
    ensures r.Ok? ==> r.value == ToView(t.rows[id], today)
    ensures r.Err? ==> r.error == NotFound(id)
  {
    if id in t.rows then Ok(ToView(t.rows[id], today)) else Err(NotFound(id))
  }

  /** buscarClientesPorCriterio: the views of the rows satisfying matches,
      keyed by id (the page's order is not modelled). */
  function Search(t: Table, matches: Cliente -> bool, today: Date): (r: map<int, View>)
    ensures forall k :: k in r <==> k in t.rows && matches(t.rows[k])
    ensures forall k :: k in r ==> r[k] == ToView(t.rows[k], today)
  {
    map k | k in t.rows && matches(t.rows[k]) :: ToView(t.rows[k], today)
  }

  /** listarClientes: the views of all rows, keyed by id. */
  function List(t: Table, today: Date): (r: map<int, View>)
    ensures r.Keys == t.rows.Keys
    ensures forall k :: k in r ==> r[k] == ToView(t.rows[k], today)
  {
    map k | k in t.rows :: ToView(t.rows[k], today)
  }

  /** Some row holds cpf (repository.findByCpf finds a row). */
  predicate CpfTaken(rows: map<int, Cliente>, cpf: string) {
    exists k :: k in rows && rows[k].cpf == cpf
  }

  /** criarCliente: a cpf already in the table is refused before anything
      is saved; otherwise the request's fields are saved as a new row. */
  function Create(t: Table, dto: ClienteRequest, today: Date): (o: Outcome<View>)
    ensures o.result.Err? ==> o.table == t
    ensures dto.cpf.Some? && CpfTaken(t.rows, dto.cpf.value) ==> o.result == Err(CpfJaCadastrado)
    ensures o.result.Ok? <==>
      && Complete(dto) && !CpfTaken(t.rows, dto.cpf.value)
      && Admissible(RowOf(t.nextId, dto), today)
    ensures o.result.Ok? ==>
      && o.result.value == ToView(RowOf(t.nextId, dto), today)
      && o.table == Table(t.rows[t.nextId := RowOf(t.nextId, dto)], t.nextId + 1)
  {
    if dto.cpf.Some? && CpfTaken(t.rows, dto.cpf.value) then
      Outcome(Err(CpfJaCadastrado), t)
    else
      var o := Save(t, None, dto, today);
      Outcome(ViewOf(o.result, today), o.table)
  }

  /** atualizarCliente: NotFound for an absent id; a cpf held by another
      row is refused; otherwise all three fields are replaced and the id
      kept. */
  function Update(t: Table, id: int, dto: ClienteRequest, today: Date): (o: Outcome<View>)
    ensures id !in t.rows ==> o == Outcome(Err(NotFound(id)), t)
    ensures o.result.Err? ==> o.table == t
    ensures id in t.rows && dto.cpf.Some? && CpfHeldByOther(t.rows, dto.cpf.value, id) ==>
      o.result == Err(CpfJaCadastrado)
    ensures o.result.Ok? <==>
      && id in t.rows && Complete(dto) && !CpfHeldByOther(t.rows, dto.cpf.value, id)
      && Admissible(RowOf(id, dto), today)
    ensures o.result.Ok? ==>
      && o.result.value == ToView(RowOf(id, dto), today)
      && o.table == Table(t.rows[id := RowOf(id, dto)], t.nextId)
  {
    if id !in t.rows then
      Outcome(Err(NotFound(id)), t)
    else if dto.cpf.Some? && CpfHeldByOther(t.rows, dto.cpf.value, id) then
      Outcome(Err(CpfJaCadastrado), t)
    else
      var o := Save(t, Some(id), dto, today);
      Outcome(ViewOf(o.result, today), o.table)
  }

  /** excluirCliente: NotFound for an absent id; otherwise that row goes. */
  function Delete(t: Table, id: int): (o: Outcome<()>)
    ensures o.result.Ok? <==> id in t.rows
    ensures o.result.Err? ==> o.result.error == NotFound(id) && o.table == t
    ensures o.result.Ok? ==> o.table == Table(t.rows - {id}, t.nextId)
  {
    if id !in t.rows then Outcome(Err(NotFound(id)), t)
    else Outcome(Ok(()), Table(t.rows - {id}, t.nextId))
  }

  // ---------------------------------------------------------------------
  // The store's invariant is kept by every operation.

  lemma SavePreservesInvariant(t: Table, id: Option<int>, f: ClienteRequest, today: Date)
    requires StoreInvariant(t)
    requires id.Some? ==> id.value in t.rows
    ensures StoreInvariant(Save(t, id, f, today).table)
    ensures Save(t, id, f, today).result.Ok? ==> BornBefore(Save(t, id, f, today).result.value, today)
  {
  }

  /** After any create the table still satisfies the invariant. */
  lemma CreatePreservesInvariant(t: Table, dto: ClienteRequest, today: Date)
    requires StoreInvariant(t)
    ensures StoreInvariant(Create(t, dto, today).table)
  {
  }

  /** After any update the table still satisfies the invariant. */
  lemma UpdatePreservesInvariant(t: Table, id: int, dto: ClienteRequest, today: Date)
    requires StoreInvariant(t)
    ensures StoreInvariant(Update(t, id, dto, today).table)
  {
  }

  /** After any delete the table still satisfies the invariant. */
  lemma DeletePreservesInvariant(t: Table, id: int)
    requires StoreInvariant(t)
    ensures StoreInvariant(Delete(t, id).table)
  {
  }

  /** Saving on day today keeps every row born before today. */
  lemma WritesKeepBirthDatesPast(t: Table, id: int, dto: ClienteRequest, today: Date)
    requires AllBornBefore(t, today)
    ensures AllBornBefore(Create(t, dto, today).table, today)
    ensures AllBornBefore(Update(t, id, dto, today).table, today)
    ensures AllBornBefore(Delete(t, id).table, today)
  {
  }

  /** A birth date in the past stays in the past on every later day. */
  lemma BirthDatesStayPast(t: Table, today: Date, later: Date)
    requires AllBornBefore(t, today) && !Before(later, today)
    ensures AllBornBefore(t, later)
  {
  }

  /** Every listed age is non-negative when the birth dates are past. */
  lemma ListedAgesNonNegative(t: Table, today: Date)
    requires AllBornBefore(t, today)
    ensures forall k :: k in List(t, today) ==> List(t, today)[k].idade >= 0
  {
  }

  // ---------------------------------------------------------------------
  // Identities.

  /** A created row gets an id no row had, larger than every id in use. */
  lemma CreateAssignsFreshId(t: Table, dto: ClienteRequest, today: Date)
    requires StoreInvariant(t)
    requires Create(t, dto, today).result.Ok?
    ensures Create(t, dto, today).result.value.id !in t.rows
    ensures forall k :: k in t.rows ==> k < Create(t, dto, today).result.value.id
    ensures Create(t, dto, today).table.rows.Keys == t.rows.Keys + {Create(t, dto, today).result.value.id}
  {
  }

  /** getById on an id the store never issued is NotFound. */
  lemma NeverIssuedIsNotFound(t: Table, id: int, today: Date)
    requires StoreInvariant(t) && (id < 1 || id >= t.nextId)
    ensures Get(t, id, today) == Err(NotFound(id))
  {
  }

  /** An id that was deleted is never handed out again. */
  lemma DeletedIdNotReissued(t: Table, id: int, dto: ClienteRequest, today: Date)
    requires StoreInvariant(t) && Delete(t, id).result.Ok?
    ensures Create(Delete(t, id).table, dto, today).result.Ok? ==>
      Create(Delete(t, id).table, dto, today).result.value.id != id
  {
  }

  /** Update and delete never move a row to another key, and a failed
      operation keeps every key. */
  lemma IdsAreStable(t: Table, id: int, dto: ClienteRequest, today: Date)
    requires StoreInvariant(t)
    ensures Update(t, id, dto, today).table.rows.Keys == t.rows.Keys
    ensures Delete(t, id).table.rows.Keys == t.rows.Keys - {id}
    ensures forall k :: k in Update(t, id, dto, today).table.rows ==>
      Update(t, id, dto, today).table.rows[k].id == k
  {
  }

  // ---------------------------------------------------------------------
  // Round trips and sequences of operations.

  /** A created row reads back with the request's fields and its age on
      the day of the read. */
  lemma CreateThenGet(t: Table, dto: ClienteRequest, today: Date, later: Date)
    requires Create(t, dto, today).result.Ok?
    ensures var v := Create(t, dto, today).result.value;
      var r := Get(Create(t, dto, today).table, v.id, later);
      && r.Ok?
      && Some(r.value.nome) == dto.nome && Some(r.value.cpf) == dto.cpf
      && Some(r.value.dataNascimento) == dto.dataNascimento
      && r.value.idade == PeriodYears(r.value.dataNascimento, later)
  {
  }

  /** Once a cpf is stored, a create with that cpf fails whatever its
      other fields, and the table is left as it was. */
  lemma {:induction false} DuplicateCpfRefused(t: Table, first: ClienteRequest, second: ClienteRequest, today: Date)
    requires Create(t, first, today).result.Ok?
    requires second.cpf == first.cpf
    ensures var u := Create(t, first, today).table;
      Create(u, second, today) == Outcome(Err(CpfJaCadastrado), u)
  {
    var u := Create(t, first, today).table;
    assert u.rows[t.nextId].cpf == first.cpf.value;
    assert CpfTaken(u.rows, second.cpf.value);
  }

  /** Updating a row with its own current cpf is not refused as a
      duplicate: it succeeds when the fields satisfy the constraints. */
  lemma UpdateWithOwnCpf(t: Table, id: int, dto: ClienteRequest, today: Date)
    requires StoreInvariant(t) && id in t.rows
    requires dto.cpf == Some(t.rows[id].cpf)
    requires Complete(dto) && Admissible(RowOf(id, dto), today)
    ensures Update(t, id, dto, today).result.Ok?
  {
  }

  /** Updating with a cpf of a different row fails and changes nothing. */
  lemma UpdateWithOthersCpf(t: Table, id: int, other: int, dto: ClienteRequest, today: Date)
    requires id in t.rows && other in t.rows && other != id
    requires dto.cpf == Some(t.rows[other].cpf)
    ensures Update(t, id, dto, today) == Outcome(Err(CpfJaCadastrado), t)
  {
  }

  /** After a delete, reading and deleting the id again are both NotFound. */
  lemma DeleteThenGetOrDelete(t: Table, id: int, today: Date)
    requires Delete(t, id).result.Ok?
    ensures Get(Delete(t, id).table, id, today) == Err(NotFound(id))
    ensures Delete(Delete(t, id).table, id).result == Err(NotFound(id))
  {
  }

  /** Delete takes out exactly that row: every other row is still there
      and unchanged. */
  lemma DeleteKeepsOthers(t: Table, id: int, k: int, today: Date)
    requires k != id
    ensures Get(Delete(t, id).table, k, today) == Get(t, k, today)
  {
  }

  // ---------------------------------------------------------------------
  // Searching.

  /** With no filter, search returns what list returns. */
  lemma SearchWithoutFilterIsList(t: Table, matches: Cliente -> bool, today: Date)
    requires forall c :: matches(c)
    ensures Search(t, matches, today) == List(t, today)
  {
  }

  /** A filter that admits only rows with one cpf finds at most one row,
      and finds it when that cpf is stored. */
  lemma {:induction false} SearchByCpfFindsAtMostOne(t: Table, cpf: string, matches: Cliente -> bool, today: Date)
    requires StoreInvariant(t)
    requires forall c :: matches(c) <==> c.cpf == cpf
    ensures |Search(t, matches, today)| <= 1
    ensures CpfTaken(t.rows, cpf) ==> |Search(t, matches, today)| == 1
  {
    var r := Search(t, matches, today);
    if CpfTaken(t.rows, cpf) {
      var k :| k in t.rows && t.rows[k].cpf == cpf;
      assert r.Keys == {k} by {
        forall j | j in r ensures j == k {
          assert t.rows[j].cpf == t.rows[k].cpf;
        }
      }
    } else {
      assert forall j :: j !in r;
      assert r.Keys == {};
    }
    assert |r| == |r.Keys|;
  }

  // ---------------------------------------------------------------------
  // Requests that pass @Valid.

  /** A valid request whose nome and cpf fit the columns is saved unless
      its cpf is already stored. */
  lemma ValidRequestCreated(t: Table, dto: ClienteRequest, today: Date, cpfCheck: string -> bool)
    requires PassesValidation(dto, today, cpfCheck)
    requires |dto.nome.value| <= NomeMaxLength && |dto.cpf.value| <= CpfMaxLength
    ensures Create(t, dto, today).result.Ok? <==> !CpfTaken(t.rows, dto.cpf.value)
  {
  }

  /** The controller test's body is created on an empty repository, under
      the first identity value and with its own fields, on every day after
      2000-01-01. */
  lemma FixtureCreatedOnEmpty(today: Date)
    requires Before(Ymd(2000, 1, 1), today)
    ensures var o := Create(Empty(), FixtureRequest(), today);
      && o.result.Ok?
      && o.result.value.id == 1
      && o.result.value.nome == "Cliente Miguel2" && o.result.value.cpf == Cpf.Fixture
      && o.result.value.dataNascimento == Ymd(2000, 1, 1)
      && o.table.rows.Keys == {1}
  {
    FixtureRequestValid(today);
    ValidRequestCreated(Empty(), FixtureRequest(), today, Cpf.CheckDigitsHold);
  }

  // The two service tests, with the mocked repository as a table.

  /** A row "Teste" with the test's cpf, born 30 years before today, reads
      back by its id with that name and age 30. The row is put straight
      into the table: no create, so no validation of its cpf. */
  lemma ServiceTestReadsAge(today: Date)
    ensures var row := Cliente(1, "Teste", Cpf.ServiceTestCpf, MinusYears(today, 30));
      var r := Get(Table(map[1 := row], 2), 1, today);
      r.Ok? && r.value.id == 1 && r.value.nome == "Teste" && r.value.idade == 30
  {
    MinusYearsAge(today, 30);
  }

  /** With any row holding the test's cpf, the test's create is refused as
      a duplicate and nothing is saved. */
  lemma ServiceTestDuplicateRefused(t: Table, today: Date)
    requires CpfTaken(t.rows, Cpf.ServiceTestCpf)
    ensures var dto := ClienteRequest(Some("Novo Cliente"), Some(Cpf.ServiceTestCpf), Some(MinusYears(today, 25)));
      Create(t, dto, today) == Outcome(Err(CpfJaCadastrado), t)
  {
  }
}
