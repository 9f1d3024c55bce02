/** ClienteService over an in-memory repository: the rows and the next
    identity value are fields that the writing operations update in place.
    Each operation is proved against its function in ClienteRules; the
    reading operations (list, search, getById) are those functions applied
    to Table(). ClienteController is reduced to what it decides: @Valid
    gates create and update. */
module ClienteServices {
  import opened Nullable
  import opened Calendar
  import opened ClienteModel
  import opened ClienteDto
  import opened ClienteRules
  import Cpf

  class ClienteService {
    var rows: map<int, Cliente>
    var nextId: int

    /** The repository's current contents as a value. */
    function Table(): ClienteRules.Table
      reads this
    {
      ClienteRules.Table(rows, nextId)
    }

    ghost predicate Valid()
      reads this
    {
      StoreInvariant(Table())
    }

    /** An empty repository. */
    constructor ()
      ensures Valid() && Table() == Empty()
    {
      rows := map[];
      nextId := 1;
    }

    /** repository.save: inserts under the next identity value when id is
        None, replaces the row at id otherwise; refuses a row that breaks
        a column or validation constraint. */
    method Save(id: Option<int>, f: ClienteRequest, today: Date) returns (r: Result<Cliente>)
      requires Valid()
      requires id.Some? ==> id.value in rows
      modifies this
      ensures Valid()
      ensures r == ClienteRules.Save(old(Table()), id, f, today).result
      ensures Table() == ClienteRules.Save(old(Table()), id, f, today).table
    {
      SavePreservesInvariant(Table(), id, f, today);
      var key := if id.Some? then id.value else nextId;
      if StoreAccepts(rows, key, f, today) {
        var c := RowOf(key, f);
        rows := rows[key := c];
        if id.None? {
          nextId := nextId + 1;
        }
        r := Ok(c);
      } else {
        r := Err(StoreRejected);
      }
    }

    /** criarCliente. */
    method CriarCliente(dto: ClienteRequest, today: Date) returns (r: Result<View>)
      requires Valid()
      modifies this
      ensures Valid()
      ensures r == Create(old(Table()), dto, today).result
      ensures Table() == Create(old(Table()), dto, today).table
      ensures r.Err? ==> rows == old(rows) && nextId == old(nextId)
      ensures r.Ok? ==> r.value.id == old(nextId) && r.value.id !in old(rows)
    {
      CreatePreservesInvariant(Table(), dto, today);
      if dto.cpf.Some? && CpfTaken(rows, dto.cpf.value) {
        r := Err(CpfJaCadastrado);
        return;
      }
      var saved := Save(None, dto, today);
      match saved {
        case Ok(c) => r := Ok(ToView(c, today));
        case Err(e) => r := Err(e);
      }
    }

    /** atualizarCliente: looks the row up, refuses a cpf held by another
        row, then sets all three fields on the row and saves it. */
    method AtualizarCliente(id: int, dto: ClienteRequest, today: Date) returns (r: Result<View>)
      requires Valid()
      modifies this
      ensures Valid()
      ensures r == Update(old(Table()), id, dto, today).result
      ensures Table() == Update(old(Table()), id, dto, today).table
      ensures r.Err? ==> rows == old(rows) && nextId == old(nextId)
      ensures r.Ok? ==> r.value.id == id && rows.Keys == old(rows).Keys
      ensures forall k :: k in old(rows) && k != id ==> k in rows && rows[k] == old(rows)[k]
    {
      UpdatePreservesInvariant(Table(), id, dto, today);
      if id !in rows {
        r := Err(NotFound(id));
        return;
      }
      if dto.cpf.Some? && CpfHeldByOther(rows, dto.cpf.value, id) {
        r := Err(CpfJaCadastrado);
        return;
      }
      var saved := Save(Some(id), dto, today);
      match saved {
        case Ok(c) => r := Ok(ToView(c, today));
        case Err(e) => r := Err(e);
      }
    }

    /** excluirCliente. */
    method ExcluirCliente(id: int) returns (r: Result<()>)
      requires Valid()
      modifies this
      ensures Valid()
      ensures r == Delete(old(Table()), id).result
      ensures Table() == Delete(old(Table()), id).table
      ensures r.Ok? <==> id in old(rows)
      ensures rows == old(rows) - {id} && nextId == old(nextId)
    {
      DeletePreservesInvariant(Table(), id);
      if id !in rows {
        r := Err(NotFound(id));
        return;
      }
      rows := rows - {id};
      r := Ok(());
    }
  }

  /** The part of ClienteController that decides anything: a body that
      @Valid refuses never reaches the service. */
  class ClienteController {
    const service: ClienteService

    constructor (service: ClienteService)
      ensures this.service == service
    {
      this.service := service;
    }

    /** POST /clientes. */
    method Cadastrar(dto: ClienteRequest, today: Date, cpfCheck: string -> bool) returns (r: Result<View>)
      requires service.Valid()
      modifies service
      ensures service.Valid()
      ensures !PassesValidation(dto, today, cpfCheck) ==>
        r == Err(Invalid(Violations(dto, today, cpfCheck))) && service.Table() == old(service.Table())
      ensures PassesValidation(dto, today, cpfCheck) ==>
        r == Create(old(service.Table()), dto, today).result
        && service.Table() == Create(old(service.Table()), dto, today).table
    {
      var v := Violations(dto, today, cpfCheck);
      if v != {} {
        r := Err(Invalid(v));
        return;
      }
      r := service.CriarCliente(dto, today);
    }

    /** PUT /clientes/{id}: the body is validated before the service looks
        the id up, so an invalid body is refused even for an absent id. */
    method Atualizar(id: int, dto: ClienteRequest, today: Date, cpfCheck: string -> bool) returns (r: Result<View>)
      requires service.Valid()
      modifies service
      ensures service.Valid()
      ensures !PassesValidation(dto, today, cpfCheck) ==>
        r == Err(Invalid(Violations(dto, today, cpfCheck))) && service.Table() == old(service.Table())
      ensures PassesValidation(dto, today, cpfCheck) ==>
        r == Update(old(service.Table()), id, dto, today).result
        && service.Table() == Update(old(service.Table()), id, dto, today).table
    {
      var v := Violations(dto, today, cpfCheck);
      if v != {} {
        r := Err(Invalid(v));
        return;
      }
      r := service.AtualizarCliente(id, dto, today);
    }
  }

  /** The scenario the service and controller tests describe, on a fresh
      repository: "Ana", born exactly 30 years before today with the
      fixture CPF, is created with age 30 and reads back by id with that
      name and age; a second body with the same CPF
      and other fields is refused as a duplicate; a search for that CPF
      finds exactly one client; and the controller test's body is then
      refused as a duplicate too. */
  method DuplicateCpfScenario(today: Date)
    returns (first: Result<View>, read: Result<View>, second: Result<View>, found: map<int, View>, fixture: Result<View>)
    ensures first.Ok? && first.value.nome == "Ana" && first.value.idade == 30
    ensures read.Ok? && read.value.id == first.value.id && read.value.nome == "Ana" && read.value.idade == 30
    ensures second == Err(CpfJaCadastrado)
    ensures |found| == 1 && first.value.id in found
    ensures fixture == Err(CpfJaCadastrado)
  {
    var service := new ClienteService();
    var controller := new ClienteController(service);
    var birth := MinusYears(today, 30);
    var ana := ClienteRequest(Some("Ana"), Some(Cpf.Fixture), Some(birth));
    Cpf.FixtureIsValid();
    assert !IsBlank("Ana") by { assert "Ana"[0] > ' '; }
    assert !IsBlank(Cpf.Fixture) by { assert Cpf.Fixture[0] > ' '; }
    PassesValidationIff(ana, today, Cpf.CheckDigitsHold);
    ValidRequestCreated(service.Table(), ana, today, Cpf.CheckDigitsHold);
    first := controller.Cadastrar(ana, today, Cpf.CheckDigitsHold);
    MinusYearsAge(today, 30);
    read := Get(service.Table(), first.value.id, today);

    var other := ClienteRequest(Some("Outra"), Some(Cpf.Fixture), Some(MinusYears(today, 25)));
    var afterFirst := service.Table();
    assert afterFirst.rows[first.value.id].cpf == Cpf.Fixture;
    second := service.CriarCliente(other, today);

    found := Search(service.Table(), (c: Cliente) => c.cpf == Cpf.Fixture, today);
    SearchByCpfFindsAtMostOne(service.Table(), Cpf.Fixture, (c: Cliente) => c.cpf == Cpf.Fixture, today);

    fixture := service.CriarCliente(FixtureRequest(), today);
  }
}
