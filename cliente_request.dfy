/** ClienteRequestDTO: the body of a create or update request, and the
    Bean Validation rules its annotations declare. The @CPF validator of
    the validation library is a parameter, cpfCheck; Cpf.CheckDigitsHold
    is the check-digit rule it applies. */
module ClienteDto {
  import opened Nullable
  import opened Calendar
  import opened ClienteModel
  import Cpf

  /** Any field may be null (None) in a decoded body. */
  datatype ClienteRequest = ClienteRequest(
    nome: Option<string>,
    cpf: Option<string>,
    dataNascimento: Option<Date>)

  /** One failed constraint; each carries the message the DTO declares. */
  datatype Violation =
    | NomeVazio        // "O campo nome não pode ser vazio."
    | CpfVazio         // "O campo CPF não pode ser vazio."
    | CpfInvalido      // "CPF inválido."
    | DataNula         // "O campo data de nascimento não pode ser nulo."
    | DataNaoPassada   // "A data de nascimento deve ser uma data no passado."

  /** @NotBlank: null or blank fails. */
  predicate NotBlank(s: Option<string>) {
    s.Some? && !IsBlank(s.value)
  }

  /** Every constraint the request breaks on day today. Like the
      validation library, @CPF and @Past let a null value through and
      leave it to @NotBlank and @NotNull. */
  function Violations(r: ClienteRequest, today: Date, cpfCheck: string -> bool): (v: set<Violation>)
    ensures NomeVazio in v <==> !NotBlank(r.nome)
    ensures CpfVazio in v <==> !NotBlank(r.cpf)
    ensures CpfInvalido in v <==> r.cpf.Some? && !cpfCheck(r.cpf.value)
    ensures DataNula in v <==> r.dataNascimento.None?
    ensures DataNaoPassada in v <==> r.dataNascimento.Some? && !Before(r.dataNascimento.value, today)
  {
    (if NotBlank(r.nome) then {} else {NomeVazio})
    + (if NotBlank(r.cpf) then {} else {CpfVazio})
    + (if r.cpf.Some? && !cpfCheck(r.cpf.value) then {CpfInvalido} else {})
    + (match r.dataNascimento
       case None => {DataNula}
       case Some(d) => if Before(d, today) then {} else {DataNaoPassada})
  }

  /** What @Valid accepts: no constraint broken. */
  predicate PassesValidation(r: ClienteRequest, today: Date, cpfCheck: string -> bool) {
    Violations(r, today, cpfCheck) == {}
  }

  /** A valid request has a non-blank nome, a non-blank cpf that passes
      the CPF check and a birth date strictly before today, and conversely. */
  lemma PassesValidationIff(r: ClienteRequest, today: Date, cpfCheck: string -> bool)
    ensures PassesValidation(r, today, cpfCheck) <==>
      && NotBlank(r.nome)
      && NotBlank(r.cpf) && cpfCheck(r.cpf.value)
      && r.dataNascimento.Some? && Before(r.dataNascimento.value, today)
  {
  }

  /** The controller test's body: nome "Cliente Miguel2", the fixture CPF
      and a birth date of 2000-01-01. */
  function FixtureRequest(): ClienteRequest {
    ClienteRequest(Some("Cliente Miguel2"), Some(Cpf.Fixture), Some(Ymd(2000, 1, 1)))
  }

  /** The fixture is valid under the check-digit rule on any day after
      2000-01-01. */
  lemma FixtureRequestValid(today: Date)
    requires Before(Ymd(2000, 1, 1), today)
    ensures PassesValidation(FixtureRequest(), today, Cpf.CheckDigitsHold)
  {
    Cpf.FixtureIsValid();
    var r := FixtureRequest();
    assert !IsBlank(r.nome.value) by { assert r.nome.value[0] > ' '; }
    assert !IsBlank(r.cpf.value) by { assert r.cpf.value[0] > ' '; }
    PassesValidationIff(r, today, Cpf.CheckDigitsHold);
  }
}
