# Cliente API: the client-record service in Dafny

This project models the client-record service of a Spring Boot backend. The
backend keeps `Cliente` rows: a store-assigned id, a name (`nome`), a
Brazilian taxpayer number (`cpf`) that must be unique, and a birth date
(`dataNascimento`). The service lists, searches, reads, creates, updates
and deletes these rows. Each client it returns carries an age (`idade`),
recomputed on every read.

The model keeps the repository as an in-memory table: a map from id to row,
plus the next identity value. Every outcome is a function of the table, the
arguments and the day of the call.

- `Calendar` (calendar.dfy) defines dates as (year, month, day) triples
  restricted to real Gregorian dates. It also models the two `java.time`
  features the service uses: the `@Past` ordering and the whole-year part
  of `Period.between` (`PeriodYears`, including Java's truncating
  division). `LocalDate.minusYears`, which the tests use to build birth
  dates, is modelled too.
- `Cpf` (cpf.dfy) is the CPF check-digit rule (mod 11) on an eleven-digit
  string.
- `ClienteModel` (cliente.dfy) is the entity and the constraints the store
  enforces on each row and over the table (`@NotBlank`, the column lengths
  150 and 11, `@Past`, `unique`).
- `ClienteDto` (cliente_request.dfy) is the request record. Each field may
  be null (`Nullable.Option`). `Violations` lists the constraints its
  annotations declare; `PassesValidation` is what `@Valid` accepts. The library's
  `@CPF` validator is a parameter, `cpfCheck`.
- `ClienteRules` (cliente_rules.dfy) specifies every service operation as a
  function on a table value. Its lemmas cover the store invariant (every
  row within its constraints, cpf unique, ids below the counter),
  round trips, and sequences of operations.
- `ClienteServices` (cliente_service.dfy) has the `ClienteService` class.
  Its fields are the rows and the counter. `CriarCliente`,
  `AtualizarCliente` and `ExcluirCliente` update the fields in place, keep
  the store invariant (`Valid()`), and are proved equal to their `ClienteRules` functions. The
  reading operations are the `ClienteRules` functions applied to
  `Table()`. `ClienteController` keeps only the `@Valid` gate in front of
  create and update.

The service itself validates no fields. Its only caller, the controller,
refuses an invalid body first. When a request does reach the store, the
store refuses a row that breaks a constraint (`StoreRejected`), and the
transaction leaves the table as it was.

Points where the code's behaviour is easy to misread:

- The controller validates the body before the service runs. So on update
  an invalid body is `Invalid` even when the id is absent.
- Validation is not a service step. The service accepts any non-null
  fields and leaves the rest to the store. The service test calls
  `criarCliente` directly with a body whose cpf, "12345678901", fails the
  check digits (`Cpf.ServiceTestCpfIsInvalid`); its mocked repository also
  holds a row with that cpf.
- The cpf column allows up to 11 characters; it does not demand exactly
  11 digits. Beyond that, only the `@CPF` validator, a parameter here,
  constrains cpf.
- "00000000000" satisfies the check-digit rule
  (`Cpf.ZerosSatisfyCheckDigits`). Whether `@CPF` refuses repeated digits
  is left open.

## Model

| member | source | states |
|---|---|---|
| `Calendar.PeriodYearsIsAge` | src/main/java/br/com/miguelXavier/clienteApi/service/ClienteService.java:86 | for a birth date not after today, Java's whole-year period equals the year difference less one when the birthday has not come round yet |
| `Calendar.PeriodYearsNonNegative` | src/main/java/br/com/miguelXavier/clienteApi/service/ClienteService.java:86 | a past birth date gives a non-negative age |
| `Calendar.PeriodYearsMonotone` | src/main/java/br/com/miguelXavier/clienteApi/service/ClienteService.java:86 | the computed age never decreases as the day of the read moves forward |
| `Calendar.MinusYears` | src/test/java/br/com/miguelXavier/clienteApi/service/ClienteServiceTest.java:36 | `minusYears(n)` gives the same month n years earlier, with the same day when that month has it and the month's last day otherwise (29 February becomes 28 February) |
| `Calendar.MinusYearsAge` | src/test/java/br/com/miguelXavier/clienteApi/service/ClienteServiceTest.java:36-43 | a birth date exactly n years before today yields age n (30 in the test) |
| `Cpf.CheckDigit` | src/main/java/br/com/miguelXavier/clienteApi/dto/ClienteRequestDTO.java:16 | the check digit is 0..9; when the remainder mod 11 is 2 or more it completes the sum to a multiple of 11; otherwise it is 0 |
| `Cpf.FixtureIsValid` | src/test/java/br/com/miguelXavier/clienteApi/controller/ClienteControllerTest.java:26-38 | "62492922090" satisfies the CPF check-digit rule |
| `Cpf.ServiceTestCpfIsInvalid` | src/test/java/br/com/miguelXavier/clienteApi/service/ClienteServiceTest.java:35 | "12345678901" fails the check-digit rule, so only an unvalidated path can store it |
| `Cpf.ZerosSatisfyCheckDigits` | src/main/java/br/com/miguelXavier/clienteApi/dto/ClienteRequestDTO.java:16 | "00000000000" satisfies the check-digit rule, so refusing it takes a rule beyond the digits |
| `ClienteModel.CpfUniqueAfterPut` | src/main/java/br/com/miguelXavier/clienteApi/model/Cliente.java:29 | putting a row at a key keeps cpf unique exactly when no other row holds its cpf |
| `ClienteDto.Violations` | src/main/java/br/com/miguelXavier/clienteApi/dto/ClienteRequestDTO.java:11-21 | a null or blank nome, a null or blank cpf, a non-null cpf failing the CPF check, a null birth date, and a birth date not before today are each reported, and nothing else is |
| `ClienteDto.PassesValidationIff` | src/main/java/br/com/miguelXavier/clienteApi/dto/ClienteRequestDTO.java:11-21 | a request is valid if and only if nome is non-blank, cpf is non-blank and passes the CPF check, and the birth date is present and strictly before today |
| `ClienteDto.FixtureRequestValid` | src/test/java/br/com/miguelXavier/clienteApi/controller/ClienteControllerTest.java:26-32 | the controller test's body is valid under the check-digit rule on every day after 2000-01-01 |
| `ClienteRules.Empty` | src/main/java/br/com/miguelXavier/clienteApi/model/Cliente.java:20-34 | a new repository has no rows and satisfies the store invariant |
| `ClienteRules.ToView` | src/main/java/br/com/miguelXavier/clienteApi/service/ClienteService.java:80-87 | the view copies id, nome, cpf and birth date; its age is the whole-year age on the day of the read, non-negative for a past birth date |
| `ClienteRules.Save` | src/main/java/br/com/miguelXavier/clienteApi/model/Cliente.java:20-34 | the store saves a row if and only if no field is null, every column and validation constraint holds, and no other row has its cpf; an insert takes the next identity value and advances it; a refusal changes nothing |
| `ClienteRules.Get` | src/main/java/br/com/miguelXavier/clienteApi/service/ClienteService.java:36-41 | the view of the row with that id when there is one, NotFound otherwise; the table is a parameter and is not changed |
| `ClienteRules.Search` | src/main/java/br/com/miguelXavier/clienteApi/service/ClienteService.java:31-34 | exactly the rows that satisfy the criterion, each as its view on the day of the read |
| `ClienteRules.List` | src/main/java/br/com/miguelXavier/clienteApi/service/ClienteService.java:26-29 | one view for every row and for no other id |
| `ClienteRules.Create` | src/main/java/br/com/miguelXavier/clienteApi/service/ClienteService.java:43-53 | a stored cpf is refused whatever the other fields; success if and only if the cpf is new and the store accepts the fields; then exactly one row is added under the next id with the request's fields; a failure changes nothing |
| `ClienteRules.Update` | src/main/java/br/com/miguelXavier/clienteApi/service/ClienteService.java:55-70 | an absent id is NotFound and changes nothing; a cpf held by a different row is refused; success if and only if the id exists, no other row holds the cpf and the store accepts the fields; then all three fields are replaced under the same id and nothing else changes |
| `ClienteRules.Delete` | src/main/java/br/com/miguelXavier/clienteApi/service/ClienteService.java:72-78 | an absent id is NotFound and changes nothing; otherwise exactly that row is removed |
| `ClienteRules.SavePreservesInvariant` | src/main/java/br/com/miguelXavier/clienteApi/model/Cliente.java:20-34 | a save keeps the store invariant (keys are ids, ids below the counter, fields within their constraints, cpf unique), and a saved row is born before the day of the save |
| `ClienteRules.CreatePreservesInvariant` | src/main/java/br/com/miguelXavier/clienteApi/service/ClienteService.java:43-53 | every create keeps the store invariant, including cpf uniqueness |
| `ClienteRules.UpdatePreservesInvariant` | src/main/java/br/com/miguelXavier/clienteApi/service/ClienteService.java:55-70 | every update keeps the store invariant, including cpf uniqueness |
| `ClienteRules.DeletePreservesInvariant` | src/main/java/br/com/miguelXavier/clienteApi/service/ClienteService.java:72-78 | every delete keeps the store invariant, including cpf uniqueness |
| `ClienteRules.WritesKeepBirthDatesPast` | src/main/java/br/com/miguelXavier/clienteApi/model/Cliente.java:32-34 | when every stored birth date is before today, it still is after a create, update or delete on that day |
| `ClienteRules.BirthDatesStayPast` | src/main/java/br/com/miguelXavier/clienteApi/model/Cliente.java:32-34 | birth dates before one day are before every later day |
| `ClienteRules.ListedAgesNonNegative` | src/main/java/br/com/miguelXavier/clienteApi/service/ClienteService.java:80-87 | with every birth date past, every listed age is non-negative |
| `ClienteRules.CreateAssignsFreshId` | src/main/java/br/com/miguelXavier/clienteApi/model/Cliente.java:20-22 | a created row gets an id no row had, larger than every id in use, and exactly that key is added |
| `ClienteRules.NeverIssuedIsNotFound` | src/main/java/br/com/miguelXavier/clienteApi/service/ClienteService.java:36-41 | getById on an id the store never issued is NotFound |
| `ClienteRules.DeletedIdNotReissued` | src/main/java/br/com/miguelXavier/clienteApi/model/Cliente.java:20-22 | a deleted id is not handed out to the next created row |
| `ClienteRules.IdsAreStable` | src/main/java/br/com/miguelXavier/clienteApi/service/ClienteService.java:55-78 | update keeps the set of keys and every row keyed by its own id; delete removes exactly its key |
| `ClienteRules.CreateThenGet` | src/main/java/br/com/miguelXavier/clienteApi/service/ClienteService.java:36-53 | a created row reads back with the request's nome, cpf and birth date, and with the age on the day of the read |
| `ClienteRules.DuplicateCpfRefused` | src/test/java/br/com/miguelXavier/clienteApi/service/ClienteServiceTest.java:47-57 | after a successful create, any create with the same cpf fails as a duplicate and leaves the table as it was |
| `ClienteRules.UpdateWithOwnCpf` | src/main/java/br/com/miguelXavier/clienteApi/service/ClienteService.java:60-64 | an update that keeps the row's own cpf is not a duplicate; it succeeds when the store accepts the fields |
| `ClienteRules.UpdateWithOthersCpf` | src/main/java/br/com/miguelXavier/clienteApi/service/ClienteService.java:60-64 | an update with a different row's cpf fails as a duplicate and changes nothing |
| `ClienteRules.DeleteThenGetOrDelete` | src/main/java/br/com/miguelXavier/clienteApi/service/ClienteService.java:72-78 | after a delete, both getById and a second delete of that id are NotFound |
| `ClienteRules.DeleteKeepsOthers` | src/main/java/br/com/miguelXavier/clienteApi/service/ClienteService.java:72-78 | a delete leaves every other id reading back as before |
| `ClienteRules.SearchWithoutFilterIsList` | src/main/java/br/com/miguelXavier/clienteApi/service/ClienteService.java:26-34 | a criterion that admits every row gives the same result as list |
| `ClienteRules.SearchByCpfFindsAtMostOne` | src/main/java/br/com/miguelXavier/clienteApi/model/Cliente.java:29 | a criterion that matches one cpf finds at most one client, and exactly one when that cpf is stored |
| `ClienteRules.ValidRequestCreated` | src/main/java/br/com/miguelXavier/clienteApi/service/ClienteService.java:43-53 | a valid request whose nome and cpf fit their columns is created if and only if its cpf is not yet stored |
| `ClienteRules.FixtureCreatedOnEmpty` | src/test/java/br/com/miguelXavier/clienteApi/controller/ClienteControllerTest.java:26-38 | on an empty repository the controller test's body is created, under id 1 with its own nome, cpf and birth date, on every day after 2000-01-01 |
| `ClienteRules.ServiceTestReadsAge` | src/test/java/br/com/miguelXavier/clienteApi/service/ClienteServiceTest.java:29-45 | a row "Teste" born 30 years before today, held under id 1, reads back by that id with nome "Teste" and age 30 |
| `ClienteRules.ServiceTestDuplicateRefused` | src/test/java/br/com/miguelXavier/clienteApi/service/ClienteServiceTest.java:47-57 | when some row holds "12345678901", creating "Novo Cliente" with that cpf is a duplicate and the table is unchanged (nothing is saved) |
| `ClienteServices.ClienteService.constructor` | src/main/java/br/com/miguelXavier/clienteApi/service/ClienteService.java:22-24 | the service starts over an empty repository that satisfies the invariant |
| `ClienteServices.ClienteService.Save` | src/main/java/br/com/miguelXavier/clienteApi/service/ClienteService.java:52 | the in-place save returns and leaves exactly what `ClienteRules.Save` gives, and keeps the invariant |
| `ClienteServices.ClienteService.CriarCliente` | src/main/java/br/com/miguelXavier/clienteApi/service/ClienteService.java:43-53 | returns and leaves exactly what `ClienteRules.Create` gives, keeps the invariant; a failure leaves the fields unchanged; a success uses the old counter as a fresh id |
| `ClienteServices.ClienteService.AtualizarCliente` | src/main/java/br/com/miguelXavier/clienteApi/service/ClienteService.java:55-70 | returns and leaves exactly what `ClienteRules.Update` gives, keeps the invariant; every other row is unchanged; a success keeps the id and the key set |
| `ClienteServices.ClienteService.ExcluirCliente` | src/main/java/br/com/miguelXavier/clienteApi/service/ClienteService.java:72-78 | succeeds if and only if the id is present, removes exactly that row and keeps the counter and the invariant |
| `ClienteServices.ClienteController.Cadastrar` | src/main/java/br/com/miguelXavier/clienteApi/controller/ClienteController.java:55-61 | an invalid body is refused with its violations and the repository is untouched; a valid one is exactly `ClienteRules.Create` |
| `ClienteServices.ClienteController.Atualizar` | src/main/java/br/com/miguelXavier/clienteApi/controller/ClienteController.java:63-67 | an invalid body is refused with its violations before the id is looked up; a valid one is exactly `ClienteRules.Update` |
| `ClienteServices.DuplicateCpfScenario` | src/test/java/br/com/miguelXavier/clienteApi/service/ClienteServiceTest.java:29-57 | on a fresh repository "Ana", born 30 years ago, is created with age 30 and reads back by id with that name and age; a second create with her cpf is a duplicate; a search by that cpf finds exactly her; the controller test's body is then a duplicate |

## Left out

- HTTP routing, status codes and the created resource's URI in
  `ClienteController` are not modelled. Only the `@Valid` gate is kept.
- Authentication (the login controller, the token service and Spring
  Security), and the test that expects 403 without a token, are external
  to the core and not modelled.
- Pagination and sorting are not modelled: `List` and `Search` return a
  map from id to view, with no order and no page bounds.
- The search criterion (`LikeIgnoreCase` on nome and cpf) comes from a
  library that is not part of this model. `Search` takes it as an
  arbitrary predicate on rows.
- The `@CPF` validator's own treatment of punctuation and of
  repeated-digit strings is not modelled. It is the parameter `cpfCheck`;
  `Cpf.CheckDigitsHold` is only its check-digit rule.
- Transactions and the check-then-save race between concurrent creates
  are not modelled. The model is sequential, so the store's cpf
  uniqueness check never fires after the service's own check
  (`ClienteRules.Create` succeeds without it).
- `LocalDate.now()` is the parameter `today`. One call uses one day for
  both the `@Past` check and the age.
- `ClienteRules.Save`: a failed insert does not consume an identity value
  here. The database may burn one; ids stay fresh either way.
- `repository.findByCpf` with a null cpf is modelled as finding nothing.
  No stored row has a null cpf, and the save that follows is refused.
- `ClienteRules.Update` checks for another holder of the cpf directly. The
  source reads the single holder with `findByCpf`; under cpf uniqueness
  the two agree.
- The store's error types are one error, `StoreRejected`. This covers
  ConstraintViolationException and DataIntegrityViolationException.
- Ids are unbounded integers, not 64-bit `Long` values. Years are not
  bounded to `LocalDate`'s range.
- The Mockito wiring of the service test is not modelled. Each mocked
  repository is a table: `ClienteRules.ServiceTestReadsAge` holds the row
  built with setters, and `ClienteRules.ServiceTestDuplicateRefused` any
  table where `findByCpf` finds the test's cpf.
