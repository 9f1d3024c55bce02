/** The Cliente entity (table "clientes") and the constraints that the store
    enforces on every row it saves: Bean Validation's @NotBlank and @Past
    on the entity, and the column definitions (not null, length, unique). */
module ClienteModel {
  import opened Calendar

  /** A stored row; id is the store-assigned identity key. */
  datatype Cliente = Cliente(id: int, nome: string, cpf: string, dataNascimento: Date)

  const NomeMaxLength := 150
  const CpfMaxLength := 11

  /** @NotBlank: String.trim() strips every character up to U+0020, so a
      string is blank when all of its characters are such. */
  predicate IsBlank(s: string) {
    forall i :: 0 <= i < |s| ==> s[i] <= ' '
  }

  /** Column and @NotBlank constraints of one row, independent of the date. */
  predicate FieldsFit(c: Cliente) {
    && !IsBlank(c.nome) && |c.nome| <= NomeMaxLength
    && !IsBlank(c.cpf) && |c.cpf| <= CpfMaxLength
  }

  /** @Past on dataNascimento, checked when the row is saved on day today. */
  predicate BornBefore(c: Cliente, today: Date) {
    Before(c.dataNascimento, today)
  }

  /** Everything the store checks of a single row saved on day today. */
  predicate Admissible(c: Cliente, today: Date) {
    FieldsFit(c) && BornBefore(c, today)
  }

  /** Some row other than the one keyed except holds cpf. */
  predicate CpfHeldByOther(rows: map<int, Cliente>, cpf: string, except: int) {
    exists k :: k in rows && k != except && rows[k].cpf == cpf
  }

  /** The unique = true column constraint over the whole table. */
  predicate CpfUnique(rows: map<int, Cliente>) {
    forall j, k :: j in rows && k in rows && rows[j].cpf == rows[k].cpf ==> j == k
  }

  /** Every row is keyed by its own id. */
  predicate KeyedById(rows: map<int, Cliente>) {
    forall k :: k in rows ==> rows[k].id == k
  }

  /** Replacing or adding the row at key k keeps cpf unique exactly when no
      other row holds the new row's cpf. */
  lemma {:induction false} CpfUniqueAfterPut(rows: map<int, Cliente>, k: int, c: Cliente)
    requires CpfUnique(rows)
    ensures CpfUnique(rows[k := c]) <==> !CpfHeldByOther(rows, c.cpf, k)
  {
    var r := rows[k := c];
    if CpfHeldByOther(rows, c.cpf, k) {
      var j :| j in rows && j != k && rows[j].cpf == c.cpf;
      assert r[j].cpf == r[k].cpf;
    } else {
      forall i, j | i in r && j in r && r[i].cpf == r[j].cpf
        ensures i == j
      {
        if i != k && j != k {
          assert rows[i].cpf == rows[j].cpf;
        }
      }
    }
  }
}
