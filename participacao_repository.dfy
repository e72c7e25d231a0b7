/**
 * ParticipacaoRepository: the parameterised listing query over the
 * `participacoes` table, built clause by clause with a running `$n`
 * counter, and the by-id lookup.
 * Query text is kept with its whitespace collapsed to single spaces.
 */
module ParticipacaoRepository {
  import opened Common

  /** A participation row (participacao.types.ts); `horas` and `nota` are
      kept as the text the database returns (their `parseFloat` is left out),
      and the optional workload columns are not modelled. */
  datatype Participacao = Participacao(
    id: string, alunoId: string, atividadeId: string, turmaId: string,
    presenca: bool, horas: string, nota: string, conceito: string, statusAvaliacao: string)

  datatype ListOptions = ListOptions(
    limit: int, offset: int,
    turmaId: Option<string>, alunoId: Option<string>, atividadeId: Option<string>)

  /** The two statements `list` sends and the values bound to each. */
  datatype ListQuery = ListQuery(query: string, params: seq<Param>, countQuery: string, countParams: seq<Param>)

  /** The three filterable columns. */
  datatype Column = TurmaId | AlunoId | AtividadeId

  function ColumnName(c: Column): string {
    match c
    case TurmaId => "turma_id"
    case AlunoId => "aluno_id"
    case AtividadeId => "atividade_id"
  }

  /** One equality filter: a column and the value it must equal. */
  datatype Filter = Filter(column: Column, value: string)

  const SelectBase: string :=
    "SELECT id, aluno_id, atividade_id, turma_id, presenca, horas, nota, conceito, status_avaliacao, "
    + "workload_real, workload_simulated, acts_workload_real, shifts_workload_real, "
    + "practices_workload_real, acts_workload_simulated, practices_workload_simulated FROM participacoes"
  const CountBase: string := "SELECT COUNT(*)::int AS total FROM participacoes"

  /** The filters that apply, in the fixed order turma_id, aluno_id, atividade_id. */
  function ActiveFilters(opts: ListOptions): (fs: seq<Filter>)
    ensures |fs| <= 3
  {
    (if Present(opts.turmaId) then [Filter(TurmaId, opts.turmaId.value)] else [])
    + (if Present(opts.alunoId) then [Filter(AlunoId, opts.alunoId.value)] else [])
    + (if Present(opts.atividadeId) then [Filter(AtividadeId, opts.atividadeId.value)] else [])
  }

  /** `<column> = $<n>` */
  function Clause(column: Column, n: nat): string { ColumnName(column) + " = " + Placeholder(n) }

  /** The clauses for a filter list, numbered from $1. */
  /** Clause i reads `column = $(i+1)`. */
  function Clauses(fs: seq<Filter>): seq<string> {
    seq(|fs|, i requires 0 <= i < |fs| => Clause(fs[i].column, i + 1))
  }

  /** The text appended to both statements: empty without filters. */
  function WhereSuffix(fs: seq<Filter>): string {
    if fs == [] then "" else " WHERE " + Join(Clauses(fs), " AND ")
  }

  /** Param i is the value of filter i. */
  function FilterValues(fs: seq<Filter>): seq<Param> {
    seq(|fs|, i requires 0 <= i < |fs| => Text(fs[i].value))
  }

  /** One `if (value) { whereClauses.push(...$${paramIndex++}); params.push(value) }`
      step: the clause lists and counter stay in step with the ghost list of
      filters applied so far. */
  method AddFilter(column: Column, value: Option<string>,
                   whereClauses: seq<string>, params: seq<Param>, paramIndex: nat, ghost fs: seq<Filter>)
    returns (whereClauses': seq<string>, params': seq<Param>, paramIndex': nat, ghost fs': seq<Filter>)
    requires whereClauses == Clauses(fs) && params == FilterValues(fs) && paramIndex == |fs| + 1
    ensures fs' == fs + (if Present(value) then [Filter(column, value.value)] else [])
    ensures whereClauses' == Clauses(fs') && params' == FilterValues(fs') && paramIndex' == |fs'| + 1
  {
    whereClauses', params', paramIndex', fs' := whereClauses, params, paramIndex, fs;
    if Present(value) {
      whereClauses' := whereClauses' + [Clause(column, paramIndex')];
      paramIndex' := paramIndex' + 1;
      params' := params' + [Text(value.value)];
      fs' := fs' + [Filter(column, value.value)];
      assert whereClauses' == Clauses(fs');
      assert params' == FilterValues(fs');
    }
  }

  /** The three `if (x) { ... }` filter steps of `list`, in order. */
  method AddFilters(opts: ListOptions) returns (whereClauses: seq<string>, params: seq<Param>, paramIndex: nat)
    ensures whereClauses == Clauses(ActiveFilters(opts)) && params == FilterValues(ActiveFilters(opts))
    ensures paramIndex == |ActiveFilters(opts)| + 1
  {
    ghost var fs: seq<Filter> := [];
    whereClauses, params, paramIndex := [], [], 1;
    whereClauses, params, paramIndex, fs := AddFilter(TurmaId, opts.turmaId, whereClauses, params, paramIndex, fs);
    whereClauses, params, paramIndex, fs := AddFilter(AlunoId, opts.alunoId, whereClauses, params, paramIndex, fs);
    whereClauses, params, paramIndex, fs := AddFilter(AtividadeId, opts.atividadeId, whereClauses, params, paramIndex, fs);
  }

  /** `list`'s query construction. With k active filters: clause i binds $i
      to params[i-1]; LIMIT is $(k+1) and OFFSET is $(k+2), the last two
      params; the count statement shares the WHERE text and gets only the
      k filter values. */
  method BuildList(opts: ListOptions) returns (q: ListQuery)
    ensures var fs := ActiveFilters(opts); var k := |fs|;
      && |q.params| == k + 2
      && (forall i :: 0 <= i < k ==> q.params[i] == Text(fs[i].value))
      && q.params[k] == Int(opts.limit) && q.params[k + 1] == Int(opts.offset)
      && q.countParams == q.params[..k]
      && q.query == SelectBase + WhereSuffix(fs)
                    + " ORDER BY id DESC LIMIT " + Placeholder(k + 1) + " OFFSET " + Placeholder(k + 2)
      && q.countQuery == CountBase + WhereSuffix(fs)
  {
    var query := SelectBase;
    var countQuery := CountBase;
    ghost var fs := ActiveFilters(opts);
    var whereClauses, params, paramIndex := AddFilters(opts);

    if |whereClauses| > 0 {
      var whereClause := " WHERE " + Join(whereClauses, " AND ");
      query := query + whereClause;
      countQuery := countQuery + whereClause;
    }
    assert query == SelectBase + WhereSuffix(fs) && countQuery == CountBase + WhereSuffix(fs);

    query := query + " ORDER BY id DESC LIMIT " + Placeholder(paramIndex) + " OFFSET " + Placeholder(paramIndex + 1);
    ghost var filterParams := params;
    params := params + [Int(opts.limit), Int(opts.offset)];
    assert params[..|params| - 2] == filterParams;

    q := ListQuery(query, params, countQuery, params[..|params| - 2]);
  }

  /** Position of a filter column in the fixed order of `list`. */
  function Rank(column: Column): int {
    match column
    case TurmaId => 0
    case AlunoId => 1
    case AtividadeId => 2
  }

  function Columns(fs: seq<Filter>): (cs: seq<Column>)
    ensures |cs| == |fs| && forall i :: 0 <= i < |fs| ==> cs[i] == fs[i].column
  {
    seq(|fs|, i requires 0 <= i < |fs| => fs[i].column)
  }

  /** A filter is active exactly when its option is truthy; active filters
      come in the fixed order turma_id, aluno_id, atividade_id, each at most once. */
  lemma ActiveFiltersOrder(opts: ListOptions)
    ensures var cs := Columns(ActiveFilters(opts));
      && (TurmaId in cs <==> Present(opts.turmaId))
      && (AlunoId in cs <==> Present(opts.alunoId))
      && (AtividadeId in cs <==> Present(opts.atividadeId))
      && forall i, j :: 0 <= i < j < |cs| ==> Rank(cs[i]) < Rank(cs[j])
  {
    var t, a, v := Present(opts.turmaId), Present(opts.alunoId), Present(opts.atividadeId);
    var cs := Columns(ActiveFilters(opts));
    var expected := (if t then [TurmaId] else []) + (if a then [AlunoId] else [])
                    + (if v then [AtividadeId] else []);
    assert cs == expected;
    if t && a && v { assert cs == [TurmaId, AlunoId, AtividadeId]; }
    else if t && a { assert cs == [TurmaId, AlunoId]; }
    else if t && v { assert cs == [TurmaId, AtividadeId]; }
    else if a && v { assert cs == [AlunoId, AtividadeId]; }
  }

  /** `findById`: the row with that id, or null when the query returns no row. */
  function FindById(table: seq<Participacao>, id: string): (r: Option<Participacao>)
    ensures r.None? <==> forall i :: 0 <= i < |table| ==> table[i].id != id
    ensures r.Some? ==> r.value.id == id && r.value in table
  {
    FirstMatch(table, (p: Participacao) => p.id, id)
  }
}
