/**
 * AtividadeRepository: the listing query over `atividades` with its one
 * optional filter, and the by-id lookup.
 */
module AtividadeRepository {
  import opened Common

  datatype Atividade = Atividade(id: string, nome: string, tipo: string, turmaId: string)

  datatype ListOptions = ListOptions(limit: int, offset: int, turmaId: Option<string>)

  datatype ListQuery = ListQuery(query: string, params: seq<Param>, countQuery: string, countParams: seq<Param>)

  const SelectBase: string := "SELECT id, nome, tipo, turma_id FROM atividades"
  const CountBase: string := "SELECT COUNT(*)::int AS total FROM atividades"
  const TurmaFilter: string := " WHERE turma_id = $1"

  /** `list`'s query construction. The filter is `$1` and is applied to both
      statements exactly when `turma_id` is truthy; with n in {0, 1} filter
      values, LIMIT and OFFSET are $(n+1) and $(n+2) and bind the last two
      params; the count statement gets `[turma_id]` or `[]`. */
  method BuildList(opts: ListOptions) returns (q: ListQuery)
    ensures var filtered := Present(opts.turmaId);
            var n := if filtered then 1 else 0;
      && |q.params| == n + 2
      && (filtered ==> q.params[0] == Text(opts.turmaId.value))
      && q.params[n] == Int(opts.limit) && q.params[n + 1] == Int(opts.offset)
      && q.countParams == q.params[..n]
      && q.countQuery == CountBase + (if filtered then TurmaFilter else "")
      && q.query == SelectBase + (if filtered then TurmaFilter else "")
                    + " ORDER BY nome ASC LIMIT " + Placeholder(n + 1) + " OFFSET " + Placeholder(n + 2)
  {
    var query := SelectBase;
    var countQuery := CountBase;
    var params: seq<Param> := [];

    if Present(opts.turmaId) {
      query := query + TurmaFilter;
      countQuery := countQuery + TurmaFilter;
      params := params + [Text(opts.turmaId.value)];
    }

    query := query + " ORDER BY nome ASC LIMIT " + Placeholder(|params| + 1) + " OFFSET " + Placeholder(|params| + 2);
    params := params + [Int(opts.limit), Int(opts.offset)];

    var countParams := if Present(opts.turmaId) then [Text(opts.turmaId.value)] else [];
    q := ListQuery(query, params, countQuery, countParams);
  }

  /** `findById`: the row with that id, or null when `rowCount` is 0. */
  function FindById(table: seq<Atividade>, id: string): (r: Option<Atividade>)
    ensures r.None? <==> forall i :: 0 <= i < |table| ==> table[i].id != id
    ensures r.Some? ==> r.value.id == id && r.value in table
  {
    FirstMatch(table, (a: Atividade) => a.id, id)
  }
}
