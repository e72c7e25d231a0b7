/**
 * TurmaRepository.validateTurmaExists: a turma "exists" when at least one
 * row of the `participacoes` table carries its id. No turmas table is read.
 */
module TurmaRepository {
  import ParticipacaoRepository

  /** `SELECT COUNT(*) FROM participacoes WHERE turma_id = $1` */
  function CountByTurma(rows: seq<ParticipacaoRepository.Participacao>, turmaId: string): (n: nat)
    ensures n <= |rows|
  {
    if rows == [] then 0
    else CountByTurma(rows[..|rows| - 1], turmaId) + (if rows[|rows| - 1].turmaId == turmaId then 1 else 0)
  }

  /** `Number.parseInt(count) > 0` */
  predicate ValidateTurmaExists(rows: seq<ParticipacaoRepository.Participacao>, turmaId: string) {
    CountByTurma(rows, turmaId) > 0
  }

  /** The count is positive exactly when some participation row has that turma id. */
  lemma {:induction false} ValidateTurmaExistsIff(rows: seq<ParticipacaoRepository.Participacao>, turmaId: string)
    ensures ValidateTurmaExists(rows, turmaId) <==> exists i :: 0 <= i < |rows| && rows[i].turmaId == turmaId
  {
    if rows != [] {
      var init := rows[..|rows| - 1];
      ValidateTurmaExistsIff(init, turmaId);
      if exists i :: 0 <= i < |init| && init[i].turmaId == turmaId {
        var i :| 0 <= i < |init| && init[i].turmaId == turmaId;
        assert rows[i].turmaId == turmaId;
      }
      if exists i :: 0 <= i < |rows| && rows[i].turmaId == turmaId {
        var i :| 0 <= i < |rows| && rows[i].turmaId == turmaId;
        if i < |init| { assert init[i].turmaId == turmaId; }
      }
    }
  }

  /** A turma with no participation rows is reported as nonexistent, even
      right after rows for other turmas are added. */
  lemma OtherRowsDoNotCount(rows: seq<ParticipacaoRepository.Participacao>, turmaId: string,
                            extra: ParticipacaoRepository.Participacao)
    requires !ValidateTurmaExists(rows, turmaId) && extra.turmaId != turmaId
    ensures !ValidateTurmaExists(rows + [extra], turmaId)
  {
    assert (rows + [extra])[..|rows|] == rows;
  }
}
