/**
 * ReportsRepository: the two report tables, `solicitacoes_relatorio`
 * (requests keyed by id) and `relatorios_gerados` (generated artifacts, a
 * plain append-only table), plus the participation table the existence
 * check counts over. The database's id generation is a counter.
 */
module ReportsRepository {
  import opened Common
  import ParticipacaoRepository
  import TurmaRepository

  type RequestId = nat

  datatype Request = Request(turmaId: string, tipoRelatorio: string, status: string)

  datatype Artifact = Artifact(
    solicitacaoId: RequestId, turmaId: string, tipoRelatorio: string, nomeArquivo: string, fileKey: string)

  /** The `{ file_key, nome_arquivo }` row `getFileKeyBySolicitacaoId` returns. */
  datatype FileRef = FileRef(fileKey: string, nomeArquivo: string)

  const Pendente: string := "pendente"

  /** The type `insertMetadados` writes, whatever it is given. */
  const StoredArtifactTipo: string := "excel"

  /** `SELECT status FROM solicitacoes_relatorio WHERE id = $1`, `?? null` */
  function StatusOf(requests: map<RequestId, Request>, id: RequestId): (s: Option<string>)
    ensures s.Some? <==> id in requests
    ensures s.Some? ==> s.value == requests[id].status
  {
    if id in requests then Some(requests[id].status) else None
  }

  /** `SELECT file_key, nome_arquivo FROM relatorios_gerados WHERE solicitacao_id = $1`,
      `rows[0] ?? null`. The SELECT has no ORDER BY, so the database may
      return the request's rows in any order; the model reads the table in
      insertion order and takes the earliest row, one of the answers
      `Answers` admits (`FileRefOfAnswers`). */
  function FileRefOf(artifacts: seq<Artifact>, id: RequestId): (r: Option<FileRef>)
    ensures r.None? <==> forall i :: 0 <= i < |artifacts| ==> artifacts[i].solicitacaoId != id
    ensures r.Some? ==> exists i :: 0 <= i < |artifacts| && artifacts[i].solicitacaoId == id
                          && r.value == FileRef(artifacts[i].fileKey, artifacts[i].nomeArquivo)
                          && forall j :: 0 <= j < i ==> artifacts[j].solicitacaoId != id
  {
    if artifacts == [] then None
    else if artifacts[0].solicitacaoId == id then Some(FileRef(artifacts[0].fileKey, artifacts[0].nomeArquivo))
    else
      var r := FileRefOf(artifacts[1..], id);
      assert r.Some? ==> exists i :: 0 <= i < |artifacts| && artifacts[i].solicitacaoId == id
                          && r.value == FileRef(artifacts[i].fileKey, artifacts[i].nomeArquivo)
                          && forall j :: 0 <= j < i ==> artifacts[j].solicitacaoId != id by {
        if r.Some? {
          var i :| 0 <= i < |artifacts[1..]| && artifacts[1..][i].solicitacaoId == id
                   && r.value == FileRef(artifacts[1..][i].fileKey, artifacts[1..][i].nomeArquivo)
                   && forall j :: 0 <= j < i ==> artifacts[1..][j].solicitacaoId != id;
          assert artifacts[i + 1] == artifacts[1..][i];
          forall j | 0 <= j < i + 1 ensures artifacts[j].solicitacaoId != id {
            if j > 0 { assert artifacts[j] == artifacts[1..][j - 1]; }
          }
        }
      }
      r
  }

  /** What the unordered lookup may return: null exactly when no row has
      the request id, otherwise the key and name of some row that has it. */
  predicate Answers(artifacts: seq<Artifact>, id: RequestId, r: Option<FileRef>) {
    && (r.None? <==> forall i :: 0 <= i < |artifacts| ==> artifacts[i].solicitacaoId != id)
    && (r.Some? ==> exists i :: 0 <= i < |artifacts| && artifacts[i].solicitacaoId == id
                                && r.value == FileRef(artifacts[i].fileKey, artifacts[i].nomeArquivo))
  }

  /** The model's pick is one the database may make. */
  lemma FileRefOfAnswers(artifacts: seq<Artifact>, id: RequestId)
    ensures Answers(artifacts, id, FileRefOf(artifacts, id))
  {
  }

  /** Recording an artifact again (a redelivered job) adds a second row for
      the request: the lookup may then return the earlier row or the new
      one, and nothing else. A row of another request changes no answer. */
  lemma RecordAgainAnswers(artifacts: seq<Artifact>, a: Artifact, id: RequestId, r: Option<FileRef>)
    ensures a.solicitacaoId == id ==>
              (Answers(artifacts + [a], id, r)
               <==> r == Some(FileRef(a.fileKey, a.nomeArquivo)) || (r.Some? && Answers(artifacts, id, r)))
    ensures a.solicitacaoId != id ==> (Answers(artifacts + [a], id, r) <==> Answers(artifacts, id, r))
  {
    var b := artifacts + [a];
    assert b[|artifacts|] == a;
    assert forall i :: 0 <= i < |artifacts| ==> b[i] == artifacts[i];
    if r.Some? && Answers(artifacts, id, r) {
      var i :| 0 <= i < |artifacts| && artifacts[i].solicitacaoId == id
                && r.value == FileRef(artifacts[i].fileKey, artifacts[i].nomeArquivo);
      assert b[i] == artifacts[i];
    }
    if r.Some? && Answers(b, id, r) {
      var i :| 0 <= i < |b| && b[i].solicitacaoId == id && r.value == FileRef(b[i].fileKey, b[i].nomeArquivo);
      if i < |artifacts| {
        assert artifacts[i] == b[i];
      }
    }
  }

  /** With the model's pick: once a row exists the lookup keeps
      succeeding; the first row of a request is what the lookup returns;
      a row of another request changes nothing. */
  lemma {:induction false} FileRefOfAppend(artifacts: seq<Artifact>, a: Artifact, id: RequestId)
    ensures FileRefOf(artifacts, id).Some? ==> FileRefOf(artifacts + [a], id).Some?
    ensures FileRefOf(artifacts, id).None? && a.solicitacaoId == id
            ==> FileRefOf(artifacts + [a], id) == Some(FileRef(a.fileKey, a.nomeArquivo))
    ensures a.solicitacaoId != id ==> FileRefOf(artifacts + [a], id) == FileRefOf(artifacts, id)
  {
    if artifacts != [] {
      assert (artifacts + [a])[1..] == artifacts[1..] + [a];
      FileRefOfAppend(artifacts[1..], a, id);
    }
  }

  class Store {
    /** solicitacoes_relatorio */
    var requests: map<RequestId, Request>
    /** relatorios_gerados, in insertion order */
    var artifacts: seq<Artifact>
    /** participacoes, read by the existence check */
    var participacoes: seq<ParticipacaoRepository.Participacao>
    /** the next id the database will hand out */
    var nextId: RequestId

    ghost predicate Valid()
      reads this
    {
      forall id :: id in requests ==> id < nextId
    }

    constructor(participacoes: seq<ParticipacaoRepository.Participacao>)
      ensures Valid()
      ensures requests == map[] && artifacts == [] && this.participacoes == participacoes
    {
      requests := map[];
      artifacts := [];
      this.participacoes := participacoes;
      nextId := 0;
    }

    /** `createRequest`: one new row, status 'pendente', under a fresh id. */
    method CreateRequest(turmaId: string, tipoRelatorio: string) returns (id: RequestId)
      requires Valid()
      modifies this`requests, this`nextId
      ensures Valid()
      ensures id !in old(requests)
      ensures requests == old(requests)[id := Request(turmaId, tipoRelatorio, Pendente)]
      ensures artifacts == old(artifacts) && participacoes == old(participacoes)
    {
      id := nextId;
      requests := requests[id := Request(turmaId, tipoRelatorio, Pendente)];
      nextId := nextId + 1;
    }

    /** `validateTurmaExists`: the same participation count as TurmaRepository. */
    method ValidateTurmaExists(turmaId: string) returns (exists_: bool)
      ensures exists_ <==> exists i :: 0 <= i < |participacoes| && participacoes[i].turmaId == turmaId
    {
      TurmaRepository.ValidateTurmaExistsIff(participacoes, turmaId);
      exists_ := TurmaRepository.CountByTurma(participacoes, turmaId) > 0;
    }

    /** `updateStatus`: an unconditional overwrite of one row's status, with
        no check of the current value; an unknown id changes nothing. */
    method UpdateStatus(id: RequestId, status: string)
      requires Valid()
      modifies this`requests
      ensures Valid()
      ensures id in old(requests) ==> requests == old(requests)[id := old(requests)[id].(status := status)]
      ensures id !in old(requests) ==> requests == old(requests)
    {
      if id in requests {
        requests := requests[id := requests[id].(status := status)];
      }
    }

    /** `getStatus`: the row's status, or null for an unknown id. */
    method GetStatus(id: RequestId) returns (s: Option<string>)
      ensures s.Some? <==> id in requests
      ensures s.Some? ==> s.value == requests[id].status
    {
      s := if id in requests then Some(requests[id].status) else None;
    }

    /** `insertMetadados`: a plain INSERT (no conflict handling) whose
        tipo_relatorio is always "excel". */
    method InsertMetadados(solicitacaoId: RequestId, turmaId: string, tipoRelatorio: string,
                           nomeArquivo: string, fileKey: string)
      modifies this`artifacts
      ensures artifacts == old(artifacts) + [Artifact(solicitacaoId, turmaId, StoredArtifactTipo, nomeArquivo, fileKey)]
    {
      artifacts := artifacts + [Artifact(solicitacaoId, turmaId, StoredArtifactTipo, nomeArquivo, fileKey)];
    }

    /** `getFileKeyBySolicitacaoId`: an artifact row of the request (the
        model's pick, the earliest), or null. */
    method GetFileKeyBySolicitacaoId(solicitacaoId: RequestId) returns (r: Option<FileRef>)
      ensures r == FileRefOf(artifacts, solicitacaoId)
    {
      r := FileRefOf(artifacts, solicitacaoId);
    }
  }
}
