/**
 * ReportsService: request intake (`create`), status lookup (`getStatus`)
 * and download-link issuance (`getDownloadUrl`) over the report tables and
 * the job queue. Presigning is left to the object store: the model returns
 * the presign request (key, TTL, file name) the service makes.
 */
module ReportsService {
  import opened Common
  import ReportsRepository
  import TurmaRepository

  type RequestId = ReportsRepository.RequestId

  /** A queued generation job `{ turmaId, solicitacaoId }`. */
  datatype Job = Job(turmaId: string, solicitacaoId: RequestId)

  /** The body of `create`: `{ turmaId?: string; tipoRelatorio?: string }`. */
  datatype CreateInput = CreateInput(turmaId: Option<string>, tipoRelatorio: Option<string>)

  /** `presignGetUrl(file_key, 300, nome_arquivo)` */
  datatype PresignRequest = PresignRequest(fileKey: string, ttlSeconds: nat, fileName: string)

  /** The store and queue operations of `create`, in the order performed. */
  datatype Step = CheckTurma(turmaId: string) | InsertRequest(id: RequestId) | EnqueueJob(job: Job)

  const Concluido: string := "concluido"
  const DownloadTtlSeconds: nat := 300

  const MissingFields: string := "turmaId e tipoRelatorio são obrigatórios"
  /** Stands for the error the queue client throws when it cannot enqueue. */
  const QueueUnavailable: string := "fila de relatórios indisponível"

  function TurmaNotFound(turmaId: string): string {
    "Turma com ID " + turmaId + " não encontrada"
  }

  function RequestNotFound(id: RequestId): string {
    "Solicitação com ID " + NatToString(id) + " não encontrada"
  }

  function NotReady(status: Option<string>): string {
    "Relatório ainda não está pronto. Status atual: "
    + (if status.Some? && status.value != "" then status.value else "não encontrado")
  }

  function ArtifactMissing(id: RequestId): string {
    "Arquivo do relatório não encontrado para a solicitação " + NatToString(id)
  }

  /** `!data.turmaId || !data.tipoRelatorio` is false: both present and non-empty. */
  predicate FieldsPresent(data: CreateInput) {
    data.turmaId.Some? && data.turmaId.value != "" && data.tipoRelatorio.Some? && data.tipoRelatorio.value != ""
  }

  /** The job queue (`enqueueReportJob`). `accepting` is the environment's
      answer: when the queue is unreachable the enqueue throws. */
  class JobQueue {
    var jobs: seq<Job>
    var accepting: bool

    constructor(accepting: bool)
      ensures jobs == [] && this.accepting == accepting
    {
      jobs := [];
      this.accepting := accepting;
    }

    method Enqueue(job: Job) returns (ok: bool)
      modifies this`jobs
      ensures ok == accepting
      ensures jobs == if ok then old(jobs) + [job] else old(jobs)
    {
      ok := accepting;
      if ok {
        jobs := jobs + [job];
      }
    }
  }

  class Service {
    const repo: ReportsRepository.Store
    const queue: JobQueue
    /** The store and queue operations performed so far. */
    ghost var trace: seq<Step>

    constructor(repo: ReportsRepository.Store, queue: JobQueue)
      ensures this.repo == repo && this.queue == queue && trace == []
    {
      this.repo := repo;
      this.queue := queue;
      trace := [];
    }

    /** `create`: field check, then the participation check, then the
        pending row, then the job carrying the id just created. A failed
        check writes nothing; a failed enqueue leaves the pending row behind
        with no job. The report type is not checked against any list. */
    method Create(data: CreateInput) returns (r: Result<RequestId>)
      requires repo.Valid()
      modifies repo`requests, repo`nextId, queue`jobs, this`trace
      ensures repo.Valid()
      ensures repo.artifacts == old(repo.artifacts) && repo.participacoes == old(repo.participacoes)
      ensures !FieldsPresent(data) ==>
                r == Err(ValidationError(MissingFields))
                && trace == old(trace) && repo.requests == old(repo.requests) && queue.jobs == old(queue.jobs)
      ensures FieldsPresent(data) && !TurmaRepository.ValidateTurmaExists(old(repo.participacoes), data.turmaId.value) ==>
                r == Err(ValidationError(TurmaNotFound(data.turmaId.value)))
                && trace == old(trace) + [CheckTurma(data.turmaId.value)]
                && repo.requests == old(repo.requests) && queue.jobs == old(queue.jobs)
      ensures FieldsPresent(data) && TurmaRepository.ValidateTurmaExists(old(repo.participacoes), data.turmaId.value) ==>
                exists id :: id !in old(repo.requests)
                  && repo.requests == old(repo.requests)[id := ReportsRepository.Request(
                                        data.turmaId.value, data.tipoRelatorio.value, ReportsRepository.Pendente)]
                  && GetStatus(repo.requests, id) == Ok(ReportsRepository.Pendente)
                  && GetDownloadUrl(repo.requests, repo.artifacts, id).Err?
                  && trace == old(trace) + [CheckTurma(data.turmaId.value), InsertRequest(id),
                                            EnqueueJob(Job(data.turmaId.value, id))]
                  && (queue.accepting ==> r == Ok(id) && queue.jobs == old(queue.jobs) + [Job(data.turmaId.value, id)])
                  && (!queue.accepting ==> r == Err(Failure(QueueUnavailable)) && queue.jobs == old(queue.jobs))
    {
      if !FieldsPresent(data) {
        return Err(ValidationError(MissingFields));
      }
      var turmaId := data.turmaId.value;

      trace := trace + [CheckTurma(turmaId)];
      TurmaRepository.ValidateTurmaExistsIff(repo.participacoes, turmaId);
      var turmaExists := repo.ValidateTurmaExists(turmaId);
      if !turmaExists {
        return Err(ValidationError(TurmaNotFound(turmaId)));
      }

      var solicitacaoId := repo.CreateRequest(turmaId, data.tipoRelatorio.value);
      trace := trace + [InsertRequest(solicitacaoId)];

      var job := Job(turmaId, solicitacaoId);
      trace := trace + [EnqueueJob(job)];
      var ok := queue.Enqueue(job);
      if !ok {
        return Err(Failure(QueueUnavailable));
      }
      return Ok(solicitacaoId);
    }
  }

  /** `getStatus`, over the requests table: the stored status unchanged; an
      unknown id or an empty status is NotFound. */
  function GetStatus(requests: map<RequestId, ReportsRepository.Request>, id: RequestId): (r: Result<string>)
    ensures r.Ok? <==> id in requests && requests[id].status != ""
    ensures r.Ok? ==> r.value == requests[id].status
    ensures r.Err? ==> r.error == NotFoundError(RequestNotFound(id))
  {
    var status := ReportsRepository.StatusOf(requests, id);
    if status.None? || status.value == "" then Err(NotFoundError(RequestNotFound(id)))
    else Ok(status.value)
  }

  /** `getDownloadUrl`, over both tables: guarded first by status ==
      "concluido" (else a ValidationError naming the status, or "não
      encontrado"), then by the presence of an artifact row; presigns the key of
      the row the lookup returns for 300 seconds under its file name. */
  function GetDownloadUrl(requests: map<RequestId, ReportsRepository.Request>,
                          artifacts: seq<ReportsRepository.Artifact>, id: RequestId): (r: Result<PresignRequest>)
    ensures r.Ok? <==> id in requests && requests[id].status == Concluido
                       && ReportsRepository.FileRefOf(artifacts, id).Some?
    ensures (id !in requests || requests[id].status != Concluido) ==>
              r == Err(ValidationError(NotReady(ReportsRepository.StatusOf(requests, id))))
    ensures id in requests && requests[id].status == Concluido
            && ReportsRepository.FileRefOf(artifacts, id).None? ==>
              r == Err(ValidationError(ArtifactMissing(id)))
    ensures r.Ok? ==> r.value.ttlSeconds == DownloadTtlSeconds
                      && exists i :: 0 <= i < |artifacts| && artifacts[i].solicitacaoId == id
                           && r.value.fileKey == artifacts[i].fileKey
                           && r.value.fileName == artifacts[i].nomeArquivo
  {
    var status := ReportsRepository.StatusOf(requests, id);
    if status != Some(Concluido) then Err(ValidationError(NotReady(status)))
    else
      match ReportsRepository.FileRefOf(artifacts, id)
      case None => Err(ValidationError(ArtifactMissing(id)))
      case Some(f) => Ok(PresignRequest(f.fileKey, DownloadTtlSeconds, f.nomeArquivo))
  }

  /** An unknown id asked for a download is a ValidationError that says
      "não encontrado", not a NotFoundError. */
  lemma UnknownIdDownloadIsValidationError(requests: map<RequestId, ReportsRepository.Request>,
                                           artifacts: seq<ReportsRepository.Artifact>, id: RequestId)
    requires id !in requests
    ensures GetDownloadUrl(requests, artifacts, id)
            == Err(ValidationError("Relatório ainda não está pronto. Status atual: não encontrado"))
  {
    assert "Relatório ainda não está pronto. Status atual: " + "não encontrado"
           == "Relatório ainda não está pronto. Status atual: não encontrado";
  }

  /** Recording the artifact of a finished request again (a redelivered job)
      keeps the download available; recording it the first time is what
      makes the download possible; an artifact of another request changes
      nothing. Which of two rows of one request is presigned is not fixed
      by the source (`ReportsRepository.RecordAgainAnswers`). */
  lemma RecordingAgainKeepsDownload(requests: map<RequestId, ReportsRepository.Request>,
                                    artifacts: seq<ReportsRepository.Artifact>,
                                    a: ReportsRepository.Artifact, id: RequestId)
    ensures GetDownloadUrl(requests, artifacts, id).Ok? ==> GetDownloadUrl(requests, artifacts + [a], id).Ok?
    ensures id in requests && requests[id].status == Concluido && a.solicitacaoId == id ==>
              GetDownloadUrl(requests, artifacts + [a], id).Ok?
    ensures a.solicitacaoId != id ==>
              GetDownloadUrl(requests, artifacts + [a], id) == GetDownloadUrl(requests, artifacts, id)
  {
    ReportsRepository.FileRefOfAppend(artifacts, a, id);
  }

  /** Status writes are not forward-only: overwriting a finished request's
      status with any other value withdraws its download link again, even
      though its artifact row is still there. */
  lemma StatusOverwriteWithdrawsDownload(requests: map<RequestId, ReportsRepository.Request>,
                                         artifacts: seq<ReportsRepository.Artifact>,
                                         id: RequestId, status: string)
    requires GetDownloadUrl(requests, artifacts, id).Ok?
    requires status != Concluido
    ensures GetDownloadUrl(requests[id := requests[id].(status := status)], artifacts, id).Err?
    ensures ReportsRepository.FileRefOf(artifacts, id).Some?
  {
  }
}
