/**
 * The read-only listing/detail services. Each one clamps page/pageSize
 * (module Pagination), hands the window to its repository, and turns a
 * missing record into a NotFoundError. Repository answers that this model
 * does not compute itself (the Aluno, Professor and Turma lookups) are
 * parameters: the value the repository returned.
 */

module AlunoService {
  import opened Common
  import Pagination

  datatype Aluno = Aluno(id: string, nome: string, email: string)

  /** `list`: the window passed to the repository. */
  function List(page: int, pageSize: int): (w: Pagination.Window)
    ensures 1 <= w.limit <= Pagination.MaxPageSize && w.offset >= 0
    ensures page <= 1 ==> w.offset == 0
    ensures page >= 1 ==> w.offset == (page - 1) * w.limit
    ensures w == Pagination.Clamp(page, pageSize)
  {
    Pagination.Clamp(page, pageSize)
  }

  /** `getById`, given what `findById` returned. */
  function GetById(found: Option<Aluno>): (r: Result<Aluno>)
    ensures r.Ok? <==> found.Some?
    ensures r.Ok? ==> r.value == found.value
    ensures r.Err? ==> r.error == NotFoundError("Aluno não encontrado")
  {
    RequireFound(found, "Aluno não encontrado")
  }
}

module ProfessorService {
  import opened Common
  import Pagination

  datatype Professor = Professor(id: string, nome: string, departamento: string)

  /** `list`: the window passed to the repository. */
  function List(page: int, pageSize: int): (w: Pagination.Window)
    ensures 1 <= w.limit <= Pagination.MaxPageSize && w.offset >= 0
    ensures page >= 1 ==> w.offset == (page - 1) * w.limit
    ensures w == Pagination.Clamp(page, pageSize)
  {
    Pagination.Clamp(page, pageSize)
  }

  /** `getById`, given what `findById` returned. */
  function GetById(found: Option<Professor>): (r: Result<Professor>)
    ensures r.Ok? <==> found.Some?
    ensures r.Ok? ==> r.value == found.value
    ensures r.Err? ==> r.error == NotFoundError("Professor não encontrado")
  {
    RequireFound(found, "Professor não encontrado")
  }
}

module AtividadeService {
  import opened Common
  import Pagination
  import AtividadeRepository

  /** `list(page, pageSize, turmaId)`: the options passed to the repository. */
  function List(page: int, pageSize: int, turmaId: Option<string>): (o: AtividadeRepository.ListOptions)
    ensures 1 <= o.limit <= Pagination.MaxPageSize && o.offset >= 0
    ensures page >= 1 ==> o.offset == (page - 1) * o.limit
    ensures Pagination.Window(o.limit, o.offset) == Pagination.Clamp(page, pageSize)
    ensures o.turmaId == turmaId
  {
    var w := Pagination.Clamp(page, pageSize);
    AtividadeRepository.ListOptions(w.limit, w.offset, turmaId)
  }

  /** `getById` over the `atividades` table. */
  function GetById(table: seq<AtividadeRepository.Atividade>, id: string): (r: Result<AtividadeRepository.Atividade>)
    ensures r.Ok? <==> exists i :: 0 <= i < |table| && table[i].id == id
    ensures r.Ok? ==> r.value.id == id && r.value in table
    ensures r.Err? ==> r.error == NotFoundError("Atividade não encontrada")
  {
    RequireFound(AtividadeRepository.FindById(table, id), "Atividade não encontrada")
  }
}

module ParticipacaoService {
  import opened Common
  import Pagination
  import ParticipacaoRepository

  datatype Filters = Filters(turmaId: Option<string>, alunoId: Option<string>, atividadeId: Option<string>)

  /** `list(page, pageSize, filters)`: the options passed to the repository,
      with the camel-case filters renamed to the column names and left
      undefined when no filters object is given. */
  function List(page: int, pageSize: int, filters: Option<Filters>): (o: ParticipacaoRepository.ListOptions)
    ensures 1 <= o.limit <= Pagination.MaxPageSize && o.offset >= 0
    ensures page >= 1 ==> o.offset == (page - 1) * o.limit
    ensures Pagination.Window(o.limit, o.offset) == Pagination.Clamp(page, pageSize)
    ensures filters.Some? ==> o.turmaId == filters.value.turmaId && o.alunoId == filters.value.alunoId
                              && o.atividadeId == filters.value.atividadeId
    ensures filters.None? ==> o.turmaId.None? && o.alunoId.None? && o.atividadeId.None?
  {
    var w := Pagination.Clamp(page, pageSize);
    match filters
    case Some(f) => ParticipacaoRepository.ListOptions(w.limit, w.offset, f.turmaId, f.alunoId, f.atividadeId)
    case None => ParticipacaoRepository.ListOptions(w.limit, w.offset, None, None, None)
  }

  /** `getById` over the `participacoes` table. */
  function GetById(table: seq<ParticipacaoRepository.Participacao>, id: string): (r: Result<ParticipacaoRepository.Participacao>)
    ensures r.Ok? <==> exists i :: 0 <= i < |table| && table[i].id == id
    ensures r.Ok? ==> r.value.id == id && r.value in table
    ensures r.Err? ==> r.error == NotFoundError("Participação não encontrada")
  {
    RequireFound(ParticipacaoRepository.FindById(table, id), "Participação não encontrada")
  }
}

module TurmaService {
  import opened Common
  import Pagination
  import AtividadeRepository
  import AlunoService
  import ProfessorService

  datatype Turma = Turma(id: string, nome: string)

  const TurmaNotFound: string := "Turma não encontrada"

  /** `list`: the window passed to the repository. */
  function List(page: int, pageSize: int): (w: Pagination.Window)
    ensures 1 <= w.limit <= Pagination.MaxPageSize && w.offset >= 0
    ensures page >= 1 ==> w.offset == (page - 1) * w.limit
    ensures w == Pagination.Clamp(page, pageSize)
  {
    Pagination.Clamp(page, pageSize)
  }

  /** `getById`, given what the turma lookup returned. */
  function GetById(found: Option<Turma>): (r: Result<Turma>)
    ensures r.Ok? <==> found.Some?
    ensures r.Ok? ==> r.value == found.value
    ensures r.Err? ==> r.error == NotFoundError(TurmaNotFound)
  {
    RequireFound(found, TurmaNotFound)
  }

  /** `getProfessoresByTurmaId`: an unknown turma is NotFound whatever the
      professor table holds; otherwise the professors of that same id. */
  function GetProfessoresByTurmaId(turmaId: string, found: Option<Turma>,
                                   professoresDaTurma: string -> seq<ProfessorService.Professor>)
    : (r: Result<seq<ProfessorService.Professor>>)
    ensures found.None? ==> r == Err(NotFoundError(TurmaNotFound))
    ensures found.Some? ==> r == Ok(professoresDaTurma(turmaId))
  {
    if found.None? then Err(NotFoundError(TurmaNotFound)) else Ok(professoresDaTurma(turmaId))
  }

  /** `getAlunosByTurmaId`: as above, over the students of the turma. */
  function GetAlunosByTurmaId(turmaId: string, found: Option<Turma>,
                              alunosDaTurma: string -> seq<AlunoService.Aluno>)
    : (r: Result<seq<AlunoService.Aluno>>)
    ensures found.None? ==> r == Err(NotFoundError(TurmaNotFound))
    ensures found.Some? ==> r == Ok(alunosDaTurma(turmaId))
  {
    if found.None? then Err(NotFoundError(TurmaNotFound)) else Ok(alunosDaTurma(turmaId))
  }

  /** `getAtividadesByTurmaId`: existence first, then the activity listing
      with the clamped window and the turma filter set to the given id. */
  function GetAtividadesByTurmaId(turmaId: string, page: int, pageSize: int, found: Option<Turma>)
    : (r: Result<AtividadeRepository.ListOptions>)
    ensures r.Err? <==> found.None?
    ensures r.Err? ==> r.error == NotFoundError(TurmaNotFound)
    ensures r.Ok? ==> r.value.turmaId == Some(turmaId)
                      && 1 <= r.value.limit <= Pagination.MaxPageSize && r.value.offset >= 0
                      && Pagination.Window(r.value.limit, r.value.offset) == Pagination.Clamp(page, pageSize)
  {
    if found.None? then Err(NotFoundError(TurmaNotFound))
    else
      var w := Pagination.Clamp(page, pageSize);
      Ok(AtividadeRepository.ListOptions(w.limit, w.offset, Some(turmaId)))
  }
}
