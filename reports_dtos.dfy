/**
 * CreateReportDTO and validateDTO: the declarative constraints on a report
 * request body and the `{ isValid, errors }` summary built from them.
 */
module ReportsDtos {
  import opened Common

  /** A property of the plain request body, as JavaScript sees it. */
  datatype JsValue = Undefined | Null | Str(s: string) | NonString

  datatype CreateReportBody = CreateReportBody(turmaId: JsValue, tipoRelatorio: JsValue)

  datatype Validation = Validation(isValid: bool, errors: seq<string>)

  const AllowedTipos: seq<string> := ["PDF", "Excel"]

  const TurmaIdNotString: string := "turmaId deve ser uma string"
  const TurmaIdEmpty: string := "turmaId é obrigatório"
  const TipoNotString: string := "tipoRelatorio deve ser uma string"
  const TipoEmpty: string := "tipoRelatorio é obrigatório"
  const TipoNotAllowed: string := "tipoRelatorio deve ser \"PDF\" ou \"Excel\""

  /** `@IsString` */
  predicate IsString(v: JsValue) { v.Str? }

  /** `@IsNotEmpty`: not '', not null, not undefined. */
  predicate IsNotEmpty(v: JsValue) { v != JsValue.Str("") && v != JsValue.Null && v != JsValue.Undefined }

  /** `@IsIn(["PDF", "Excel"])`: strict equality with one of the two. */
  predicate IsIn(v: JsValue) { v.Str? && v.s in AllowedTipos }

  /** The messages of the failing constraints of one property, in the order
      the decorators are applied (the one nearest the property first). */
  function TurmaIdMessages(v: JsValue): (ms: seq<string>)
    ensures ms == [] <==> v.Str? && v.s != ""
    ensures forall k :: 0 <= k < |ms| ==> ms[k] != ""
  {
    (if IsNotEmpty(v) then [] else [TurmaIdEmpty])
    + (if IsString(v) then [] else [TurmaIdNotString])
  }

  function TipoMessages(v: JsValue): (ms: seq<string>)
    ensures ms == [] <==> v.Str? && v.s in AllowedTipos
    ensures forall k :: 0 <= k < |ms| ==> ms[k] != ""
  {
    (if IsIn(v) then [] else [TipoNotAllowed])
    + (if IsNotEmpty(v) then [] else [TipoEmpty])
    + (if IsString(v) then [] else [TipoNotString])
  }

  /** `validateDTO(CreateReportDTO, body)`: one entry per failing property,
      turmaId before tipoRelatorio. */
  function ValidateDTO(body: CreateReportBody): (v: Validation)
    ensures v.isValid <==> v.errors == []
    ensures v.isValid <==> (body.turmaId.Str? && body.turmaId.s != ""
                            && body.tipoRelatorio.Str? && body.tipoRelatorio.s in {"PDF", "Excel"})
    ensures |v.errors| == (if TurmaIdMessages(body.turmaId) == [] then 0 else 1)
                          + (if TipoMessages(body.tipoRelatorio) == [] then 0 else 1)
    ensures forall i :: 0 <= i < |v.errors| ==> v.errors[i] != ""
    ensures !v.isValid ==>
      v.errors == (if TurmaIdMessages(body.turmaId) == [] then [] else [Join(TurmaIdMessages(body.turmaId), ", ")])
                  + (if TipoMessages(body.tipoRelatorio) == [] then [] else [Join(TipoMessages(body.tipoRelatorio), ", ")])
  {
    var t := TurmaIdMessages(body.turmaId);
    var k := TipoMessages(body.tipoRelatorio);
    assert t == [] <==> body.turmaId.Str? && body.turmaId.s != "";
    assert k == [] <==> body.tipoRelatorio.Str? && body.tipoRelatorio.s in {"PDF", "Excel"} by {
      assert IsIn(body.tipoRelatorio) <==> body.tipoRelatorio.Str? && body.tipoRelatorio.s in {"PDF", "Excel"};
    }
    assert t != [] ==> Join(t, ", ") != "" by {
      if t != [] { assert t[|t| - 1] != ""; }
    }
    assert k != [] ==> Join(k, ", ") != "" by {
      if k != [] { assert k[|k| - 1] != ""; }
    }
    var errors := (if t == [] then [] else [Join(t, ", ")]) + (if k == [] then [] else [Join(k, ", ")]);
    if errors == [] then Validation(true, []) else Validation(false, errors)
  }

  /** Each entry names every failing constraint of its property: a missing
      turmaId fails both of its constraints, in one entry. */
  lemma MissingTurmaIdEntry(tipo: JsValue)
    ensures ValidateDTO(CreateReportBody(JsValue.Undefined, tipo)).errors[0]
            == TurmaIdEmpty + ", " + TurmaIdNotString
  {
  }

  /** Case matters: "pdf" is not an allowed report type, and it is the only
      failing constraint. */
  lemma LowerCaseTipoRejected(turmaId: string)
    requires turmaId != ""
    ensures ValidateDTO(CreateReportBody(JsValue.Str(turmaId), JsValue.Str("pdf"))) == Validation(false, [TipoNotAllowed])
  {
    assert "pdf" !in AllowedTipos by { assert "pdf"[0] != "PDF"[0] && "pdf"[0] != "Excel"[0]; }
  }
}
