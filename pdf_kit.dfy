/**
 * The PDFKit report generator's helpers: the cell formatters (`fmtBool`,
 * `textOrDash`, `fmtNum`), the colour choices for status, concept and
 * grade, and the rules of its row loop — the empty-result error, the
 * background by row parity, the bold grade cell and the cell alignment.
 * Page geometry (column widths, page breaks) and the drawing calls are
 * not modelled; a drawn row is kept as a record of its cells.
 */
module PdfKit {
  import opened Common
  import PdfHtml

  // THEME_COLORS
  const Success: string := "#10B981"
  const Info: string := "#06B6D4"
  const Warning: string := "#F59E0B"
  const Danger: string := "#EF4444"
  const RowEven: string := "#F8FAFC"
  const RowOdd: string := "#FFFFFF"
  const TextColor: string := "#000000"

  const NoData: string := "Nenhum dado encontrado para PDF."

  /** `fmtBool`: "-" for null/undefined; "Sim" for true, "t", 1 or "1";
      "Não" for every other value. */
  function FmtBool(v: Value): (r: string)
    ensures r == "-" <==> v.Null? || v.Undefined?
    ensures r == "Sim" <==> v == Bool(true) || v == Str("t") || v == Num(1.0) || v == Str("1")
    ensures r == "Não" <==> (!(v.Null? || v.Undefined?)
                             && !(v == Bool(true) || v == Str("t") || v == Num(1.0) || v == Str("1")))
  {
    if v.Null? || v.Undefined? then "-"
    else if v == Bool(true) || v == Str("t") || v == Num(1.0) || v == Str("1") then "Sim"
    else "Não"
  }

  /** Over the values a `presenca` column can hold (a boolean, "t"/"f",
      1/0, "1"/"0" or null), "Sim" means present and "Não" absent. */
  lemma FmtBoolOnPresenca(v: Value, present: bool)
    requires v == Bool(present) || v == Str(if present then "t" else "f")
             || v == Num(if present then 1.0 else 0.0) || v == Str(if present then "1" else "0")
    ensures FmtBool(v) == if present then "Sim" else "Não"
  {
    assert "f" != "t" && "0" != "1" && "f" != "1" && "0" != "t" by {
      assert "f"[0] != "t"[0] && "0"[0] != "1"[0] && "f"[0] != "1"[0] && "0"[0] != "t"[0];
    }
  }

  /** The two generators disagree on an absent student stored as "f" or
      "0": "Não" here, a tick in the HTML report. */
  lemma PresenceMarksDiffer()
    ensures FmtBool(Str("f")) == "Não" && PdfHtml.PresenceMark(Str("f")) == "✓"
    ensures FmtBool(Str("0")) == "Não" && PdfHtml.PresenceMark(Str("0")) == "✓"
  {
  }

  /** `textOrDash` on a string or null: the trimmed text, or "-" when
      nothing is left (non-string values, rendered by `String`, are not
      modelled). */
  function TextOrDash(v: Option<string>): (r: string)
    ensures r != ""
    ensures v.None? ==> r == "-"
    ensures v.Some? && !AllWhitespace(v.value) ==> r == Trim(v.value)
    ensures v.Some? && AllWhitespace(v.value) ==> r == "-"
  {
    if v.None? then "-"
    else
      var s := Trim(v.value);
      if |s| > 0 then s else "-"
  }

  /** Formatting a formatted cell again changes nothing. */
  lemma TextOrDashIdempotent(v: Option<string>)
    ensures TextOrDash(Some(TextOrDash(v))) == TextOrDash(v)
  {
    var r := TextOrDash(v);
    TrimFixedPoint(r);
  }

  /** `String.prototype.replace(",", ".")`: only the first comma. */
  function ReplaceFirstComma(s: string): (r: string)
    ensures |r| == |s|
  {
    if s == [] then []
    else if s[0] == ',' then "." + s[1..]
    else [s[0]] + ReplaceFirstComma(s[1..])
  }

  /** Only the first comma changes: every other position keeps its character. */
  lemma {:induction false} ReplaceFirstCommaChangesOne(s: string, i: nat)
    requires i < |s|
    ensures ReplaceFirstComma(s)[i] != s[i] <==> s[i] == ',' && ',' !in s[..i]
  {
    if s[0] != ',' && i > 0 {
      ReplaceFirstCommaChangesOne(s[1..], i - 1);
      assert s[..i] == [s[0]] + s[1..][..i - 1];
    }
  }

  /** The text of a numeric cell: "-", `n.toFixed(places)` (kept as the
      number and the digit count), or the raw text when it is no number. */
  datatype CellText = Dash | Fixed(value: real, places: nat) | Raw(text: string)

  /** `fmtNum` on a number, string or null. `parse` stands for JavaScript's
      `Number`, answering None where it gives NaN or an infinity; a boolean
      reads as "true"/"false", which is no number. */
  function FmtNum(v: Value, places: nat, parse: string -> Option<real>): (r: CellText)
    ensures r.Dash? <==> v.Null? || v.Undefined? || v == Str("")
    ensures v.Num? ==> r == Fixed(v.x, places)
    ensures v.Str? && v.s != "" ==>
              r == (match parse(ReplaceFirstComma(v.s))
                    case Some(n) => Fixed(n, places)
                    case None => Raw(v.s))
  {
    match v
    case Null => Dash
    case Undefined => Dash
    case Num(x) => Fixed(x, places)
    case Bool(b) => Raw(if b then "true" else "false")
    case Str(s) =>
      if s == "" then Dash
      else
        match parse(ReplaceFirstComma(s))
        case Some(n) => Fixed(n, places)
        case None => Raw(s)
  }

  /** Whether the drawn text is "-". A `toFixed` rendering never is. */
  predicate IsDash(c: CellText) { c.Dash? || (c.Raw? && c.text == "-") }

  /** `getStatusColor`: aprovado/concluído, then reprovado/falta, then
      pendente/andamento, on the lower-cased status. */
  function StatusColor(status: Option<string>): (r: string)
    ensures var s := ToLower(if status.Some? then status.value else "");
      var passed := Contains(s, "aprovado") || Contains(s, "concluído");
      var failed := Contains(s, "reprovado") || Contains(s, "falta");
      var pending := Contains(s, "pendente") || Contains(s, "andamento");
      && (r == Success <==> passed)
      && (r == Danger <==> !passed && failed)
      && (r == Warning <==> !passed && !failed && pending)
      && (r == TextColor <==> !passed && !failed && !pending)
  {
    var s := ToLower(if status.Some? then status.value else "");
    if Contains(s, "aprovado") || Contains(s, "concluído") then Success
    else if Contains(s, "reprovado") || Contains(s, "falta") then Danger
    else if Contains(s, "pendente") || Contains(s, "andamento") then Warning
    else TextColor
  }

  /** The two generators order their tests differently: a status with both
      "pendente" and "falta" is pending in the HTML report but failed here. */
  lemma StatusOrderDiffers(status: string)
    requires status != ""
    requires var s := ToLower(status);
      && !Contains(s, "aprovado") && !Contains(s, "concluído")
      && Contains(s, "pendente") && Contains(s, "falta")
    ensures PdfHtml.StatusClass(Some(status)) == "status-pendente"
    ensures StatusColor(Some(status)) == Danger
  {
  }

  /** Wherever the HTML report's tests come in the same order — the status
      is passed, or neither pending word occurs — the two agree. */
  lemma StatusColorMatchesClass(status: string)
    requires status != ""
    requires var s := ToLower(status);
      !(Contains(s, "pendente") || Contains(s, "em andamento") || Contains(s, "andamento"))
      || Contains(s, "aprovado") || Contains(s, "concluído")
    ensures StatusColor(Some(status)) == ColorOfStatusClass(PdfHtml.StatusClass(Some(status)))
  {
  }

  function ColorOfStatusClass(cls: string): string {
    if cls == "status-aprovado" then Success
    else if cls == "status-reprovado" then Danger
    else if cls == "status-pendente" then Warning
    else TextColor
  }

  /** `getConceptColor`: the categories of the HTML report's concept classes. */
  function ConceptColor(conceito: Option<string>): (r: string)
    ensures var c := ToUpper(if conceito.Some? then conceito.value else "");
      && (r == Success <==> c in PdfHtml.Excelente)
      && (r == Info <==> c in PdfHtml.Bom)
      && (r == Warning <==> c in PdfHtml.Regular)
      && (r == Danger <==> c in PdfHtml.Insuficiente)
      && (r == TextColor <==> c !in PdfHtml.Excelente && c !in PdfHtml.Bom
                              && c !in PdfHtml.Regular && c !in PdfHtml.Insuficiente)
  {
    var c := ToUpper(if conceito.Some? then conceito.value else "");
    PdfHtml.ConceptListsDisjoint(c);
    if c in PdfHtml.Excelente then Success
    else if c in PdfHtml.Bom then Info
    else if c in PdfHtml.Regular then Warning
    else if c in PdfHtml.Insuficiente then Danger
    else TextColor
  }

  function ColorOfConceptClass(cls: string): string {
    if cls == "conceito-excelente" then Success
    else if cls == "conceito-bom" then Info
    else if cls == "conceito-regular" then Warning
    else if cls == "conceito-insuficiente" then Danger
    else TextColor
  }

  /** Both reports put every concept in the same category. */
  lemma ConceptColorMatchesClass(conceito: Option<string>)
    ensures ConceptColor(conceito) == ColorOfConceptClass(PdfHtml.ConceptClass(conceito))
  {
    if conceito.Some? && conceito.value == "" {
      assert ToUpper("") == "";
      assert "" !in PdfHtml.Excelente + PdfHtml.Bom + PdfHtml.Regular + PdfHtml.Insuficiente;
    }
    if conceito.None? {
      assert ToUpper("") == "";
      assert "" !in PdfHtml.Excelente + PdfHtml.Bom + PdfHtml.Regular + PdfHtml.Insuficiente;
    }
  }

  /** `getNoteColor` over `Number(nota)`: the thresholds 9, 7, 5 and 0;
      NaN (a "-" cell) takes the default colour. */
  function NoteColor(n: PdfHtml.Numeric): (r: string)
    ensures n.NotANumber? ==> r == TextColor
  {
    match n
    case NotANumber => TextColor
    case Finite(x) =>
      if x >= 9.0 then Success
      else if x >= 7.0 then Info
      else if x >= 5.0 then Warning
      else if x > 0.0 then Danger
      else TextColor
  }

  function ColorOfNotaClass(cls: string): string {
    if cls == "nota-excelente" then Success
    else if cls == "nota-boa" then Info
    else if cls == "nota-regular" then Warning
    else if cls == "nota-baixa" then Danger
    else TextColor
  }

  /** The grade thresholds are those of the HTML report. */
  lemma NoteColorMatchesClass(g: PdfHtml.Grade)
    ensures NoteColor(PdfHtml.NumberOf(g)) == ColorOfNotaClass(PdfHtml.NotaClass(g))
  {
  }

  // ---------------------------------------------------------------------
  // The row loop of generateReportPDF
  // ---------------------------------------------------------------------

  /** One row of the report query. */
  datatype KitRow = KitRow(
    aluno: Option<string>, email: Option<string>, atividade: Option<string>, tipo: Option<string>,
    presenca: Value, horas: Value, nota: Value, conceito: Option<string>, statusAvaliacao: Option<string>)

  datatype Font = Helvetica | HelveticaBold
  datatype Align = Left | Center

  /** A cell's text: a plain string, or a number cell. */
  datatype CellValue = Plain(text: string) | Number(cell: CellText)

  /** What is drawn for one cell. The grade cell's colour depends on
      `Number` of a `toFixed` rendering and is left open (None). */
  datatype Cell = Cell(value: CellValue, color: Option<string>, font: Font, align: Align)

  datatype DrawnRow = DrawnRow(background: string, cells: seq<Cell>)

  /** `idx % 2 === 0 ? rowOdd : rowEven` */
  function Background(idx: nat): string {
    if idx % 2 == 0 then RowOdd else RowEven
  }

  /** The nine values of a row, in the header order. */
  function Values(r: KitRow, parse: string -> Option<real>): (vs: seq<CellValue>)
    ensures |vs| == 9
  {
    [ Plain(TextOrDash(r.aluno)), Plain(TextOrDash(r.email)), Plain(TextOrDash(r.atividade)),
      Plain(TextOrDash(r.tipo)), Plain(FmtBool(r.presenca)),
      Number(FmtNum(r.horas, 2, parse)), Number(FmtNum(r.nota, 2, parse)),
      Plain(TextOrDash(r.conceito)), Plain(TextOrDash(r.statusAvaliacao)) ]
  }

  /** `["aluno", "atividade", "email"].includes(String(i))` */
  function AlignOf(i: nat): Align {
    if NatToString(i) in ["aluno", "atividade", "email"] then Left else Center
  }

  /** `String(i)` is made of digits, so it never names a column: every
      cell is centred. */
  lemma EveryCellCentred(i: nat)
    ensures AlignOf(i) == Center
  {
    var d := NatToString(i);
    assert '0' <= d[0] <= '9';
    assert d != "aluno" && d != "atividade" && d != "email" by {
      assert "aluno"[0] == 'a' && "atividade"[0] == 'a' && "email"[0] == 'e';
    }
  }

  /** The per-cell rules: status and concept coloured and bold, the grade
      bold unless it reads "-", everything else plain text colour. */
  function CellFor(i: nat, v: CellValue): (c: Cell)
    ensures c.value == v && c.align == Center
    ensures i == 6 ==> c.color.None? && (c.font == Helvetica <==> v.Number? && IsDash(v.cell))
    ensures i == 7 || i == 8 ==> c.font == HelveticaBold
    ensures i == 8 ==> c.color == Some(StatusColor(Some(if v.Plain? then v.text else "")))
    ensures i == 7 ==> c.color == Some(ConceptColor(Some(if v.Plain? then v.text else "")))
    ensures i < 6 || i > 8 ==> c.color == Some(TextColor) && c.font == Helvetica
  {
    EveryCellCentred(i);
    var text := if v.Plain? then v.text else "";
    if i == 8 then Cell(v, Some(StatusColor(Some(text))), HelveticaBold, AlignOf(i))
    else if i == 7 then Cell(v, Some(ConceptColor(Some(text))), HelveticaBold, AlignOf(i))
    else if i == 6 then
      Cell(v, None, if v.Number? && IsDash(v.cell) then Helvetica else HelveticaBold, AlignOf(i))
    else Cell(v, Some(TextColor), Helvetica, AlignOf(i))
  }

  /** The inner `values.forEach`. */
  method DrawCells(values: seq<CellValue>) returns (cells: seq<Cell>)
    ensures |cells| == |values|
    ensures forall i :: 0 <= i < |values| ==> cells[i] == CellFor(i, values[i])
  {
    cells := [];
    var i := 0;
    while i < |values|
      invariant 0 <= i <= |values|
      invariant |cells| == i
      invariant forall j :: 0 <= j < i ==> cells[j] == CellFor(j, values[j])
    {
      cells := cells + [CellFor(i, values[i])];
      i := i + 1;
    }
  }

  function DrawRow(r: KitRow, idx: nat, parse: string -> Option<real>): DrawnRow {
    DrawnRow(Background(idx), seq(9, i requires 0 <= i < 9 => CellFor(i, Values(r, parse)[i])))
  }

  /** `generateReportPDF` from the query result on: an empty result is an
      error before anything is drawn or uploaded; otherwise one drawn row
      per result row, in order. */
  method GenerateReportPdf(rows: seq<KitRow>, parse: string -> Option<real>) returns (r: Result<seq<DrawnRow>>)
    ensures rows == [] <==> r.Err?
    ensures r.Err? ==> r.error == Failure(NoData)
    ensures r.Ok? ==> |r.value| == |rows|
                      && forall idx :: 0 <= idx < |rows| ==> r.value[idx] == DrawRow(rows[idx], idx, parse)
  {
    if |rows| == 0 {
      return Err(Failure(NoData));
    }
    ghost var all := seq(|rows|, j requires 0 <= j < |rows| => DrawRow(rows[j], j, parse));
    var drawn: seq<DrawnRow> := [];
    var idx := 0;
    while idx < |rows|
      invariant 0 <= idx <= |rows|
      invariant drawn == all[..idx]
    {
      var bg := Background(idx);
      var cells := DrawCells(Values(rows[idx], parse));
      DrawnCellsAreRow(rows[idx], idx, parse, cells);
      AppendNext([], all, idx, drawn, DrawnRow(bg, cells));
      drawn := drawn + [DrawnRow(bg, cells)];
      idx := idx + 1;
    }
    assert all[..idx] == all;
    r := Ok(drawn);
  }

  /** The cells the inner loop draws make up the row `DrawRow` describes. */
  lemma DrawnCellsAreRow(r: KitRow, idx: nat, parse: string -> Option<real>, cells: seq<Cell>)
    requires |cells| == 9
    requires forall i :: 0 <= i < 9 ==> cells[i] == CellFor(i, Values(r, parse)[i])
    ensures DrawnRow(Background(idx), cells) == DrawRow(r, idx, parse)
  {
    assert cells == seq(9, i requires 0 <= i < 9 => CellFor(i, Values(r, parse)[i]));
  }

  /** Consecutive rows alternate backgrounds, the first one white. */
  lemma BackgroundAlternates(idx: nat)
    ensures Background(idx) != Background(idx + 1)
    ensures Background(0) == RowOdd
  {
  }

  /** The grade cell is bold exactly when its text is not "-"; a missing
      grade is drawn as "-" in the regular font. */
  lemma GradeCellBoldUnlessDash(r: KitRow, idx: nat, parse: string -> Option<real>)
    ensures var c := DrawRow(r, idx, parse).cells[6];
      && c.value == Number(FmtNum(r.nota, 2, parse))
      && (c.font == HelveticaBold <==> !IsDash(FmtNum(r.nota, 2, parse)))
      && (r.nota.Null? ==> c.font == Helvetica)
  {
  }
}
