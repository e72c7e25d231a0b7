/**
 * The HTML report generator's helpers: the five-pass HTML escape, the CSS
 * class choices for concept, status and grade, and the table body of
 * `generatePDFHTML` — rows grouped per student in first-appearance order,
 * the stripe alternating per group, the student cell spanning its group.
 * The page text around the table (styles, header, date) is not modelled;
 * the table body is kept as one record per `<tr>`.
 */
module PdfHtml {
  import opened Common

  // ---------------------------------------------------------------------
  // escapeHtml
  // ---------------------------------------------------------------------

  /** `s.replace(/c/g, rep)` for a one-character pattern. */
  function ReplaceAll(s: string, c: char, rep: string): (r: string)
    ensures c !in s ==> r == s
  {
    if s == [] then []
    else (if s[0] == c then rep else [s[0]]) + ReplaceAll(s[1..], c, rep)
  }

  lemma {:induction false} ReplaceAllConcat(a: string, b: string, c: char, rep: string)
    ensures ReplaceAll(a + b, c, rep) == ReplaceAll(a, c, rep) + ReplaceAll(b, c, rep)
  {
    if a == [] {
      assert a + b == b;
    } else {
      assert (a + b)[0] == a[0];
      assert (a + b)[1..] == a[1..] + b;
      ReplaceAllConcat(a[1..], b, c, rep);
    }
  }

  /** The chain of five global replacements, `&` first. */
  function EscapeChain(s: string): string {
    ReplaceAll(ReplaceAll(ReplaceAll(ReplaceAll(ReplaceAll(
      s, '&', "&amp;"), '<', "&lt;"), '>', "&gt;"), '"', "&quot;"), '\'', "&#039;")
  }

  /** `escapeHtml`: "" for null or undefined, otherwise the replacement chain
      (the argument is taken to be `String(text)` already). */
  function EscapeHtml(text: Option<string>): (r: string)
    ensures text.None? ==> r == ""
    ensures text.Some? ==> r == EscapeEach(text.value)
  {
    match text
    case None => ""
    case Some(s) => EscapeChainIsPerChar(s); EscapeChain(s)
  }

  /** The entity a single character becomes, or the character itself. */
  function EscapeChar(c: char): (r: string)
    ensures r != []
  {
    if c == '&' then "&amp;"
    else if c == '<' then "&lt;"
    else if c == '>' then "&gt;"
    else if c == '"' then "&quot;"
    else if c == '\'' then "&#039;"
    else [c]
  }

  /** Character-by-character escaping: the reference the chain is checked against. */
  function EscapeEach(s: string): string {
    if s == [] then [] else EscapeChar(s[0]) + EscapeEach(s[1..])
  }

  lemma ReplaceSingle(c: char, x: char, rep: string)
    ensures ReplaceAll([c], x, rep) == if c == x then rep else [c]
  {
    assert [c][1..] == [];
  }

  /** An entity produced by one pass holds none of the characters the
      later passes look for, so they leave it alone. */
  lemma ChainOfOne(c: char)
    ensures EscapeChain([c]) == EscapeChar(c)
  {
    ReplaceSingle(c, '&', "&amp;");
    if c == '&' {
      assert '<' !in "&amp;" && '>' !in "&amp;" && '"' !in "&amp;" && '\'' !in "&amp;";
    } else {
      ReplaceSingle(c, '<', "&lt;");
      if c == '<' {
        assert '>' !in "&lt;" && '"' !in "&lt;" && '\'' !in "&lt;";
      } else {
        ReplaceSingle(c, '>', "&gt;");
        if c == '>' {
          assert '"' !in "&gt;" && '\'' !in "&gt;";
        } else {
          ReplaceSingle(c, '"', "&quot;");
          if c == '"' {
            assert '\'' !in "&quot;";
          } else {
            ReplaceSingle(c, '\'', "&#039;");
          }
        }
      }
    }
  }

  lemma {:induction false} ChainConcat(a: string, b: string)
    ensures EscapeChain(a + b) == EscapeChain(a) + EscapeChain(b)
  {
    var a1, b1 := ReplaceAll(a, '&', "&amp;"), ReplaceAll(b, '&', "&amp;");
    ReplaceAllConcat(a, b, '&', "&amp;");
    var a2, b2 := ReplaceAll(a1, '<', "&lt;"), ReplaceAll(b1, '<', "&lt;");
    ReplaceAllConcat(a1, b1, '<', "&lt;");
    var a3, b3 := ReplaceAll(a2, '>', "&gt;"), ReplaceAll(b2, '>', "&gt;");
    ReplaceAllConcat(a2, b2, '>', "&gt;");
    var a4, b4 := ReplaceAll(a3, '"', "&quot;"), ReplaceAll(b3, '"', "&quot;");
    ReplaceAllConcat(a3, b3, '"', "&quot;");
    ReplaceAllConcat(a4, b4, '\'', "&#039;");
  }

  /** Because `&` is replaced first, no later pass touches the entities
      the earlier passes produced: the chain escapes each character once. */
  lemma {:induction false} EscapeChainIsPerChar(s: string)
    ensures EscapeChain(s) == EscapeEach(s)
  {
    if s == [] {
    } else {
      assert s == [s[0]] + s[1..];
      ChainConcat([s[0]], s[1..]);
      ChainOfOne(s[0]);
      EscapeChainIsPerChar(s[1..]);
    }
  }

  predicate Special(c: char) { c == '&' || c == '<' || c == '>' || c == '"' || c == '\'' }

  /** No raw `<`, `>`, `"` or `'` anywhere. */
  predicate NoRawMarkup(s: string) {
    forall k :: 0 <= k < |s| ==> s[k] != '<' && s[k] != '>' && s[k] != '"' && s[k] != '\''
  }

  lemma {:induction false} EscapeEachNoRawMarkup(s: string)
    ensures NoRawMarkup(EscapeEach(s))
  {
    if s != [] {
      EscapeEachNoRawMarkup(s[1..]);
      var e, rest := EscapeChar(s[0]), EscapeEach(s[1..]);
      forall k | 0 <= k < |e + rest|
        ensures (e + rest)[k] != '<' && (e + rest)[k] != '>' && (e + rest)[k] != '"' && (e + rest)[k] != '\''
      {
        if k >= |e| { assert (e + rest)[k] == rest[k - |e|]; }
      }
    }
  }

  /** The output of escapeHtml never holds a raw `<`, `>`, `"` or `'`. */
  lemma EscapeHtmlNoRawMarkup(text: Option<string>)
    ensures NoRawMarkup(EscapeHtml(text))
  {
    if text.Some? {
      EscapeChainIsPerChar(text.value);
      EscapeEachNoRawMarkup(text.value);
    }
  }

  /** Text without any of the five characters comes out unchanged. */
  lemma {:induction false} EscapeEachPlain(s: string)
    requires forall k :: 0 <= k < |s| ==> !Special(s[k])
    ensures EscapeEach(s) == s
  {
    if s != [] {
      EscapeEachPlain(s[1..]);
    }
  }

  lemma EscapeHtmlPlain(text: Option<string>)
    requires text.Some? ==> forall k :: 0 <= k < |text.value| ==> !Special(text.value[k])
    ensures EscapeHtml(text) == if text.Some? then text.value else ""
  {
    if text.Some? {
      EscapeChainIsPerChar(text.value);
      EscapeEachPlain(text.value);
    }
  }

  /** The five entities. */
  predicate StartsEntity(s: string) {
    "&amp;" <= s || "&lt;" <= s || "&gt;" <= s || "&quot;" <= s || "&#039;" <= s
  }

  /** Every `&` begins one of the five entities. */
  predicate AmpersandsAreEntities(s: string) {
    forall k :: 0 <= k < |s| && s[k] == '&' ==> StartsEntity(s[k..])
  }

  lemma {:induction false} EscapeEachAmpersands(s: string)
    ensures AmpersandsAreEntities(EscapeEach(s))
  {
    if s != [] {
      EscapeEachAmpersands(s[1..]);
      var e, rest := EscapeChar(s[0]), EscapeEach(s[1..]);
      var out := e + rest;
      forall k | 0 <= k < |out| && out[k] == '&' ensures StartsEntity(out[k..]) {
        if k >= |e| {
          assert out[k] == rest[k - |e|];
          assert out[k..] == rest[k - |e|..];
        } else {
          assert e[k] == '&';
          assert k == 0;
          assert e <= out;
        }
      }
    }
  }

  lemma EscapeHtmlAmpersands(text: Option<string>)
    ensures AmpersandsAreEntities(EscapeHtml(text))
  {
    if text.Some? {
      EscapeChainIsPerChar(text.value);
      EscapeEachAmpersands(text.value);
    }
  }

  /** Decoding of the five entities, left to right. */
  function Decode(s: string): string
    decreases |s|
  {
    if s == [] then []
    else if "&amp;" <= s then "&" + Decode(s[5..])
    else if "&lt;" <= s then "<" + Decode(s[4..])
    else if "&gt;" <= s then ">" + Decode(s[4..])
    else if "&quot;" <= s then "\"" + Decode(s[6..])
    else if "&#039;" <= s then "'" + Decode(s[6..])
    else [s[0]] + Decode(s[1..])
  }

  lemma DecodeStep(c: char, rest: string)
    ensures Decode(EscapeChar(c) + rest) == [c] + Decode(rest)
  {
    var s := EscapeChar(c) + rest;
    assert s[..|EscapeChar(c)|] == EscapeChar(c);
    if c == '&' {
      assert "&amp;" <= s;
      assert s[5..] == rest;
    } else if c == '<' {
      assert !("&amp;" <= s) by { assert s[1] == 'l'; }
      assert "&lt;" <= s;
      assert s[4..] == rest;
    } else if c == '>' {
      assert !("&amp;" <= s) && !("&lt;" <= s) by { assert s[1] == 'g'; }
      assert "&gt;" <= s;
      assert s[4..] == rest;
    } else if c == '"' {
      assert !("&amp;" <= s) && !("&lt;" <= s) && !("&gt;" <= s) by { assert s[1] == 'q'; }
      assert "&quot;" <= s;
      assert s[6..] == rest;
    } else if c == '\'' {
      assert !("&amp;" <= s) && !("&lt;" <= s) && !("&gt;" <= s) && !("&quot;" <= s) by { assert s[1] == '#'; }
      assert "&#039;" <= s;
      assert s[6..] == rest;
    } else {
      assert s[0] == c;
      assert s[1..] == rest;
    }
  }

  lemma {:induction false} DecodeEscapeEach(s: string)
    ensures Decode(EscapeEach(s)) == s
  {
    if s != [] {
      DecodeStep(s[0], EscapeEach(s[1..]));
      DecodeEscapeEach(s[1..]);
    }
  }

  /** Decoding the five entities recovers the text that was escaped. */
  lemma EscapeHtmlRoundTrip(s: string)
    ensures Decode(EscapeHtml(Some(s))) == s
  {
    EscapeChainIsPerChar(s);
    DecodeEscapeEach(s);
  }

  // ---------------------------------------------------------------------
  // CSS classes
  // ---------------------------------------------------------------------

  const Excelente: seq<string> := ["A", "EXCELENTE", "ÓTIMO"]
  const Bom: seq<string> := ["B", "BOM"]
  const Regular: seq<string> := ["C", "REGULAR"]
  const Insuficiente: seq<string> := ["D", "F", "INSUFICIENTE", "REPROVADO"]

  /** No concept is in two of the lists. */
  lemma ConceptListsDisjoint(c: string)
    ensures c in Excelente ==> c !in Bom && c !in Regular && c !in Insuficiente
    ensures c in Bom ==> c !in Regular && c !in Insuficiente
    ensures c in Regular ==> c !in Insuficiente
  {
    if c in Excelente {
      assert c == "A" || c == "EXCELENTE" || c == "ÓTIMO";
    } else if c in Bom {
      assert c == "B" || c == "BOM";
    } else if c in Regular {
      assert c == "C" || c == "REGULAR";
    }
  }

  /** `getConceptClass`: the category of the upper-cased concept. */
  function ConceptClass(conceito: Option<string>): (r: string)
    ensures (conceito.None? || conceito.value == "") ==> r == ""
    ensures conceito.Some? ==> var c := ToUpper(conceito.value);
      && (r == "conceito-excelente" <==> c in Excelente)
      && (r == "conceito-bom" <==> c in Bom)
      && (r == "conceito-regular" <==> c in Regular)
      && (r == "conceito-insuficiente" <==> c in Insuficiente)
      && (r == "" <==> c !in Excelente + Bom + Regular + Insuficiente)
  {
    if conceito.None? || conceito.value == "" then ""
    else
      var c := ToUpper(conceito.value);
      if c in Excelente then "conceito-excelente"
      else if c in Bom then "conceito-bom"
      else if c in Regular then "conceito-regular"
      else if c in Insuficiente then "conceito-insuficiente"
      else ""
  }

  lemma UpperCharIdempotent(c: char)
    ensures UpperChar(UpperChar(c)) == UpperChar(c)
  {
  }

  lemma ToUpperIdempotent(s: string)
    ensures ToUpper(ToUpper(s)) == ToUpper(s)
  {
    forall k | 0 <= k < |s| ensures ToUpper(ToUpper(s))[k] == ToUpper(s)[k] {
      UpperCharIdempotent(s[k]);
    }
  }

  /** The class does not depend on the concept's letter case. */
  lemma ConceptClassIgnoresCase(s: string)
    ensures ConceptClass(Some(s)) == ConceptClass(Some(ToUpper(s)))
  {
    ToUpperIdempotent(s);
  }

  /** "ótimo" written in lower case is still excellent. */
  lemma LowerCaseOtimoIsExcelente()
    ensures ConceptClass(Some("ótimo")) == "conceito-excelente"
  {
    var u := ToUpper("ótimo");
    assert u[0] == UpperChar('ó') == 'Ó';
    assert u == "ÓTIMO";
  }

  /** `getStatusClass`: substring tests on the lower-cased status, in the
      order aprovado/concluído, pendente/em andamento, reprovado/falta. */
  function StatusClass(status: Option<string>): (r: string)
    ensures (status.None? || status.value == "") ==> r == ""
    ensures status.Some? && status.value != "" ==> var s := ToLower(status.value);
      var passed := Contains(s, "aprovado") || Contains(s, "concluído");
      var pending := Contains(s, "pendente") || Contains(s, "em andamento");
      var failed := Contains(s, "reprovado") || Contains(s, "falta");
      && (r == "status-aprovado" <==> passed)
      && (r == "status-pendente" <==> !passed && pending)
      && (r == "status-reprovado" <==> !passed && !pending && failed)
      && (r == "" <==> !passed && !pending && !failed)
  {
    if status.None? || status.value == "" then ""
    else
      var s := ToLower(status.value);
      if Contains(s, "aprovado") || Contains(s, "concluído") then "status-aprovado"
      else if Contains(s, "pendente") || Contains(s, "em andamento") then "status-pendente"
      else if Contains(s, "reprovado") || Contains(s, "falta") then "status-reprovado"
      else ""
  }

  /** Lower-casing leaves a string of lower-case letters alone. */
  lemma ToLowerFixed(s: string)
    requires forall k :: 0 <= k < |s| ==> LowerChar(s[k]) == s[k]
    ensures ToLower(s) == s
  {
  }

  /** A word whose first two letters never stand side by side in the text
      does not occur in it. */
  lemma {:induction false} NoBigram(s: string, w: string)
    requires |w| >= 2
    requires forall i :: 0 <= i < |s| - 1 ==> s[i] != w[0] || s[i + 1] != w[1]
    ensures !Contains(s, w)
  {
    assert !(w <= s) by {
      if |s| >= 2 {
        assert s[0] != w[0] || s[1] != w[1];
      }
    }
    if s != [] {
      forall i | 0 <= i < |s[1..]| - 1 ensures s[1..][i] != w[0] || s[1..][i + 1] != w[1] {
        assert s[1..][i] == s[i + 1] && s[1..][i + 1] == s[i + 2];
      }
      NoBigram(s[1..], w);
    }
  }

  /** The substring tests see words inside words: "não aprovado" is
      classed as passed, because it contains "aprovado". */
  lemma NaoAprovadoIsClassedAprovado()
    ensures StatusClass(Some("não aprovado")) == "status-aprovado"
  {
    var s := "não aprovado";
    NaoAprovadoLower();
    NaoAprovadoContains();
  }

  lemma NaoAprovadoLower()
    ensures ToLower("não aprovado") == "não aprovado"
  {
    ToLowerFixed("não aprovado");
  }

  lemma NaoAprovadoContains()
    ensures Contains("não aprovado", "aprovado")
  {
    var s := "não aprovado";
    assert OccursAt(s, "aprovado", 4);
    ContainsIff(s, "aprovado");
  }

  /** "reprovado" does not contain "aprovado" (nor any of the passed or
      pending words), so a failed status is classed as failed. */
  lemma ReprovadoIsClassedReprovado()
    ensures StatusClass(Some("reprovado")) == "status-reprovado"
  {
    ToLowerFixed("reprovado");
    ReprovadoHasReprovado();
    ReprovadoLacksAprovado();
    ReprovadoLacksConcluido();
    ReprovadoLacksPendente();
    ReprovadoLacksEmAndamento();
  }

  lemma ReprovadoHasReprovado() ensures Contains("reprovado", "reprovado") {
    assert "reprovado" <= "reprovado";
  }
  lemma ReprovadoLacksAprovado() ensures !Contains("reprovado", "aprovado") {
    ReprovadoLacks("aprovado");
  }
  lemma ReprovadoLacksConcluido() ensures !Contains("reprovado", "concluído") {
    ReprovadoLacks("concluído");
  }
  lemma ReprovadoLacksPendente() ensures !Contains("reprovado", "pendente") {
    ReprovadoLacks("pendente");
  }
  lemma ReprovadoLacksEmAndamento() ensures !Contains("reprovado", "em andamento") {
    ReprovadoLacks("em andamento");
  }

  /** The letter pairs of "reprovado": re, ep, pr, ro, ov, va, ad, do. */
  predicate ReprovadoPair(x: char, y: char) {
    || (x == 'r' && y == 'e') || (x == 'e' && y == 'p') || (x == 'p' && y == 'r')
    || (x == 'r' && y == 'o') || (x == 'o' && y == 'v') || (x == 'v' && y == 'a')
    || (x == 'a' && y == 'd') || (x == 'd' && y == 'o')
  }

  lemma ReprovadoLacks(w: string)
    requires |w| >= 2 && !ReprovadoPair(w[0], w[1])
    ensures !Contains("reprovado", w)
  {
    var s := "reprovado";
    assert s[0] == 'r' && s[1] == 'e' && s[2] == 'p' && s[3] == 'r' && s[4] == 'o';
    assert s[5] == 'v' && s[6] == 'a' && s[7] == 'd' && s[8] == 'o';
    forall i | 0 <= i < |s| - 1 ensures s[i] != w[0] || s[i + 1] != w[1] {
      assert ReprovadoPair(s[i], s[i + 1]) by {
        if i < 4 {
          assert i == 0 || i == 1 || i == 2 || i == 3;
        } else {
          assert i == 4 || i == 5 || i == 6 || i == 7;
        }
      }
    }
    NoBigram(s, w);
  }

  /** A JavaScript number: NaN, or a finite or infinite value kept as a real
      (infinities are not modelled). */
  datatype Numeric = NotANumber | Finite(value: real)

  /** A grade as the database returns it, and what `Number` makes of it
      when it is a string (the parse itself is not modelled). */
  datatype Grade = Grade(raw: Value, parsed: Numeric)

  /** `Number(nota)`: null is 0, undefined NaN, a boolean 0 or 1, a string
      its parse. */
  function NumberOf(g: Grade): Numeric {
    match g.raw
    case Null => Finite(0.0)
    case Undefined => NotANumber
    case Bool(b) => Finite(if b then 1.0 else 0.0)
    case Num(x) => Finite(x)
    case Str(_) => g.parsed
  }

  /** `getNotaClass`: `Number(nota ?? 0)` against the thresholds 9, 7, 5 and 0. */
  function NotaClass(nota: Grade): (r: string)
    ensures var n := if nota.raw.Null? || nota.raw.Undefined? then Finite(0.0) else NumberOf(nota);
      && (r == "nota-excelente" <==> n.Finite? && n.value >= 9.0)
      && (r == "nota-boa" <==> n.Finite? && 7.0 <= n.value < 9.0)
      && (r == "nota-regular" <==> n.Finite? && 5.0 <= n.value < 7.0)
      && (r == "nota-baixa" <==> n.Finite? && 0.0 < n.value < 5.0)
      && (r == "" <==> n.NotANumber? || n.value <= 0.0)
  {
    var n := if nota.raw.Null? || nota.raw.Undefined? then Finite(0.0) else NumberOf(nota);
    match n
    case NotANumber => ""
    case Finite(x) =>
      if x >= 9.0 then "nota-excelente"
      else if x >= 7.0 then "nota-boa"
      else if x >= 5.0 then "nota-regular"
      else if x > 0.0 then "nota-baixa"
      else ""
  }

  function NotaRank(cls: string): int {
    if cls == "nota-excelente" then 4
    else if cls == "nota-boa" then 3
    else if cls == "nota-regular" then 2
    else if cls == "nota-baixa" then 1
    else 0
  }

  /** A higher grade never gets a lower class. */
  lemma NotaClassMonotone(a: real, b: real)
    requires a <= b
    ensures NotaRank(NotaClass(Grade(Num(a), NotANumber))) <= NotaRank(NotaClass(Grade(Num(b), NotANumber)))
  {
  }

  // ---------------------------------------------------------------------
  // The table body of generatePDFHTML
  // ---------------------------------------------------------------------

  /** One row of the report query. */
  datatype HtmlRow = HtmlRow(
    alunoId: string, aluno: string, email: Option<string>,
    atividade: Option<string>, tipo: Option<string>,
    presenca: Value, horas: Value, nota: Grade,
    conceito: Option<string>, statusAvaliacao: Option<string>)

  /** `${row.aluno_id}-${row.aluno}` */
  function Key(r: HtmlRow): string { r.alunoId + "-" + r.aluno }

  /** The key of every row, in row order. */
  function KeysOf(rows: seq<HtmlRow>): seq<string> {
    seq(|rows|, i requires 0 <= i < |rows| => Key(rows[i]))
  }

  /** The group keys in order of first appearance. */
  function DistinctKeys(rows: seq<HtmlRow>): seq<string> {
    if rows == [] then []
    else
      var ks := DistinctKeys(rows[..|rows| - 1]);
      var k := Key(rows[|rows| - 1]);
      if k in ks then ks else ks + [k]
  }

  /** The group keys have no repeats, and they are exactly the keys that
      occur in the rows. */
  lemma {:induction false} DistinctKeysSound(rows: seq<HtmlRow>)
    ensures forall i, j :: 0 <= i < j < |DistinctKeys(rows)| ==> DistinctKeys(rows)[i] != DistinctKeys(rows)[j]
    ensures forall k :: k in DistinctKeys(rows) <==> k in KeysOf(rows)
  {
    if rows != [] {
      var prefix := rows[..|rows| - 1];
      DistinctKeysSound(prefix);
      var ks, k := DistinctKeys(prefix), Key(rows[|rows| - 1]);
      assert KeysOf(rows) == KeysOf(prefix) + [k];
      if k !in ks {
        var ks' := ks + [k];
        forall i, j | 0 <= i < j < |ks'| ensures ks'[i] != ks'[j] {
          if j == |ks| {
            assert ks'[i] == ks[i] && ks[i] in ks && ks'[j] == k;
          } else {
            assert ks'[i] == ks[i] && ks'[j] == ks[j];
          }
        }
      }
    }
  }

  /** The rows of one group, in their original order. */
  function RowsWithKey(rows: seq<HtmlRow>, k: string): seq<HtmlRow> {
    if rows == [] then []
    else RowsWithKey(rows[..|rows| - 1], k) + (if Key(rows[|rows| - 1]) == k then [rows[|rows| - 1]] else [])
  }

  /** A group holds only rows of the result, all with its key. */
  lemma {:induction false} RowsWithKeyMembers(rows: seq<HtmlRow>, k: string)
    ensures |RowsWithKey(rows, k)| <= |rows|
    ensures forall r :: r in RowsWithKey(rows, k) ==> r in rows && Key(r) == k
  {
    if rows != [] {
      var prefix := rows[..|rows| - 1];
      RowsWithKeyMembers(prefix, k);
      assert forall r :: r in prefix ==> r in rows;
    }
  }

  /** A key no row has has no rows. */
  lemma {:induction false} RowsWithKeyAbsent(rows: seq<HtmlRow>, k: string)
    requires k !in KeysOf(rows)
    ensures RowsWithKey(rows, k) == []
  {
    if rows != [] {
      var prefix := rows[..|rows| - 1];
      assert KeysOf(rows) == KeysOf(prefix) + [Key(rows[|rows| - 1])];
      RowsWithKeyAbsent(prefix, k);
    }
  }

  /** One more row of the pass: the row joins its key's group. */
  lemma RowsWithKeySnoc(rows: seq<HtmlRow>, i: nat, k: string)
    requires i < |rows|
    ensures RowsWithKey(rows[..i + 1], k) == RowsWithKey(rows[..i], k) + (if Key(rows[i]) == k then [rows[i]] else [])
  {
    assert rows[..i + 1][..i] == rows[..i];
  }

  /** One more row of the pass: a new key is added last. */
  lemma DistinctKeysSnoc(rows: seq<HtmlRow>, i: nat)
    requires i < |rows|
    ensures KeysOf(rows[..i + 1]) == KeysOf(rows[..i]) + [Key(rows[i])]
    ensures DistinctKeys(rows[..i + 1]) == if Key(rows[i]) in DistinctKeys(rows[..i]) then DistinctKeys(rows[..i])
                                          else DistinctKeys(rows[..i]) + [Key(rows[i])]
  {
    assert rows[..i + 1][..i] == rows[..i];
  }

  /** One step of the fill keeps the grouping up to date. */
  lemma GroupStep(rows: seq<HtmlRow>, i: nat, keys: seq<string>, groups: map<string, seq<HtmlRow>>,
                  keys': seq<string>, groups': map<string, seq<HtmlRow>>)
    requires i < |rows| && keys == DistinctKeys(rows[..i])
    requires forall k :: k in groups <==> k in keys
    requires forall k :: k in groups ==> groups[k] == RowsWithKey(rows[..i], k)
    requires keys' == if Key(rows[i]) in groups then keys else keys + [Key(rows[i])]
    requires groups' == groups[Key(rows[i]) := (if Key(rows[i]) in groups then groups[Key(rows[i])] else []) + [rows[i]]]
    ensures keys' == DistinctKeys(rows[..i + 1])
    ensures forall k :: k in groups' <==> k in keys'
    ensures forall k :: k in groups' ==> groups'[k] == RowsWithKey(rows[..i + 1], k)
  {
    var key := Key(rows[i]);
    assert keys' == DistinctKeys(rows[..i + 1]) by {
      DistinctKeysSnoc(rows, i);
    }
    assert forall k :: k in groups' ==> groups'[k] == RowsWithKey(rows[..i + 1], k) by {
      forall k | k in groups' ensures groups'[k] == RowsWithKey(rows[..i + 1], k) {
        RowsWithKeySnoc(rows, i, k);
        if k == key && key !in groups {
          DistinctKeysSound(rows[..i]);
          RowsWithKeyAbsent(rows[..i], key);
        }
      }
    }
    assert forall k :: k in groups' <==> k in keys' by {
      forall k ensures k in groups' <==> k in keys' {
        assert k in groups' <==> k in groups || k == key;
      }
    }
  }

  /** The alunoMap fill: one pass over the rows, creating a group on a key's
      first appearance and appending to it. Map iteration follows insertion
      order, which `keys` records. */
  method GroupRows(rows: seq<HtmlRow>) returns (keys: seq<string>, groups: map<string, seq<HtmlRow>>)
    ensures keys == DistinctKeys(rows)
    ensures forall k :: k in groups <==> k in keys
    ensures forall k :: k in groups ==> groups[k] == RowsWithKey(rows, k)
  {
    keys := [];
    groups := map[];
    var i := 0;
    while i < |rows|
      invariant 0 <= i <= |rows|
      invariant keys == DistinctKeys(rows[..i])
      invariant forall k :: k in groups <==> k in keys
      invariant forall k :: k in groups ==> groups[k] == RowsWithKey(rows[..i], k)
    {
      var row := rows[i];
      var key := Key(row);
      ghost var keys0, groups0 := keys, groups;
      if key !in groups {
        groups := groups[key := []];
        keys := keys + [key];
      }
      groups := groups[key := groups[key] + [row]];
      assert groups == groups0[key := (if key in groups0 then groups0[key] else []) + [row]];
      GroupStep(rows, i, keys0, groups0, keys, groups);
      i := i + 1;
    }
    assert rows[..i] == rows;
  }

  /** Each row lands in exactly one group, so the group sizes add up to the
      number of rows. */
  function SumSizes(keys: seq<string>, rows: seq<HtmlRow>): nat {
    if keys == [] then 0 else SumSizes(keys[..|keys| - 1], rows) + |RowsWithKey(rows, keys[|keys| - 1])|
  }

  lemma {:induction false} SumSizesAppend(keys: seq<string>, rows: seq<HtmlRow>, r: HtmlRow)
    requires forall i, j :: 0 <= i < j < |keys| ==> keys[i] != keys[j]
    ensures SumSizes(keys, rows + [r]) == SumSizes(keys, rows) + (if Key(r) in keys then 1 else 0)
  {
    if keys != [] {
      var init, last := keys[..|keys| - 1], keys[|keys| - 1];
      assert (rows + [r])[..|rows + [r]| - 1] == rows;
      SumSizesAppend(init, rows, r);
      assert keys == init + [last];
      assert Key(r) in init ==> Key(r) != last;
      assert Key(r) in keys <==> Key(r) in init || Key(r) == last;
    }
  }

  lemma {:induction false} GroupSizesSum(rows: seq<HtmlRow>)
    ensures SumSizes(DistinctKeys(rows), rows) == |rows|
  {
    if rows != [] {
      var i := |rows| - 1;
      var prefix, r := rows[..i], rows[i];
      var ks, k := DistinctKeys(prefix), Key(r);
      GroupSizesSum(prefix);
      assert SumSizes(ks, rows) == |prefix| + (if k in ks then 1 else 0) by {
        DistinctKeysSound(prefix);
        SumSizesAppend(ks, prefix, r);
        assert prefix + [r] == rows;
      }
      assert DistinctKeys(rows) == if k in ks then ks else ks + [k] by {
        DistinctKeysSnoc(rows, i);
        assert rows[..i + 1] == rows;
      }
      if k !in ks {
        assert |RowsWithKey(rows, k)| == 1 by {
          DistinctKeysSound(prefix);
          RowsWithKeySnoc(rows, i, k);
          RowsWithKeyAbsent(prefix, k);
          assert rows[..i + 1] == rows;
        }
        assert (ks + [k])[..|ks|] == ks;
      }
    }
  }

  /** The text of a numeric cell: `x ? Number(x).toFixed(p) : "-"`, kept
      as the value and the number of places. */
  datatype NumCell = Dash | Fixed(source: Value, places: nat)

  function NumText(v: Value, places: nat): (c: NumCell)
    ensures c == Dash <==> !Truthy(v)
    ensures c.Fixed? ==> c.source == v && c.places == places
  {
    if Truthy(v) then Fixed(v, places) else Dash
  }

  /** `row.presenca ? "✓" : "✗"` */
  function PresenceMark(v: Value): (m: string)
    ensures m == "✓" || m == "✗"
    ensures m == "✓" <==> Truthy(v)
  {
    if Truthy(v) then "✓" else "✗"
  }

  /** Over the encodings a `presenca` column can arrive in (a boolean,
      "t"/"f", 1/0 or "1"/"0"), the mark is a tick for every present
      student and also for the strings "f" and "0" of an absent one. */
  lemma PresenceMarkOnEncodings(v: Value, present: bool)
    requires v == Bool(present) || v == Str(if present then "t" else "f")
             || v == Num(if present then 1.0 else 0.0) || v == Str(if present then "1" else "0")
    ensures PresenceMark(v) == "✓" <==> present || v == Str("f") || v == Str("0")
  {
  }

  /** A numeric zero is falsy and shows "-", while the string "0" is
      truthy and is formatted. */
  lemma ZeroCells(places: nat)
    ensures NumText(Num(0.0), places) == Dash
    ensures NumText(Str("0"), places) == Fixed(Str("0"), places)
  {
  }

  /** What one `<tr>` carries. `studentCell` is the rowspan cell with the
      escaped name and e-mail, present on a group's first row only. */
  datatype TableRow = TableRow(
    rowClass: string,
    studentCell: Option<(nat, string, string)>,
    atividade: string, tipo: string,
    nota: NumCell, notaClass: string,
    conceito: string, conceitoClass: string,
    presenca: string,
    horas: NumCell,
    status: string, statusClass: string)

  function OrDash(v: Option<string>): Option<string> {
    if v.Some? && v.value != "" then v else Some("-")
  }

  /** `rowIndex % 2 === 0 ? "row-even" : "row-odd"` */
  function Stripe(groupIndex: nat): string {
    if groupIndex % 2 == 0 then "row-even" else "row-odd"
  }

  /** One `<tr>`: the group's stripe, the student cell on the group's
      first row only, "-" for every falsy grade, hours, concept or status,
      the presence mark by truthiness, and the concept, status and grade
      classes of the row's values. */
  function RenderRow(row: HtmlRow, groupIndex: nat, first: bool, groupSize: nat): (r: TableRow)
    ensures r.rowClass == Stripe(groupIndex)
    ensures r.studentCell.Some? <==> first
    ensures first ==> r.studentCell.value == (groupSize, EscapeEach(row.aluno),
                                               if row.email.Some? then EscapeEach(row.email.value) else "")
    ensures r.nota == Dash <==> !Truthy(row.nota.raw)
    ensures r.horas == Dash <==> !Truthy(row.horas)
    ensures r.nota.Fixed? ==> r.nota == Fixed(row.nota.raw, 2)
    ensures r.horas.Fixed? ==> r.horas == Fixed(row.horas, 1)
    ensures r.notaClass == NotaClass(row.nota)
    ensures r.atividade == EscapeHtml(row.atividade) && r.tipo == EscapeHtml(row.tipo)
    ensures r.conceitoClass == ConceptClass(row.conceito) && r.statusClass == StatusClass(row.statusAvaliacao)
    ensures r.presenca == "✓" <==> Truthy(row.presenca)
    ensures r.conceito == EscapeEach(if row.conceito.Some? && row.conceito.value != "" then row.conceito.value else "-")
    ensures r.status == EscapeEach(if row.statusAvaliacao.Some? && row.statusAvaliacao.value != "" then row.statusAvaliacao.value else "-")
  {
    TableRow(
      Stripe(groupIndex),
      if first then Some((groupSize, EscapeHtml(Some(row.aluno)), EscapeHtml(row.email))) else None,
      EscapeHtml(row.atividade), EscapeHtml(row.tipo),
      NumText(row.nota.raw, 2), NotaClass(row.nota),
      EscapeHtml(OrDash(row.conceito)), ConceptClass(row.conceito),
      PresenceMark(row.presenca),
      NumText(row.horas, 1),
      EscapeHtml(OrDash(row.statusAvaliacao)), StatusClass(row.statusAvaliacao))
  }

  /** The rows of one group: the stripe of the group's index on every row,
      the student cell with rowspan = group size on the first row only. */
  function RenderGroup(g: seq<HtmlRow>, groupIndex: nat): (out: seq<TableRow>)
    ensures |out| == |g|
    ensures forall idx :: 0 <= idx < |g| ==> out[idx] == RenderRow(g[idx], groupIndex, idx == 0, |g|)
  {
    seq(|g|, idx requires 0 <= idx < |g| => RenderRow(g[idx], groupIndex, idx == 0, |g|))
  }

  /** The groups of the given keys, one after the other. */
  function RenderGroups(keys: seq<string>, rows: seq<HtmlRow>): (out: seq<TableRow>)
    ensures |out| == SumSizes(keys, rows)
  {
    if keys == [] then []
    else RenderGroups(keys[..|keys| - 1], rows) + RenderGroup(RowsWithKey(rows, keys[|keys| - 1]), |keys| - 1)
  }

  /** The table body for a result set. */
  function Table(rows: seq<HtmlRow>): seq<TableRow> {
    RenderGroups(DistinctKeys(rows), rows)
  }

  /** The table has one `<tr>` per result row. */
  lemma TableLength(rows: seq<HtmlRow>)
    ensures |Table(rows)| == |rows|
  {
    GroupSizesSum(rows);
  }

  /** Where group gi sits in the table: its rows follow the rows of the
      groups before it, carry stripe gi, and only its first row holds the
      student cell, spanning the whole group. */
  lemma {:induction false} GroupPlacement(keys: seq<string>, rows: seq<HtmlRow>, gi: nat, idx: nat)
    requires gi < |keys|
    requires idx < |RowsWithKey(rows, keys[gi])|
    ensures var g := RowsWithKey(rows, keys[gi]);
            var p := SumSizes(keys[..gi], rows) + idx;
      && p < |RenderGroups(keys, rows)|
      && RenderGroups(keys, rows)[p] == RenderRow(g[idx], gi, idx == 0, |g|)
      && RenderGroups(keys, rows)[p].rowClass == Stripe(gi)
      && (RenderGroups(keys, rows)[p].studentCell.Some? <==> idx == 0)
  {
    var g := RowsWithKey(rows, keys[gi]);
    GroupSlot(keys, rows, gi, idx);
    assert RenderGroup(g, gi)[idx] == RenderRow(g[idx], gi, idx == 0, |g|);
  }

  /** Row idx of group gi is row idx of that group's rendering. */
  lemma {:induction false} GroupSlot(keys: seq<string>, rows: seq<HtmlRow>, gi: nat, idx: nat)
    requires gi < |keys|
    requires idx < |RowsWithKey(rows, keys[gi])|
    ensures var g := RowsWithKey(rows, keys[gi]);
            var p := SumSizes(keys[..gi], rows) + idx;
      && p < |RenderGroups(keys, rows)|
      && RenderGroups(keys, rows)[p] == RenderGroup(g, gi)[idx]
  {
    var init := keys[..|keys| - 1];
    var last := RenderGroup(RowsWithKey(rows, keys[|keys| - 1]), |keys| - 1);
    assert RenderGroups(keys, rows) == RenderGroups(init, rows) + last;
    if gi == |keys| - 1 {
      assert keys[..gi] == init;
    } else {
      assert init[gi] == keys[gi] && init[..gi] == keys[..gi];
      GroupSlot(init, rows, gi, idx);
    }
  }

  /** Neighbouring groups get different stripes. */
  lemma StripeAlternates(gi: nat)
    ensures Stripe(gi) != Stripe(gi + 1)
  {
  }

  /** The inner `atividades.forEach`: the group's rows appended in order. */
  method AppendGroup(out: seq<TableRow>, atividades: seq<HtmlRow>, rowIndex: nat) returns (out': seq<TableRow>)
    ensures out' == out + RenderGroup(atividades, rowIndex)
  {
    ghost var all := RenderGroup(atividades, rowIndex);
    out' := out;
    var idx := 0;
    while idx < |atividades|
      invariant 0 <= idx <= |atividades|
      invariant out' == out + all[..idx]
    {
      var row := RenderRow(atividades[idx], rowIndex, idx == 0, |atividades|);
      AppendNext(out, all, idx, out', row);
      out' := out' + [row];
      idx := idx + 1;
    }
    assert all[..idx] == all;
  }

  /** The table loop: for each group in map order, its rows, with
      `rowIndex` counting groups. */
  method RenderTable(keys: seq<string>, groups: map<string, seq<HtmlRow>>, ghost rows: seq<HtmlRow>)
    returns (out: seq<TableRow>)
    requires forall k :: k in keys ==> k in groups && groups[k] == RowsWithKey(rows, k)
    ensures out == RenderGroups(keys, rows)
  {
    out := [];
    var rowIndex := 0;
    while rowIndex < |keys|
      invariant 0 <= rowIndex <= |keys|
      invariant out == RenderGroups(keys[..rowIndex], rows)
    {
      assert keys[..rowIndex + 1][..rowIndex] == keys[..rowIndex];
      assert RenderGroups(keys[..rowIndex + 1], rows)
             == RenderGroups(keys[..rowIndex], rows) + RenderGroup(RowsWithKey(rows, keys[rowIndex]), rowIndex);
      out := AppendGroup(out, groups[keys[rowIndex]], rowIndex);
      rowIndex := rowIndex + 1;
    }
    assert keys[..rowIndex] == keys;
  }

  /** `generatePDFHTML`'s table and summary: the body, the number of
      participations and the number of students (`alunoMap.size`). */
  method GeneratePdfHtml(rows: seq<HtmlRow>) returns (body: seq<TableRow>, participacoes: nat, alunos: nat)
    ensures body == Table(rows)
    ensures |body| == participacoes == |rows|
    ensures alunos == |DistinctKeys(rows)|
  {
    var keys, groups := GroupRows(rows);
    body := RenderTable(keys, groups, rows);
    TableLength(rows);
    participacoes := |rows|;
    alunos := |keys|;
  }
}
