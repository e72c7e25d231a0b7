/**
 * Shared vocabulary of the model: the domain error kinds, Option/Result
 * wrappers, and the few JavaScript string operations the services rely on
 * (`trim`, `toLowerCase`/`toUpperCase`, `includes`, and the decimal
 * rendering of a number inside a template string).
 */
module Common {

  datatype Option<T> = None | Some(value: T)

  /** A JavaScript value as the query driver hands it over (NaN is not
      among the numbers). */
  datatype Value = Null | Undefined | Bool(b: bool) | Num(x: real) | Str(s: string)

  /** JavaScript truthiness: null, undefined, false, 0 and "" are falsy. */
  predicate Truthy(v: Value) {
    match v
    case Null => false
    case Undefined => false
    case Bool(b) => b
    case Num(x) => x != 0.0
    case Str(s) => s != ""
  }

  /** The truthiness of an optional string: present and not "". */
  predicate Present(v: Option<string>) { v.Some? && v.value != "" }

  /** The domain error classes (DomainErrors.ts) as one datatype; `Failure`
      stands for a plain `Error` thrown with a message. */
  datatype Error =
    | ValidationError(message: string)
    | NotFoundError(message: string)
    | ConflictError(message: string)
    | Failure(message: string)

  datatype Result<T> = Ok(value: T) | Err(error: Error) {
    predicate IsFailure() { Err? }
    function PropagateFailure<U>(): Result<U>
      requires Err?
    {
      Err(error)
    }
    function Extract(): T
      requires Ok?
    {
      value
    }
  }

  /** Outcome of a check that returns nothing but may throw. */
  datatype Outcome = Pass | Fail(error: Error)

  // ---------------------------------------------------------------------
  // White space, as JavaScript's `\s` and `String.prototype.trim` see it
  // ---------------------------------------------------------------------

  /** WhiteSpace and LineTerminator code points of ECMAScript. */
  predicate IsJsWhitespace(c: char) {
    c == '\t' || c == '\n' || c == '\U{000B}' || c == '\U{000C}' || c == '\r' || c == ' '
    || c == '\U{00A0}' || c == '\U{1680}' || ('\U{2000}' <= c <= '\U{200A}')
    || c == '\U{2028}' || c == '\U{2029}' || c == '\U{202F}' || c == '\U{205F}'
    || c == '\U{3000}' || c == '\U{FEFF}'
  }

  predicate AllWhitespace(s: string) {
    forall i :: 0 <= i < |s| ==> IsJsWhitespace(s[i])
  }

  /** How many white-space characters `s` starts with. */
  function LeadingWhitespace(s: string): (n: nat)
    ensures n <= |s|
    ensures forall k :: 0 <= k < n ==> IsJsWhitespace(s[k])
    ensures n < |s| ==> !IsJsWhitespace(s[n])
  {
    if s != [] && IsJsWhitespace(s[0]) then
      var m := LeadingWhitespace(s[1..]);
      assert forall k :: 1 <= k < 1 + m ==> s[k] == s[1..][k - 1];
      1 + m
    else 0
  }

  /** Where the white space `s` ends with begins. */
  function TrailingWhitespaceStart(s: string): (n: nat)
    ensures n <= |s|
    ensures forall k :: n <= k < |s| ==> IsJsWhitespace(s[k])
    ensures n > 0 ==> !IsJsWhitespace(s[n - 1])
  {
    if s != [] && IsJsWhitespace(s[|s| - 1]) then TrailingWhitespaceStart(s[..|s| - 1]) else |s|
  }

  /** `r` is a contiguous piece of `s` with only white space before it
      and only white space after it. */
  predicate IsTrimmedInfix(s: string, r: string) {
    exists a :: && 0 <= a <= |s| - |r| && r == s[a..a + |r|]
                && AllWhitespace(s[..a]) && AllWhitespace(s[a + |r|..])
  }

  /** `s.trim()`: the infix of `s` left once the white space at both ends
      is cut off. */
  function Trim(s: string): (r: string)
    ensures |r| <= |s|
    ensures r != [] ==> !IsJsWhitespace(r[0]) && !IsJsWhitespace(r[|r| - 1])
    ensures r == [] <==> AllWhitespace(s)
    ensures IsTrimmedInfix(s, r)
  {
    var a := LeadingWhitespace(s);
    var m := TrailingWhitespaceStart(s[a..]);
    TrailingInRest(s, a, m);
    TrimCut(s, a, a + m, s[a..a + m]);
    s[a..a + m]
  }

  /** The end cut found in s[a..], read back in s. */
  lemma TrailingInRest(s: string, a: nat, m: nat)
    requires a + m <= |s|
    requires forall k :: m <= k < |s| - a ==> IsJsWhitespace(s[a..][k])
    requires m > 0 ==> !IsJsWhitespace(s[a..][m - 1])
    ensures forall k :: a + m <= k < |s| ==> IsJsWhitespace(s[k])
    ensures m > 0 ==> !IsJsWhitespace(s[a + m - 1])
  {
    forall k | a + m <= k < |s| ensures IsJsWhitespace(s[k]) {
      assert s[k] == s[a..][k - a];
    }
  }

  /** Cutting s at a and b, with only white space before a and from b on
      and none at either edge of the cut, gives the trim. */
  lemma TrimCut(s: string, a: nat, b: nat, r: string)
    requires a <= b <= |s| && r == s[a..b]
    requires forall k :: 0 <= k < a ==> IsJsWhitespace(s[k])
    requires a < |s| ==> !IsJsWhitespace(s[a])
    requires forall k :: b <= k < |s| ==> IsJsWhitespace(s[k])
    requires b > a ==> !IsJsWhitespace(s[b - 1])
    ensures r != [] ==> !IsJsWhitespace(r[0]) && !IsJsWhitespace(r[|r| - 1])
    ensures r == [] <==> AllWhitespace(s)
    ensures IsTrimmedInfix(s, r)
  {
    assert AllWhitespace(s[b..]) by {
      forall k | 0 <= k < |s| - b ensures IsJsWhitespace(s[b..][k]) {
        assert s[b..][k] == s[b + k];
      }
    }
    assert r == s[a..a + |r|];
    assert AllWhitespace(s[..a]);
  }

  /** A string with no white space at either end is its own trim. */
  lemma TrimFixedPoint(s: string)
    requires s != [] ==> !IsJsWhitespace(s[0]) && !IsJsWhitespace(s[|s| - 1])
    ensures Trim(s) == s
  {
  }

  // ---------------------------------------------------------------------
  // Case mapping (ASCII and Latin-1 letters; other characters unchanged)
  // ---------------------------------------------------------------------

  function UpperChar(c: char): char {
    if 'a' <= c <= 'z' then (c as int - 32) as char
    else if '\U{00E0}' <= c <= '\U{00FE}' && c != '\U{00F7}' then (c as int - 32) as char
    else c
  }

  function LowerChar(c: char): char {
    if 'A' <= c <= 'Z' then (c as int + 32) as char
    else if '\U{00C0}' <= c <= '\U{00DE}' && c != '\U{00D7}' then (c as int + 32) as char
    else c
  }

  function ToUpper(s: string): (r: string)
    ensures |r| == |s|
    ensures forall i :: 0 <= i < |s| ==> r[i] == UpperChar(s[i])
  {
    if s == [] then [] else [UpperChar(s[0])] + ToUpper(s[1..])
  }

  function ToLower(s: string): (r: string)
    ensures |r| == |s|
    ensures forall i :: 0 <= i < |s| ==> r[i] == LowerChar(s[i])
  {
    if s == [] then [] else [LowerChar(s[0])] + ToLower(s[1..])
  }

  /** Lower-casing is idempotent (used for the e-mail comparisons). */
  lemma ToLowerIdempotent(s: string)
    ensures ToLower(ToLower(s)) == ToLower(s)
  {
  }

  // ---------------------------------------------------------------------
  // Substring search, as `String.prototype.includes`
  // ---------------------------------------------------------------------

  predicate Contains(s: string, sub: string) {
    sub <= s || (s != [] && Contains(s[1..], sub))
  }

  /** `sub` occurs in `s` starting at index `i`. */
  predicate OccursAt(s: string, sub: string, i: int) {
    0 <= i <= |s| - |sub| && s[i..i + |sub|] == sub
  }

  /** An occurrence past the first character is an occurrence in the tail. */
  lemma OccursShift(s: string, sub: string, i: int)
    requires s != [] && 1 <= i
    ensures OccursAt(s, sub, i) <==> OccursAt(s[1..], sub, i - 1)
  {
    if 0 <= i - 1 <= |s[1..]| - |sub| {
      assert s[1..][i - 1..i - 1 + |sub|] == s[i..i + |sub|];
    }
  }

  /** `Contains` agrees with "occurs at some index". */
  lemma {:induction false} ContainsIff(s: string, sub: string)
    ensures Contains(s, sub) <==> exists i :: OccursAt(s, sub, i)
  {
    if sub <= s {
      assert OccursAt(s, sub, 0);
    } else if s != [] {
      ContainsIff(s[1..], sub);
      assert !OccursAt(s, sub, 0);
      assert (exists i :: OccursAt(s, sub, i)) ==> Contains(s[1..], sub) by {
        if exists i :: OccursAt(s, sub, i) {
          var i :| OccursAt(s, sub, i);
          OccursShift(s, sub, i);
        }
      }
      assert Contains(s[1..], sub) ==> exists i :: OccursAt(s, sub, i) by {
        if Contains(s[1..], sub) {
          var i :| OccursAt(s[1..], sub, i);
          OccursShift(s, sub, i + 1);
        }
      }
    }
  }

  /** If `big` occurs in `s` and `small` occurs in `big`, `small` occurs in `s`. */
  lemma ContainsTransitive(s: string, big: string, small: string)
    requires Contains(s, big) && Contains(big, small)
    ensures Contains(s, small)
  {
    ContainsIff(s, big);
    ContainsIff(big, small);
    var i :| OccursAt(s, big, i);
    var j :| OccursAt(big, small, j);
    assert |s[i..i + |big|]| == |big|;
    forall k | 0 <= k < |small| ensures s[i + j + k] == small[k] {
      assert small[k] == big[j + k] == s[i..i + |big|][j + k];
    }
    assert s[i + j..i + j + |small|] == small;
    assert OccursAt(s, small, i + j);
    ContainsIff(s, small);
  }

  // ---------------------------------------------------------------------
  // Decimal rendering of a natural number (`${n}` in a template string)
  // ---------------------------------------------------------------------

  function DigitChar(d: nat): char
    requires d < 10
  {
    ('0' as int + d) as char
  }

  function NatToString(n: nat): (r: string)
    ensures r != []
    ensures forall i :: 0 <= i < |r| ==> '0' <= r[i] <= '9'
    decreases n
  {
    if n < 10 then [DigitChar(n)] else NatToString(n / 10) + [DigitChar(n % 10)]
  }

  /** Reads a string of decimal digits back. */
  function ParseDigits(s: string): nat
    requires forall i :: 0 <= i < |s| ==> '0' <= s[i] <= '9'
  {
    if s == [] then 0 else 10 * ParseDigits(s[..|s| - 1]) + (s[|s| - 1] as int - '0' as int)
  }

  /** The rendering of a number reads back as that number, so distinct
      placeholders `$n` are distinct strings. */
  lemma {:induction false} NatToStringRoundTrip(n: nat)
    ensures ParseDigits(NatToString(n)) == n
    decreases n
  {
    if n >= 10 {
      var s := NatToString(n);
      assert s[..|s| - 1] == NatToString(n / 10);
      NatToStringRoundTrip(n / 10);
    }
  }

  lemma NatToStringInjective(m: nat, n: nat)
    requires NatToString(m) == NatToString(n)
    ensures m == n
  {
    NatToStringRoundTrip(m);
    NatToStringRoundTrip(n);
  }

  // ---------------------------------------------------------------------
  // Array.prototype.join
  // ---------------------------------------------------------------------

  function Join(parts: seq<string>, sep: string): (r: string)
    ensures parts == [] ==> r == []
    ensures |parts| == 1 ==> r == parts[0]
    ensures |parts| >= 1 ==> |r| >= |parts[|parts| - 1]|
  {
    if parts == [] then []
    else if |parts| == 1 then parts[0]
    else Join(parts[..|parts| - 1], sep) + sep + parts[|parts| - 1]
  }

  // ---------------------------------------------------------------------
  // Single-row lookups and the null guard of the services
  // ---------------------------------------------------------------------

  /** `SELECT ... WHERE <key> = $1` followed by `if (!rowCount) return null;
      return rows[0]`: the first row whose key matches, or nothing. */
  function FirstMatch<T>(rows: seq<T>, key: T -> string, id: string): (r: Option<T>)
    ensures r.None? <==> forall i :: 0 <= i < |rows| ==> key(rows[i]) != id
    ensures r.Some? ==> key(r.value) == id && r.value in rows
    ensures r.Some? ==> exists i :: 0 <= i < |rows| && rows[i] == r.value
                          && forall j :: 0 <= j < i ==> key(rows[j]) != id
  {
    if rows == [] then None
    else if key(rows[0]) == id then Some(rows[0])
    else
      var r := FirstMatch(rows[1..], key, id);
      assert r.Some? ==> exists i :: 0 <= i < |rows| && rows[i] == r.value
                          && forall j :: 0 <= j < i ==> key(rows[j]) != id by {
        if r.Some? {
          var i :| 0 <= i < |rows[1..]| && rows[1..][i] == r.value
                   && forall j :: 0 <= j < i ==> key(rows[1..][j]) != id;
          assert rows[i + 1] == r.value;
          forall j | 0 <= j < i + 1 ensures key(rows[j]) != id {
            if j > 0 { assert rows[j] == rows[1..][j - 1]; }
          }
        }
      }
      r
  }

  /** `if (!x) throw new NotFoundError(message); return x` */
  function RequireFound<T>(found: Option<T>, message: string): (r: Result<T>)
    ensures r.Ok? <==> found.Some?
    ensures r.Ok? ==> r.value == found.value
    ensures r.Err? ==> r.error == NotFoundError(message)
  {
    match found
    case Some(v) => Ok(v)
    case None => Err(NotFoundError(message))
  }

  // ---------------------------------------------------------------------
  // Parameterised SQL
  // ---------------------------------------------------------------------

  /** A value bound to a `$n` placeholder. */
  datatype Param = Text(text: string) | Int(n: int)

  /** The text `$n` of the n-th placeholder. */
  function Placeholder(n: nat): string { "$" + NatToString(n) }

  /** Distinct numbers give distinct placeholders, so a statement whose
      placeholders are numbered consecutively never binds two of them to
      the same position. */
  lemma PlaceholdersDistinct(m: nat, n: nat)
    requires m != n
    ensures Placeholder(m) != Placeholder(n)
  {
    if Placeholder(m) == Placeholder(n) {
      assert NatToString(m) == Placeholder(m)[1..];
      NatToStringInjective(m, n);
    }
  }

  /** A loop that appends `all[idx]` after `out` at step idx keeps
      `acc == out + all[..idx]`. */
  lemma AppendNext<T>(out: seq<T>, all: seq<T>, idx: nat, acc: seq<T>, x: T)
    requires idx < |all| && acc == out + all[..idx] && x == all[idx]
    ensures acc + [x] == out + all[..idx + 1]
  {
    assert all[..idx + 1] == all[..idx] + [x];
  }
}
