/**
 * UserRepository: the `users` table and the statements run over it. The
 * interesting one is `update`, which normalises the patch, builds its SET
 * list and parameter array with a running `$n` counter, and skips the
 * UPDATE altogether when nothing is left to set.
 * Timestamps (`created_at`, `updated_at`) are not modelled.
 */
module UserRepository {
  import opened Common

  datatype User = User(id: string, name: string, email: string, passwordHash: string)

  /** `{ name?, email?, password_hash? }` */
  datatype Patch = Patch(name: Option<string>, email: Option<string>, passwordHash: Option<string>)

  /** The columns `update` may set. */
  datatype Column = Name | Email | PasswordHash

  function ColumnName(c: Column): string {
    match c
    case Name => "name"
    case Email => "email"
    case PasswordHash => "password_hash"
  }

  /** One SET assignment to be made: a column and its new value. */
  datatype Assignment = Assignment(column: Column, value: string)

  /** The UPDATE statement `update` sends and the values bound to it. */
  datatype UpdateQuery = UpdateQuery(query: string, fields: seq<string>, values: seq<string>)

  const UpdatedAtNow: string := "updated_at=NOW()"
  const Returning: string := " RETURNING id, name, email, password_hash, created_at, updated_at"

  /** `set(k, v)` skips undefined values and whitespace-only strings. */
  predicate Includable(v: Option<string>) { v.Some? && !AllWhitespace(v.value) }

  /** `patch.name.trim()`, `patch.email.toLowerCase().trim()` */
  function Normalize(patch: Patch): (p: Patch)
    ensures p.name.Some? <==> patch.name.Some?
    ensures p.email.Some? <==> patch.email.Some?
    ensures p.passwordHash == patch.passwordHash
  {
    Patch(
      if patch.name.Some? then Some(Trim(patch.name.value)) else None,
      if patch.email.Some? then Some(Trim(ToLower(patch.email.value))) else None,
      patch.passwordHash)
  }

  /** The assignments of a normalised patch, in the order name, email, password_hash. */
  function Assignments(p: Patch): (as_: seq<Assignment>)
    ensures |as_| <= 3
  {
    (if Includable(p.name) then [Assignment(Name, p.name.value)] else [])
    + (if Includable(p.email) then [Assignment(Email, p.email.value)] else [])
    + (if Includable(p.passwordHash) then [Assignment(PasswordHash, p.passwordHash.value)] else [])
  }

  /** `${k}=$${n}` */
  function SetItem(column: Column, n: nat): string { ColumnName(column) + "=" + Placeholder(n) }

  /** Item i of the SET list reads `column=$(i+1)`. */
  function SetItems(as_: seq<Assignment>): seq<string> {
    seq(|as_|, i requires 0 <= i < |as_| => SetItem(as_[i].column, i + 1))
  }

  /** Value i is the value of assignment i. */
  function Values(as_: seq<Assignment>): seq<string> {
    seq(|as_|, i requires 0 <= i < |as_| => as_[i].value)
  }

  /** One `set(k, v)` call: pushes `k=$idx` and the value when the value is includable. */
  method Set(column: Column, v: Option<string>, fields: seq<string>, values: seq<string>, idx: nat,
             ghost done: seq<Assignment>)
    returns (fields': seq<string>, values': seq<string>, idx': nat, ghost done': seq<Assignment>)
    requires fields == SetItems(done) && values == Values(done) && idx == |done| + 1
    ensures done' == done + (if Includable(v) then [Assignment(column, v.value)] else [])
    ensures fields' == SetItems(done') && values' == Values(done') && idx' == |done'| + 1
  {
    fields', values', idx', done' := fields, values, idx, done;
    if v.None? {
      return;
    }
    if AllWhitespace(v.value) {
      return;
    }
    fields' := fields' + [SetItem(column, idx')];
    idx' := idx' + 1;
    values' := values' + [v.value];
    done' := done' + [Assignment(column, v.value)];
    assert fields' == SetItems(done');
    assert values' == Values(done');
  }

  /** The three `set` calls, in the order name, email, password_hash. */
  method SetAll(p: Patch) returns (fields: seq<string>, values: seq<string>, idx: nat)
    ensures fields == SetItems(Assignments(p)) && values == Values(Assignments(p))
    ensures idx == |Assignments(p)| + 1
  {
    ghost var done: seq<Assignment> := [];
    fields, values, idx := [], [], 1;
    fields, values, idx, done := Set(Name, p.name, fields, values, idx, done);
    fields, values, idx, done := Set(Email, p.email, fields, values, idx, done);
    fields, values, idx, done := Set(PasswordHash, p.passwordHash, fields, values, idx, done);
  }

  /** The UPDATE for a non-empty list of assignments: the SET items, then
      `updated_at=NOW()`; the id bound after the assigned values. */
  function UpdateStatement(id: string, as_: seq<Assignment>): UpdateQuery {
    var fields := SetItems(as_) + [UpdatedAtNow];
    UpdateQuery("UPDATE users SET " + Join(fields, ", ") + " WHERE id=" + Placeholder(|as_| + 1) + Returning,
                fields, Values(as_) + [id])
  }

  /** The layout of the statement: with k assignments, SET items 0..k-1
      read `column=$(i+1)` in assignment order, `updated_at=NOW()` is the
      last item, $1..$k bind the assigned values, and the id is bound to
      $(k+1), the WHERE placeholder. */
  lemma UpdateStatementLayout(id: string, as_: seq<Assignment>)
    ensures var q := UpdateStatement(id, as_); var k := |as_|;
      && |q.fields| == k + 1 && |q.values| == k + 1
      && (forall i :: 0 <= i < k ==> q.fields[i] == ColumnName(as_[i].column) + "=" + Placeholder(i + 1))
      && q.fields[k] == UpdatedAtNow
      && (forall i :: 0 <= i < k ==> q.values[i] == as_[i].value)
      && q.values[k] == id
      && q.query == "UPDATE users SET " + Join(q.fields, ", ") + " WHERE id=" + Placeholder(k + 1) + Returning
  {
  }

  /** The statement part of `update`: the patch is normalised, and the
      UPDATE is built exactly when some field of it is includable. */
  method BuildUpdate(id: string, patch: Patch) returns (normalized: Patch, q: Option<UpdateQuery>)
    ensures normalized == Normalize(patch)
    ensures q.None? <==> Assignments(normalized) == []
    ensures q.Some? ==> q.value == UpdateStatement(id, Assignments(normalized))
  {
    normalized := Normalize(patch);
    q := BuildStatement(id, normalized);
  }

  /** The `set` calls and the statement text over an already normalised patch. */
  method BuildStatement(id: string, p: Patch) returns (q: Option<UpdateQuery>)
    ensures q.None? <==> Assignments(p) == []
    ensures q.Some? ==> q.value == UpdateStatement(id, Assignments(p))
  {
    var fields, values, idx := SetAll(p);
    fields := fields + [UpdatedAtNow];

    if |fields| == 1 {
      return None;
    }

    var query := "UPDATE users SET " + Join(fields, ", ") + " WHERE id=" + Placeholder(idx) + Returning;
    values := values + [id];
    q := Some(UpdateQuery(query, fields, values));
  }

  /** One `column=value` of the SET list applied to a row. */
  function Assign(u: User, a: Assignment): User {
    match a.column
    case Name => u.(name := a.value)
    case Email => u.(email := a.value)
    case PasswordHash => u.(passwordHash := a.value)
  }

  /** The row after the UPDATE: each assigned column takes its new value. */
  function Apply(u: User, as_: seq<Assignment>): (v: User)
    ensures v.id == u.id
    decreases |as_|
  {
    if as_ == [] then u else Apply(Assign(u, as_[0]), as_[1..])
  }

  /** Every row with the id, updated; the others untouched. */
  function ApplyToId(users: seq<User>, id: string, as_: seq<Assignment>): (r: seq<User>)
    ensures |r| == |users|
    ensures forall i :: 0 <= i < |users| ==>
              r[i] == if users[i].id == id then Apply(users[i], as_) else users[i]
  {
    if users == [] then [] else
      [if users[0].id == id then Apply(users[0], as_) else users[0]] + ApplyToId(users[1..], id, as_)
  }

  lemma {:induction false} ApplyConcat(u: User, xs: seq<Assignment>, ys: seq<Assignment>)
    ensures Apply(u, xs + ys) == Apply(Apply(u, xs), ys)
    decreases |xs|
  {
    if xs == [] {
      assert xs + ys == ys;
    } else {
      assert (xs + ys)[0] == xs[0];
      assert (xs + ys)[1..] == xs[1..] + ys;
      ApplyConcat(Assign(u, xs[0]), xs[1..], ys);
    }
  }

  /** The SET list of a patch sets exactly its includable fields and
      leaves every other column as it was. */
  lemma ApplyAssignments(u: User, p: Patch)
    ensures var v := Apply(u, Assignments(p));
      && v.id == u.id
      && v.name == (if Includable(p.name) then p.name.value else u.name)
      && v.email == (if Includable(p.email) then p.email.value else u.email)
      && v.passwordHash == (if Includable(p.passwordHash) then p.passwordHash.value else u.passwordHash)
  {
    var a1 := if Includable(p.name) then [Assignment(Name, p.name.value)] else [];
    var a2 := if Includable(p.email) then [Assignment(Email, p.email.value)] else [];
    var a3 := if Includable(p.passwordHash) then [Assignment(PasswordHash, p.passwordHash.value)] else [];
    assert Assignments(p) == a1 + (a2 + a3);
    ApplyConcat(u, a1, a2 + a3);
    var u1 := Apply(u, a1);
    ApplyConcat(u1, a2, a3);
    var u2 := Apply(u1, a2);
    ApplyOne(u, a1);
    ApplyOne(u1, a2);
    ApplyOne(u2, a3);
  }

  lemma ApplyOne(u: User, as_: seq<Assignment>)
    requires |as_| <= 1
    ensures Apply(u, as_) == if as_ == [] then u else Assign(u, as_[0])
  {
    if as_ != [] {
      assert as_[1..] == [];
    }
  }

  function FindById(users: seq<User>, id: string): (r: Option<User>)
    ensures r.None? <==> forall i :: 0 <= i < |users| ==> users[i].id != id
    ensures r.Some? ==> r.value.id == id && r.value in users
  {
    FirstMatch(users, (u: User) => u.id, id)
  }

  function FindByEmail(users: seq<User>, email: string): (r: Option<User>)
    ensures r.None? <==> forall i :: 0 <= i < |users| ==> users[i].email != email
    ensures r.Some? ==> r.value.email == email && r.value in users
  {
    FirstMatch(users, (u: User) => u.email, email)
  }

  function CountId(users: seq<User>, id: string): (n: nat)
    ensures n <= |users|
  {
    if users == [] then 0 else (if users[0].id == id then 1 else 0) + CountId(users[1..], id)
  }

  function RemoveId(users: seq<User>, id: string): (r: seq<User>)
    ensures |r| == |users| - CountId(users, id)
    ensures forall i :: 0 <= i < |r| ==> r[i].id != id && r[i] in users
  {
    if users == [] then [] else (if users[0].id == id then [] else [users[0]]) + RemoveId(users[1..], id)
  }

  /** A DELETE by id keeps every row with another id. */
  lemma {:induction false} RemoveIdKeepsOthers(users: seq<User>, id: string)
    ensures forall i :: 0 <= i < |users| && users[i].id != id ==> users[i] in RemoveId(users, id)
  {
    if users != [] {
      RemoveIdKeepsOthers(users[1..], id);
      forall i | 0 <= i < |users| && users[i].id != id ensures users[i] in RemoveId(users, id) {
        if i > 0 {
          assert users[i] == users[1..][i - 1];
        }
      }
    }
  }

  /** Ids are unique (the primary key). */
  ghost predicate UniqueIds(users: seq<User>) {
    forall i, j :: 0 <= i < j < |users| ==> users[i].id != users[j].id
  }

  /** With unique ids a DELETE by id removes one row exactly when the id exists. */
  lemma {:induction false} CountIdUnique(users: seq<User>, id: string)
    requires UniqueIds(users)
    ensures CountId(users, id) == (if exists i :: 0 <= i < |users| && users[i].id == id then 1 else 0)
  {
    if users != [] {
      assert UniqueIds(users[1..]) by {
        forall i, j | 0 <= i < j < |users[1..]| ensures users[1..][i].id != users[1..][j].id {
          assert users[1..][i] == users[i + 1] && users[1..][j] == users[j + 1];
        }
      }
      CountIdUnique(users[1..], id);
      if users[0].id == id {
        forall i | 0 <= i < |users[1..]| ensures users[1..][i].id != id {
          assert users[1..][i] == users[i + 1];
        }
      }
      if exists i :: 0 <= i < |users| && users[i].id == id {
        var i :| 0 <= i < |users| && users[i].id == id;
        if i > 0 { assert users[1..][i - 1].id == id; }
      }
      if exists i :: 0 <= i < |users[1..]| && users[1..][i].id == id {
        var i :| 0 <= i < |users[1..]| && users[1..][i].id == id;
        assert users[i + 1].id == id;
      }
    }
  }

  class Repository {
    var users: seq<User>

    ghost predicate Valid()
      reads this
    {
      UniqueIds(users)
    }

    constructor(users: seq<User>)
      requires UniqueIds(users)
      ensures Valid() && this.users == users
    {
      this.users := users;
    }

    /** `create`: INSERT ... RETURNING. The id is the primary key, so an id
        already present is rejected by the database and nothing changes. */
    method Create(data: User) returns (r: Result<User>)
      requires Valid()
      modifies this`users
      ensures Valid()
      ensures FindById(old(users), data.id).Some? ==> r.Err? && users == old(users)
      ensures FindById(old(users), data.id).None? ==> r == Ok(data) && users == old(users) + [data]
    {
      if FindById(users, data.id).Some? {
        return Err(Failure("duplicate key value violates unique constraint \"users_pkey\""));
      }
      users := users + [data];
      r := Ok(data);
    }

    /** `update`: the statement of BuildUpdate applied to the row with that
        id; with nothing to set, the current row (`findById`). Either way
        the result is the row as stored afterwards, or null when no row has
        that id. */
    method Update(id: string, patch: Patch) returns (r: Option<User>)
      requires Valid()
      modifies this`users
      ensures Valid()
      ensures users == ApplyToId(old(users), id, Assignments(Normalize(patch)))
      ensures Assignments(Normalize(patch)) == [] ==> users == old(users)
      ensures r == FindById(users, id)
      ensures r.None? <==> FindById(old(users), id).None?
    {
      var normalized, q := BuildUpdate(id, patch);
      var as_ := Assignments(normalized);
      if q.None? {
        assert ApplyToId(users, id, as_) == users;
        r := FindById(users, id);
        return;
      }
      users := ApplyToId(users, id, as_);
      r := FindById(users, id);
    }

    /** `delete`: true exactly when one row was removed. */
    method Delete(id: string) returns (ok: bool)
      requires Valid()
      modifies this`users
      ensures Valid()
      ensures users == RemoveId(old(users), id)
      ensures ok <==> FindById(old(users), id).Some?
    {
      var rowCount := CountId(users, id);
      CountIdUnique(users, id);
      RemoveKeepsUnique(users, id);
      users := RemoveId(users, id);
      ok := rowCount == 1;
    }
  }

  lemma {:induction false} RemoveKeepsUnique(users: seq<User>, id: string)
    requires UniqueIds(users)
    ensures UniqueIds(RemoveId(users, id))
  {
    if users != [] {
      assert UniqueIds(users[1..]) by {
        forall i, j | 0 <= i < j < |users[1..]| ensures users[1..][i].id != users[1..][j].id {
          assert users[1..][i] == users[i + 1] && users[1..][j] == users[j + 1];
        }
      }
      RemoveKeepsUnique(users[1..], id);
      var rest := RemoveId(users[1..], id);
      if users[0].id != id {
        forall k | 0 <= k < |rest| ensures rest[k].id != users[0].id {
          var m :| 0 <= m < |users[1..]| && users[1..][m] == rest[k];
          assert users[m + 1] == rest[k];
        }
        assert RemoveId(users, id) == [users[0]] + rest;
      }
    }
  }
}
