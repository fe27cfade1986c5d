/** The two tables the handlers work on, and the store operations they call:
    `Contas` (one account per e-mail) and `ChangePassword` (a list of reset
    rows, filtered by `.eq(...)` for `select`, `delete` and `.single()`). */
module Tables {
  import opened Options
  import opened Passwords

  /** A `Contas` row; the e-mail is the key of the table. */
  datatype Account = Account(password: Digest, createdAt: string, lastLogin: Option<string>)

  /** A `ChangePassword` row: the code and the time it expires. */
  datatype ResetRow = ResetRow(email: string, code: string, time: string)

  /** The rows that satisfy `keep`, in table order: what a query with `.eq`
      filters selects, and what a `.delete()` with the negated filters leaves. */
  function Where(rows: seq<ResetRow>, keep: ResetRow -> bool): (r: seq<ResetRow>)
    ensures forall row :: row in r <==> row in rows && keep(row)
    ensures |r| <= |rows|
  {
    if rows == [] then []
    else (if keep(rows[0]) then [rows[0]] else []) + Where(rows[1..], keep)
  }

  /** A filter keeps every copy of a row it keeps: `Where` only drops rows,
      it never merges duplicates. */
  lemma {:induction false} WhereCounts(rows: seq<ResetRow>, keep: ResetRow -> bool)
    ensures forall row :: multiset(Where(rows, keep))[row] == if keep(row) then multiset(rows)[row] else 0
  {
    if rows != [] {
      WhereCounts(rows[1..], keep);
      assert rows == [rows[0]] + rows[1..];
    }
  }

  /** Two rows that pass a filter at different positions both stay. */
  lemma {:induction false} WhereKeepsTwo(rows: seq<ResetRow>, keep: ResetRow -> bool, i: int, j: int)
    requires 0 <= i < j < |rows| && keep(rows[i]) && keep(rows[j])
    ensures |Where(rows, keep)| >= 2
  {
    var rest := Where(rows[1..], keep);
    if i == 0 {
      assert rows[1..][j - 1] == rows[j] && rows[j] in rows[1..];
      assert rows[j] in rest;
    } else {
      assert rows[1..][i - 1] == rows[i] && rows[1..][j - 1] == rows[j];
      WhereKeepsTwo(rows[1..], keep, i - 1, j - 1);
    }
  }

  /** The filter `.eq('email', email).eq('code', code)`. */
  function MatchesCode(email: string, code: string): ResetRow -> bool {
    (row: ResetRow) => row.email == email && row.code == code
  }

  /** The filter `.eq('email', email)`. */
  function SameEmail(email: string): ResetRow -> bool {
    (row: ResetRow) => row.email == email
  }

  /** The rows a `.delete().eq('email', email)` leaves. */
  function OtherEmail(email: string): ResetRow -> bool {
    (row: ResetRow) => row.email != email
  }

  /** The rows a `.delete().eq('email', email).eq('code', code)` leaves. */
  function OtherCode(email: string, code: string): ResetRow -> bool {
    (row: ResetRow) => !(row.email == email && row.code == code)
  }

  /** `.from('ChangePassword').delete().eq('email', email)`. */
  function DeleteByEmail(rows: seq<ResetRow>, email: string): (r: seq<ResetRow>)
    ensures forall row :: row in r <==> row in rows && row.email != email
  {
    Where(rows, OtherEmail(email))
  }

  /** `.from('ChangePassword').delete().eq('email', email).eq('code', code)`. */
  function DeleteByCode(rows: seq<ResetRow>, email: string, code: string): (r: seq<ResetRow>)
    ensures forall row :: row in r <==> row in rows && !(row.email == email && row.code == code)
  {
    Where(rows, OtherCode(email, code))
  }

  /** `.select(...).eq('email', email).eq('code', code).single()`: the row
      when exactly one matches; none, or several, is an error. */
  function SelectByCode(rows: seq<ResetRow>, email: string, code: string): (r: Option<ResetRow>)
    ensures r.Some? ==> r.value in rows && r.value.email == email && r.value.code == code
  {
    var found := Where(rows, MatchesCode(email, code));
    if |found| == 1 then (assert found[0] in found; Some(found[0])) else None
  }

  /** Both deletes keep every copy of each row they keep. */
  lemma DeleteCounts(rows: seq<ResetRow>, email: string, code: string)
    ensures forall row :: multiset(DeleteByEmail(rows, email))[row]
                          == if row.email != email then multiset(rows)[row] else 0
    ensures forall row :: multiset(DeleteByCode(rows, email, code))[row]
                          == if !(row.email == email && row.code == code) then multiset(rows)[row] else 0
  {
    WhereCounts(rows, OtherEmail(email));
    WhereCounts(rows, OtherCode(email, code));
  }

  /** `.single()` refuses a lookup that several rows match, even copies of one row. */
  lemma SeveralMatchesNotSelected(rows: seq<ResetRow>, email: string, code: string, i: int, j: int)
    requires 0 <= i < j < |rows|
    requires rows[i].email == email && rows[i].code == code
    requires rows[j].email == email && rows[j].code == code
    ensures SelectByCode(rows, email, code) == None
  {
    WhereKeepsTwo(rows, MatchesCode(email, code), i, j);
  }

  /** The row `.single()` returns is the only row of the table matching the
      lookup, and it occurs once. */
  lemma SelectedRowIsOnlyMatch(rows: seq<ResetRow>, email: string, code: string, row: ResetRow)
    requires SelectByCode(rows, email, code) == Some(row)
    ensures multiset(rows)[row] == 1
    ensures forall other :: other in rows && other.email == email && other.code == code ==> other == row
  {
    var found := Where(rows, MatchesCode(email, code));
    WhereCounts(rows, MatchesCode(email, code));
    assert found == [row];
    assert multiset(found)[row] == 1;
  }

  /** At most one `ChangePassword` row per e-mail. */
  predicate UniqueEmails(rows: seq<ResetRow>) {
    forall i, j :: 0 <= i < |rows| && 0 <= j < |rows| && rows[i].email == rows[j].email ==> i == j
  }

  /** Every `ChangePassword` row belongs to an account. */
  predicate Owned(rows: seq<ResetRow>, accounts: map<string, Account>) {
    forall row :: row in rows ==> row.email in accounts
  }

  /** Filtering keeps e-mails unique. */
  lemma {:induction false} WhereKeepsUnique(rows: seq<ResetRow>, keep: ResetRow -> bool)
    requires UniqueEmails(rows)
    ensures UniqueEmails(Where(rows, keep))
  {
    if rows != [] {
      var tail := rows[1..];
      assert UniqueEmails(tail) by {
        forall i, j | 0 <= i < |tail| && 0 <= j < |tail| && tail[i].email == tail[j].email
          ensures i == j
        {
          assert rows[i + 1] == tail[i] && rows[j + 1] == tail[j];
        }
      }
      WhereKeepsUnique(tail, keep);
      var rest := Where(tail, keep);
      if keep(rows[0]) {
        forall row | row in rest ensures row.email != rows[0].email {
          var k :| 0 <= k < |tail| && tail[k] == row;
          assert rows[k + 1] == row;
        }
        var r := [rows[0]] + rest;
        forall i, j | 0 <= i < |r| && 0 <= j < |r| && r[i].email == r[j].email
          ensures i == j
        {
          if i > 0 { assert r[i] == rest[i - 1] && r[i] in rest; }
          if j > 0 { assert r[j] == rest[j - 1] && r[j] in rest; }
          if i > 0 && j > 0 { assert rest[i - 1].email == rest[j - 1].email; }
        }
      }
    }
  }

  lemma OneEmailAtMostOneRow(rows: seq<ResetRow>, email: string)
    requires UniqueEmails(rows)
    requires forall row :: row in rows ==> row.email == email
    ensures |rows| <= 1
  {
    if |rows| > 1 {
      FirstTwoRows(rows);
      assert false;
    }
  }

  lemma FirstTwoRows(rows: seq<ResetRow>)
    requires |rows| > 1
    ensures rows[0] in rows && rows[1] in rows
  {
  }

  /** In a table with at most one row per e-mail, several rows never match an
      (e-mail, code) pair, so `.single()` finds a row exactly when one exists. */
  lemma SelectFindsExisting(rows: seq<ResetRow>, email: string, code: string)
    requires UniqueEmails(rows)
    ensures SelectByCode(rows, email, code).Some?
        <==> exists row :: row in rows && row.email == email && row.code == code
    ensures forall row | row in rows && row.email == email && row.code == code ::
      SelectByCode(rows, email, code) == Some(row)
  {
    var keep := MatchesCode(email, code);
    var found := Where(rows, keep);
    WhereKeepsUnique(rows, keep);
    OneEmailAtMostOneRow(found, email);
    forall row | row in rows && row.email == email && row.code == code
      ensures SelectByCode(rows, email, code) == Some(row)
    {
      assert row in found;
      assert found[0] in found;
    }
  }

  /** Removing every row of an e-mail and appending one new row for it leaves
      exactly one row for that e-mail, and keeps e-mails unique. */
  lemma ReplaceKeepsUnique(rows: seq<ResetRow>, row: ResetRow)
    requires UniqueEmails(rows)
    ensures UniqueEmails(DeleteByEmail(rows, row.email) + [row])
  {
    var kept := DeleteByEmail(rows, row.email);
    WhereKeepsUnique(rows, OtherEmail(row.email));
    var r := kept + [row];
    forall i, j | 0 <= i < |r| && 0 <= j < |r| && r[i].email == r[j].email
      ensures i == j
    {
      if i < |kept| { assert r[i] in kept; }
      if j < |kept| { assert r[j] in kept; }
    }
  }

  lemma {:induction false} WhereNone(rows: seq<ResetRow>, keep: ResetRow -> bool)
    requires forall row :: row in rows ==> !keep(row)
    ensures Where(rows, keep) == []
  {
    if rows != [] {
      assert rows[0] in rows;
      WhereNone(rows[1..], keep);
    }
  }

  lemma {:induction false} WhereAppend(a: seq<ResetRow>, b: seq<ResetRow>, keep: ResetRow -> bool)
    ensures Where(a + b, keep) == Where(a, keep) + Where(b, keep)
  {
    if a == [] {
      assert a + b == b;
    } else {
      assert (a + b)[1..] == a[1..] + b;
      WhereAppend(a[1..], b, keep);
    }
  }

  /** After removing an e-mail's rows and appending one new row for it, that
      row is the only one the e-mail has. */
  lemma ReplaceLeavesOneRow(rows: seq<ResetRow>, row: ResetRow)
    ensures Where(DeleteByEmail(rows, row.email) + [row], SameEmail(row.email)) == [row]
    ensures Where(DeleteByEmail(rows, row.email), SameEmail(row.email)) == []
  {
    var kept := DeleteByEmail(rows, row.email);
    WhereNone(kept, SameEmail(row.email));
    WhereAppend(kept, [row], SameEmail(row.email));
  }

  lemma {:induction false} WhereNarrow(rows: seq<ResetRow>, wide: ResetRow -> bool, narrow: ResetRow -> bool)
    requires forall row :: narrow(row) ==> wide(row)
    ensures Where(Where(rows, wide), narrow) == Where(rows, narrow)
  {
    if rows != [] {
      WhereNarrow(rows[1..], wide, narrow);
      var head := if wide(rows[0]) then [rows[0]] else [];
      WhereAppend(head, Where(rows[1..], wide), narrow);
    }
  }

  /** When a row is the only one of its e-mail, `.single()` on its e-mail and
      code selects it. */
  lemma SoleRowIsSelected(rows: seq<ResetRow>, row: ResetRow)
    requires Where(rows, SameEmail(row.email)) == [row]
    ensures SelectByCode(rows, row.email, row.code) == Some(row)
  {
    WhereNarrow(rows, SameEmail(row.email), MatchesCode(row.email, row.code));
  }

  /** Once `.delete().eq('email', email).eq('code', code)` has run, a lookup of
      that pair finds nothing: a code is used at most once. */
  lemma DeletedCodeNotFound(rows: seq<ResetRow>, email: string, code: string)
    ensures SelectByCode(DeleteByCode(rows, email, code), email, code) == None
  {
    WhereNone(DeleteByCode(rows, email, code), MatchesCode(email, code));
  }
}
