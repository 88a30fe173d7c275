/** The author table of backend/database.py. SQLite is not modelled; the table is its
    rows in rowid order plus the next AUTOINCREMENT id. `UNIQUE(email)` with
    `INSERT OR REPLACE` deletes the row that holds the e-mail and inserts a fresh row,
    so the table behaves as a map from e-mail to author. The `created_at` timestamp
    and the JSON text of the affiliations are left out: the list itself is stored. */
module Database {
  import opened Common
  import opened Profiling

  datatype Row = Row(
    id: nat,
    name: string,
    email: string,
    affiliations: seq<string>,
    paperTitle: Option<string>,
    paperId: Option<string>,
    journal: Option<string>)

  datatype Table = Table(rows: seq<Row>, nextId: nat)

  predicate AscendingIds(rows: seq<Row>) {
    forall i, j :: 0 <= i < j < |rows| ==> rows[i].id < rows[j].id
  }

  predicate UniqueEmails(rows: seq<Row>) {
    forall i, j :: 0 <= i < j < |rows| ==> rows[i].email != rows[j].email
  }

  /** What SQLite maintains: ids ascending and below the next id, e-mails unique. */
  predicate Valid(t: Table) {
    && AscendingIds(t.rows)
    && UniqueEmails(t.rows)
    && (forall r :: r in t.rows ==> r.id < t.nextId)
  }

  /** `init_db`: the empty table. */
  function Empty(): (t: Table)
    ensures Valid(t) && |t.rows| == 0
  {
    Table([], 1)
  }

  /** The rows as the map from e-mail to row that `UNIQUE(email)` makes them; a later
      row wins. */
  function View(rows: seq<Row>): map<string, Row>
    decreases |rows|
  {
    if |rows| == 0 then map[] else View(rows[..|rows| - 1])[rows[|rows| - 1].email := rows[|rows| - 1]]
  }

  lemma ViewSnoc(rows: seq<Row>, row: Row)
    ensures View(rows + [row]) == View(rows)[row.email := row]
  {
    assert (rows + [row])[..|rows|] == rows;
  }

  /** Every key of the view is the e-mail of a stored row. */
  lemma {:induction false} ViewKeys(rows: seq<Row>)
    ensures forall e :: e in View(rows) ==> exists i :: 0 <= i < |rows| && rows[i].email == e
    decreases |rows|
  {
    if |rows| > 0 {
      var n := |rows| - 1;
      var front := rows[..n];
      ViewKeys(front);
      forall e | e in View(rows)
        ensures exists i :: 0 <= i < |rows| && rows[i].email == e
      {
        if e != rows[n].email {
          assert e in View(front);
          var i :| 0 <= i < n && front[i].email == e;
          assert rows[i].email == e;
        }
      }
    }
  }

  /** With unique e-mails every stored row is the view's entry for its e-mail. */
  lemma {:induction false} ViewHoldsRows(rows: seq<Row>)
    requires UniqueEmails(rows)
    ensures forall i :: 0 <= i < |rows| ==> rows[i].email in View(rows) && View(rows)[rows[i].email] == rows[i]
    decreases |rows|
  {
    if |rows| > 0 {
      var n := |rows| - 1;
      var front := rows[..n];
      assert forall i :: 0 <= i < n ==> front[i] == rows[i];
      ViewHoldsRows(front);
    }
  }

  /** The rows whose e-mail is not `email`, in order: what the REPLACE deletes leaves. */
  function Without(rows: seq<Row>, email: string): (r: seq<Row>)
    ensures |r| <= |rows|
    ensures forall x :: x in r <==> x in rows && x.email != email
    decreases |rows|
  {
    if |rows| == 0 then []
    else
      var n := |rows| - 1;
      var rest := Without(rows[..n], email);
      assert forall x :: x in rows <==> x in rows[..n] || x == rows[n] by {
        assert rows == rows[..n] + [rows[n]];
      }
      if rows[n].email == email then rest else rest + [rows[n]]
  }

  /** The map without the key `email`. */
  function Drop(m: map<string, Row>, email: string): (r: map<string, Row>)
    ensures email !in r
    ensures forall e :: e != email ==> (e in r <==> e in m) && (e in m ==> r[e] == m[e])
  {
    map e | e in m && e != email :: m[e]
  }

  lemma DropUpdateOther(m: map<string, Row>, email: string, row: Row)
    requires row.email != email
    ensures Drop(m[row.email := row], email) == Drop(m, email)[row.email := row]
  {
  }

  lemma DropUpdateSame(m: map<string, Row>, row: Row)
    ensures Drop(m[row.email := row], row.email) == Drop(m, row.email)
  {
  }

  /** Deleting an e-mail's row removes just that key from the view. */
  lemma {:induction false} ViewWithout(rows: seq<Row>, email: string)
    ensures View(Without(rows, email)) == Drop(View(rows), email)
    decreases |rows|
  {
    if |rows| > 0 {
      var n := |rows| - 1;
      ViewWithout(rows[..n], email);
      if rows[n].email != email {
        ViewSnoc(Without(rows[..n], email), rows[n]);
        DropUpdateOther(View(rows[..n]), email, rows[n]);
      } else {
        DropUpdateSame(View(rows[..n]), rows[n]);
      }
    }
  }

  /** Appending a row with a larger id and a new e-mail keeps ordering and
      uniqueness. */
  lemma SnocValid(rows: seq<Row>, row: Row)
    requires AscendingIds(rows) && UniqueEmails(rows)
    requires forall x :: x in rows ==> x.id < row.id && x.email != row.email
    ensures AscendingIds(rows + [row]) && UniqueEmails(rows + [row])
  {
    var r := rows + [row];
    forall i, j | 0 <= i < j < |r|
      ensures r[i].id < r[j].id && r[i].email != r[j].email
    {
      assert r[i] == rows[i];
      if j < |rows| {
        assert r[j] == rows[j];
      } else {
        assert rows[i] in rows;
      }
    }
  }

  /** Deleting keeps the table's ordering and uniqueness. */
  lemma {:induction false} WithoutValid(rows: seq<Row>, email: string)
    requires AscendingIds(rows) && UniqueEmails(rows)
    ensures AscendingIds(Without(rows, email)) && UniqueEmails(Without(rows, email))
    decreases |rows|
  {
    if |rows| > 0 {
      var n := |rows| - 1;
      var front := rows[..n];
      assert forall i :: 0 <= i < n ==> front[i] == rows[i];
      WithoutValid(front, email);
      if rows[n].email != email {
        forall x | x in front
          ensures x.id < rows[n].id && x.email != rows[n].email
        {
          var a :| 0 <= a < n && front[a] == x;
        }
        SnocValid(Without(front, email), rows[n]);
      }
    }
  }

  /** `add_author` accepts the author: `emails` is a non-empty list whose first entry
      is not empty. */
  predicate Storable(p: Profile) {
    p.emails.Some? && |p.emails.value| > 0 && p.emails.value[0] != ""
  }

  /** The row `add_author` writes for `p` under id `id`. */
  function NewRow(p: Profile, id: nat): (row: Row)
    requires Storable(p)
    ensures row.email == p.emails.value[0] && row.id == id
    ensures row.name == p.name && row.affiliations == p.affiliations
    ensures row.paperTitle == p.paperTitle && row.paperId == p.paperId && row.journal == p.journal
  {
    Row(id, p.name, p.emails.value[0], p.affiliations, p.paperTitle, p.paperId, p.journal)
  }

  /** `add_author`: reject an author without a usable first e-mail and leave the table
      alone; otherwise replace whatever row holds that e-mail by a new row at the end,
      and report success whether or not a row was replaced. */
  function AddAuthor(t: Table, p: Profile): (res: (bool, Table))
    ensures res.0 <==> Storable(p)
    ensures !res.0 ==> res.1 == t
    ensures res.0 ==> res.1.rows == Without(t.rows, p.emails.value[0]) + [NewRow(p, t.nextId)]
    ensures res.0 ==> res.1.nextId == t.nextId + 1
  {
    if p.emails.None? || |p.emails.value| == 0 then (false, t)
    else
      var email := p.emails.value[0];
      if email == "" then (false, t)
      else (true, Table(Without(t.rows, email) + [NewRow(p, t.nextId)], t.nextId + 1))
  }

  /** The table stays valid. */
  lemma AddAuthorValid(t: Table, p: Profile)
    requires Valid(t)
    ensures Valid(AddAuthor(t, p).1)
  {
    if Storable(p) {
      var email := p.emails.value[0];
      WithoutValid(t.rows, email);
      SnocValid(Without(t.rows, email), NewRow(p, t.nextId));
    }
  }

  /** Upsert by e-mail: after a successful call the e-mail maps to the new row and
      every other e-mail keeps its row; a rejected call changes nothing. */
  lemma AddAuthorUpserts(t: Table, p: Profile)
    ensures Storable(p) ==> View(AddAuthor(t, p).1.rows) == View(t.rows)[p.emails.value[0] := NewRow(p, t.nextId)]
    ensures !Storable(p) ==> View(AddAuthor(t, p).1.rows) == View(t.rows)
  {
    if Storable(p) {
      var email := p.emails.value[0];
      ViewWithout(t.rows, email);
      ViewSnoc(Without(t.rows, email), NewRow(p, t.nextId));
    }
  }

  /** Exactly one row holds the e-mail after a successful call, and it is the new one. */
  lemma AddAuthorSingleRow(t: Table, p: Profile)
    requires Valid(t) && Storable(p)
    ensures var rows := AddAuthor(t, p).1.rows;
            forall i :: 0 <= i < |rows| ==> (rows[i].email == p.emails.value[0] <==> rows[i] == NewRow(p, t.nextId))
  {
    var rows := AddAuthor(t, p).1.rows;
    AddAuthorValid(t, p);
    assert rows[|rows| - 1] == NewRow(p, t.nextId);
  }

  /** `get_all_authors`: every stored row, in rowid order. */
  function GetAllAuthors(t: Table): (r: seq<Row>)
    requires Valid(t)
    ensures forall i :: 0 <= i < |r| ==> r[i].email in View(t.rows) && View(t.rows)[r[i].email] == r[i]
    ensures forall e :: e in View(t.rows) ==> exists i :: 0 <= i < |r| && r[i].email == e
    ensures forall i, j :: 0 <= i < j < |r| ==> r[i].id < r[j].id && r[i].email != r[j].email
  {
    ViewKeys(t.rows);
    ViewHoldsRows(t.rows);
    t.rows
  }

  /** A CSV cell: text, an SQL NULL (written empty), or the JSON text of a list. */
  datatype Cell = Text(text: string) | Null | JsonList(items: seq<string>)

  const Header: seq<Cell> := [Text("Name"), Text("Email"), Text("Affiliations"), Text("Paper Title"), Text("Paper ID"), Text("Journal")]

  function OptCell(v: Option<string>): Cell {
    match v case Some(s) => Text(s) case None => Null
  }

  /** The six selected columns of one row. */
  function CsvRow(row: Row): (cells: seq<Cell>)
    ensures |cells| == |Header|
  {
    [Text(row.name), Text(row.email), JsonList(row.affiliations), OptCell(row.paperTitle), OptCell(row.paperId), OptCell(row.journal)]
  }

  /** `export_to_csv` before serialisation: the header, then one line per row. */
  function ExportRows(t: Table): (lines: seq<seq<Cell>>)
    ensures |lines| == |t.rows| + 1 && lines[0] == Header
    ensures forall k :: 0 <= k < |lines| ==> |lines[k]| == 6
    ensures forall k :: 0 <= k < |t.rows| ==> lines[k + 1][1] == Text(t.rows[k].email)
    ensures forall k :: 0 <= k < |t.rows| ==> lines[k + 1][0] == Text(t.rows[k].name)
  {
    [Header] + seq(|t.rows|, k requires 0 <= k < |t.rows| => CsvRow(t.rows[k]))
  }
}
