/** The `parsed_resumes` table: one row per unique `filename`, written with
    `INSERT OR REPLACE`, listed newest upload first. A database whose table
    has not been created yet swallows writes (the `sqlite3.Error` is caught
    and printed) and reads back as empty. */
module Store {
  import opened Types
  import opened Seqs

  /** One row of `parsed_resumes` (the autoincrement id and the timestamp
      are represented by the row's position in the upload order). */
  datatype Record = Record(
    filename: string,
    email: string,
    skills: string,
    experience: string,
    education: string,
    fitScore: Option<real>,
    rawText: string,
    fileBytes: seq<Byte>)

  /** The columns `get_all_parsed_resumes` selects (`upload_date` aside). */
  datatype Listing = Listing(
    filename: string,
    email: string,
    skills: string,
    experience: string,
    education: string,
    fitScore: Option<real>)

  predicate Distinct(s: seq<string>) {
    forall i, j :: 0 <= i < j < |s| ==> s[i] != s[j]
  }

  /** Rows keyed by filename, with `order` listing every filename once,
      newest upload first. */
  datatype Table = Table(rows: map<string, Record>, order: seq<string>)

  predicate Valid(t: Table) {
    && (forall k :: k in t.rows ==> k in t.order)
    && (forall i :: 0 <= i < |t.order| ==> t.order[i] in t.rows)
    && Distinct(t.order)
    && (forall k :: k in t.rows ==> t.rows[k].filename == k)
  }

  type ValidTable = t: Table | Valid(t) witness Table(map[], [])

  /** The connection: `None` until `init_db` has created the table. */
  datatype Db = Db(table: Option<ValidTable>)

  /** `init_db`: `CREATE TABLE IF NOT EXISTS`. */
  function InitDb(db: Db): (r: Db)
    ensures r.table.Some?
    ensures db.table.Some? ==> r == db
    ensures db.table.None? ==> |r.table.value.rows| == 0
  {
    if db.table.Some? then db else Db(Some(Table(map[], [])))
  }

  /** Creating the table twice is creating it once. */
  lemma InitDbIdempotent(db: Db)
    ensures InitDb(InitDb(db)) == InitDb(db)
  {
  }

  /** The row `save_parsed_resume` writes for an entry. */
  function RecordOf(e: Entry): Record {
    Record(e.id, e.email, e.parsed.skills, e.parsed.experience, e.parsed.education,
           e.fitScore, e.text, e.bytes)
  }

  function ListingOf(r: Record): Listing {
    Listing(r.filename, r.email, r.skills, r.experience, r.education, r.fitScore)
  }

  /** `s` without any occurrence of `k`, order kept. */
  function Erase(s: seq<string>, k: string): (r: seq<string>)
    ensures forall x :: x in r <==> x in s && x != k
    ensures Distinct(s) ==> Distinct(r)
    ensures |r| <= |s|
    ensures IsSubsequence(r, s)
  {
    if |s| == 0 then []
    else
      var rest := Erase(s[1..], k);
      if s[0] == k then rest
      else
        assert Distinct(s) ==> s[0] !in s[1..];
        assert ([s[0]] + rest)[1..] == rest;
        [s[0]] + rest
  }

  /** Erasing a key that does not occur changes nothing. */
  lemma {:induction false} EraseAbsent(s: seq<string>, k: string)
    requires k !in s
    ensures Erase(s, k) == s
  {
    if |s| > 0 {
      EraseAbsent(s[1..], k);
    }
  }

  /** Erasing a key from `[k] + s` is erasing it from `s`. */
  lemma EraseCons(s: seq<string>, k: string)
    ensures Erase([k] + s, k) == Erase(s, k)
  {
    assert ([k] + s)[1..] == s;
  }

  /** `INSERT OR REPLACE`: the old row for the filename (if any) is deleted
      and the new one becomes the most recent upload. */
  function Upsert(t: ValidTable, r: Record): (u: ValidTable)
    ensures r.filename in u.rows && u.rows[r.filename] == r
    ensures forall k :: k != r.filename ==> (k in u.rows <==> k in t.rows)
    ensures forall k :: k != r.filename && k in t.rows ==> u.rows[k] == t.rows[k]
    ensures u.order[0] == r.filename
    ensures u.order[1..] == Erase(t.order, r.filename)
  {
    var kept := Erase(t.order, r.filename);
    UpsertValid(t, r);
    var u := Table(t.rows[r.filename := r], [r.filename] + kept);
    assert u.order[1..] == kept;
    u
  }

  lemma UpsertValid(t: ValidTable, r: Record)
    ensures Valid(Table(t.rows[r.filename := r], [r.filename] + Erase(t.order, r.filename)))
  {
    var kept := Erase(t.order, r.filename);
    var order := [r.filename] + kept;
    var rows := t.rows[r.filename := r];
    assert r.filename !in kept;
    forall i | 0 <= i < |order| ensures order[i] in rows {
      if i > 0 {
        assert order[i] == kept[i - 1];
        assert kept[i - 1] in kept;
      }
    }
    PrependDistinct(r.filename, kept);
  }

  lemma PrependDistinct(x: string, s: seq<string>)
    requires Distinct(s) && x !in s
    ensures Distinct([x] + s)
  {
    var o := [x] + s;
    forall i, j | 0 <= i < j < |o| ensures o[i] != o[j] {
      if i > 0 {
        assert o[i] == s[i - 1] && o[j] == s[j - 1];
      } else {
        assert o[j] == s[j - 1];
      }
    }
  }

  /** Saving the same row twice leaves the table as saving it once. */
  lemma UpsertIdempotent(t: ValidTable, r: Record)
    ensures Upsert(Upsert(t, r), r) == Upsert(t, r)
  {
    var once := Upsert(t, r);
    var e := Erase(t.order, r.filename);
    EraseCons(e, r.filename);
    EraseAbsent(e, r.filename);
    assert once.order == [r.filename] + e;
    assert Erase(once.order, r.filename) == e;
  }

  /** `save_parsed_resume`. */
  function SaveParsedResume(db: Db, e: Entry): (r: Db)
    ensures db.table.None? ==> r == db
    ensures r.table.Some? <==> db.table.Some?
    ensures r.table.Some? ==> e.id in r.table.value.rows && r.table.value.rows[e.id] == RecordOf(e)
    ensures r.table.Some? ==> forall k :: k != e.id ==> (k in r.table.value.rows <==> k in db.table.value.rows)
    ensures r.table.Some? ==> forall k :: k != e.id && k in db.table.value.rows ==>
      r.table.value.rows[k] == db.table.value.rows[k]
  {
    match db.table
    case None => db
    case Some(t) => Db(Some(Upsert(t, RecordOf(e))))
  }

  /** Saving the same entry twice is saving it once, and other filenames
      keep their rows. */
  lemma SaveIdempotent(db: Db, e: Entry)
    ensures SaveParsedResume(SaveParsedResume(db, e), e) == SaveParsedResume(db, e)
  {
    if db.table.Some? {
      UpsertIdempotent(db.table.value, RecordOf(e));
    }
  }

  /** The `UPDATE parsed_resumes SET fit_score = ? WHERE filename = ?` statement:
      sets the score of the named row, if present, and leaves every other
      row and the upload order as they were. */
  function SetFitScore(db: Db, filename: string, score: real): (r: Db)
    ensures r.table.None? <==> db.table.None?
    ensures r.table.Some? ==> r.table.value.order == db.table.value.order
    ensures r.table.Some? ==> r.table.value.rows.Keys == db.table.value.rows.Keys
    ensures r.table.Some? && filename in r.table.value.rows ==>
      r.table.value.rows[filename] == db.table.value.rows[filename].(fitScore := Some(score))
    ensures r.table.Some? ==> forall k :: k in db.table.value.rows && k != filename ==>
      r.table.value.rows[k] == db.table.value.rows[k]
  {
    match db.table
    case None => db
    case Some(t) =>
      if filename in t.rows then
        Db(Some(Table(t.rows[filename := t.rows[filename].(fitScore := Some(score))], t.order)))
      else db
  }

  /** The rows of a table, newest upload first. */
  function NewestFirst(t: ValidTable): (r: seq<Listing>)
    ensures |r| == |t.order|
    ensures forall i :: 0 <= i < |r| ==> r[i] == ListingOf(t.rows[t.order[i]])
  {
    seq(|t.order|, i requires 0 <= i < |t.order| => ListingOf(t.rows[t.order[i]]))
  }

  /** `get_all_parsed_resumes`: the rows newest first, or nothing when the
      table does not exist. */
  function GetAllParsedResumes(db: Db): (r: seq<Listing>)
    ensures db.table.None? ==> r == []
    ensures db.table.Some? ==> r == NewestFirst(db.table.value)
  {
    match db.table
    case None => []
    case Some(t) => NewestFirst(t)
  }

  /** The listing holds every stored row exactly once, as stored. */
  lemma ListingIsTable(db: Db)
    requires db.table.Some?
    ensures var r := GetAllParsedResumes(db); var rows := db.table.value.rows;
      && |r| == |rows|
      && (forall i :: 0 <= i < |r| ==> r[i].filename in rows && r[i] == ListingOf(rows[r[i].filename]))
      && (forall i, j :: 0 <= i < j < |r| ==> r[i].filename != r[j].filename)
      && (forall k :: k in rows ==> exists i :: 0 <= i < |r| && r[i].filename == k)
  {
    var t := db.table.value;
    var r := NewestFirst(t);
    OrderCoversRows(t);
    var n := |r|;
    forall i | 0 <= i < n ensures r[i].filename == t.order[i] {
    }
    forall k | k in t.rows ensures exists i :: 0 <= i < n && r[i].filename == k {
      var m :| 0 <= m < n && t.order[m] == k;
      assert r[m].filename == k;
    }
  }

  lemma OrderCoversRows(t: ValidTable)
    ensures |t.rows| == |t.order|
  {
    DistinctCard(t.order);
    assert t.rows.Keys == set k | k in t.order;
  }

  lemma {:induction false} DistinctCard(s: seq<string>)
    requires Distinct(s)
    ensures |set k | k in s| == |s|
  {
    if |s| > 0 {
      DistinctCard(s[1..]);
      assert (set k | k in s) == {s[0]} + (set k | k in s[1..]);
      assert s[0] !in s[1..];
    }
  }

  /** The row saved last is listed first. */
  lemma SavedRowListedFirst(db: Db, e: Entry)
    requires db.table.Some?
    ensures GetAllParsedResumes(SaveParsedResume(db, e))[0] == ListingOf(RecordOf(e))
  {
  }

  /** `get_resume_bytes_from_db`. */
  function GetResumeBytes(db: Db, filename: string): (r: Option<seq<Byte>>)
    ensures r.Some? <==> db.table.Some? && filename in db.table.value.rows
    ensures r.Some? ==> r.value == db.table.value.rows[filename].fileBytes
  {
    match db.table
    case None => None
    case Some(t) => if filename in t.rows then Some(t.rows[filename].fileBytes) else None
  }

  /** The bytes of the entry just saved are the ones read back. */
  lemma SaveThenGetBytes(db: Db, e: Entry)
    requires db.table.Some?
    ensures GetResumeBytes(SaveParsedResume(db, e), e.id) == Some(e.bytes)
  {
  }

  /** Saves every entry in turn, as the ingestion loop does. */
  function SaveAll(db: Db, es: seq<Entry>): (r: Db)
    ensures r.table.Some? <==> db.table.Some?
    ensures db.table.None? ==> r == db
    decreases |es|
  {
    if |es| == 0 then db
    else SaveParsedResume(SaveAll(db, es[..|es| - 1]), es[|es| - 1])
  }

  lemma SaveAllSnoc(db: Db, es: seq<Entry>, e: Entry)
    ensures SaveAll(db, es + [e]) == SaveParsedResume(SaveAll(db, es), e)
  {
    assert (es + [e])[..|es|] == es;
  }

  /** After a batch of saves the row for each saved filename is that of the
      last entry carrying it. */
  lemma {:induction false} SaveAllLatestWins(db: Db, es: seq<Entry>)
    requires db.table.Some?
    ensures forall i :: 0 <= i < |es| ==>
      var rows := SaveAll(db, es).table.value.rows;
      es[i].id in rows && (rows[es[i].id] == RecordOf(es[i]) || exists j :: i < j < |es| && es[j].id == es[i].id)
    decreases |es|
  {
    if |es| > 0 {
      var init := es[..|es| - 1];
      SaveAllLatestWins(db, init);
      var last := es[|es| - 1];
      var before := SaveAll(db, init).table.value.rows;
      var rows := SaveAll(db, es).table.value.rows;
      forall i | 0 <= i < |es|
        ensures es[i].id in rows && (rows[es[i].id] == RecordOf(es[i]) || exists j :: i < j < |es| && es[j].id == es[i].id)
      {
        if i < |es| - 1 && es[i].id != last.id {
          assert init[i] == es[i];
          if !(before[es[i].id] == RecordOf(es[i])) {
            var j :| i < j < |init| && init[j].id == init[i].id;
            assert es[j].id == es[i].id;
          }
        } else if i < |es| - 1 {
          assert es[|es| - 1].id == es[i].id;
        }
      }
    }
  }

  /** A batch of saves leaves the row of every filename it does not carry
      as it was. */
  lemma {:induction false} SaveAllOthersUntouched(db: Db, es: seq<Entry>, k: string)
    requires db.table.Some?
    requires forall i :: 0 <= i < |es| ==> es[i].id != k
    ensures k in SaveAll(db, es).table.value.rows <==> k in db.table.value.rows
    ensures k in db.table.value.rows ==> SaveAll(db, es).table.value.rows[k] == db.table.value.rows[k]
    decreases |es|
  {
    if |es| > 0 {
      var init := es[..|es| - 1];
      assert forall i :: 0 <= i < |init| ==> init[i] == es[i];
      SaveAllOthersUntouched(db, init, k);
    }
  }

  /** When every saved entry carries no score, every saved filename reads
      back with a null `fit_score`. */
  lemma SaveAllUnscored(db: Db, es: seq<Entry>)
    requires db.table.Some?
    requires forall i :: 0 <= i < |es| ==> es[i].fitScore.None?
    ensures forall i :: 0 <= i < |es| ==>
      var rows := SaveAll(db, es).table.value.rows;
      es[i].id in rows && rows[es[i].id].fitScore.None?
  {
    SaveAllLatestWins(db, es);
    var rows := SaveAll(db, es).table.value.rows;
    forall i | 0 <= i < |es|
      ensures rows[es[i].id].fitScore.None?
    {
      LatestWith(es, i, rows);
    }
  }

  /** Follows "a later entry with the same filename" to the last one, which
      is the row read back. */
  lemma {:induction false} LatestWith(es: seq<Entry>, i: nat, rows: map<string, Record>)
    requires i < |es|
    requires forall j :: 0 <= j < |es| ==> es[j].fitScore.None?
    requires forall j :: 0 <= j < |es| ==>
      es[j].id in rows && (rows[es[j].id] == RecordOf(es[j]) || exists m :: j < m < |es| && es[m].id == es[j].id)
    ensures rows[es[i].id].fitScore.None?
    decreases |es| - i
  {
    if rows[es[i].id] != RecordOf(es[i]) {
      var m :| i < m < |es| && es[m].id == es[i].id;
      LatestWith(es, m, rows);
    }
  }
}
