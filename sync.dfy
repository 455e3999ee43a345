/**
 * The stateful part of ApplicantResume: the local ledger table and the
 * methods that read it, query the applicant database, and record each
 * handled applicant.
 *
 * The outside world enters as parameters: `readOk` says whether the ledger's
 * SELECT succeeds, `db` maps a query string to the rows MySQL returns (`None`
 * when the query throws), and `downloaded(i)` / `inserted(i)` say whether the
 * object store delivered, and the ledger accepted, the row at position i of
 * the candidate list.
 */
module Sync {
  import opened Wrappers
  import opened Records
  import opened ApplicantFiles
  import opened Query
  import opened RunSpec

  /** The SQLite `applicants` table, its rows in storage order. */
  class Ledger {
    var entries: seq<Entry>

    constructor (entries: seq<Entry>)
      ensures this.entries == entries
    {
      this.entries := entries;
    }
  }

  class ApplicantResume {
    /** PHP's `__DIR__`: the directory the script lives in. */
    const dir: string
    /** The SQLite connection, standing for the table it reaches. */
    const ledger: Ledger

    constructor (dir: string, ledger: Ledger)
      ensures this.dir == dir && this.ledger == ledger
    {
      this.dir := dir;
      this.ledger := ledger;
    }

    /**
     * `_exemptedApplicants`: the ids of the ledger's rows in row order, or the
     * empty list when the SELECT throws.
     */
    method ExemptedApplicants(readOk: bool) returns (exempted: seq<nat>)
      ensures exempted == (if readOk then Ids(ledger.entries) else [])
    {
      if !readOk {
        return [];
      }
      var rows := ledger.entries;
      exempted := [];
      var i := 0;
      while i < |rows|
        invariant 0 <= i <= |rows|
        invariant exempted == Ids(rows[..i])
      {
        assert rows[..i + 1][..i] == rows[..i];
        exempted := exempted + [rows[i].id];
        i := i + 1;
      }
      assert rows[..i] == rows;
    }

    /**
     * `_getApplicants`: send the candidate query and collect the rows in the
     * order the database returns them; `None` (PHP's `false`) when it throws.
     */
    method GetApplicants(exempted: seq<nat>, db: string -> Option<seq<Applicant>>)
      returns (applicants: Option<seq<Applicant>>)
      ensures applicants == db(CandidateQuery(exempted))
    {
      var query := CandidateQuery(exempted);
      var statement := db(query);
      if statement.None? {
        return None;
      }
      var rows := statement.value;
      var collected := [];
      var i := 0;
      while i < |rows|
        invariant 0 <= i <= |rows|
        invariant collected == rows[..i]
      {
        collected := collected + [rows[i]];
        i := i + 1;
      }
      assert rows[..i] == rows;
      return Some(collected);
    }

    /**
     * `_saveToExempted`: insert the applicant's id, its stored path and
     * `sent` false. A failed insert returns false and leaves the table as it was.
     */
    method SaveToExempted(a: Applicant, localFile: Option<string>, inserted: bool) returns (saved: bool)
      modifies ledger
      ensures saved == inserted
      ensures ledger.entries == old(ledger.entries)
        + (if inserted then [Entry(a.userId, StoredPath(dir, localFile), false)] else [])
    {
      if inserted {
        ledger.entries := ledger.entries + [Entry(a.userId, StoredPath(dir, localFile), false)];
      }
      saved := inserted;
    }

    /**
     * `fire`: load the exempted ids, query the candidates, and for every
     * candidate with a resume download it and record it. Returns `Some(true)`
     * after the loop and `None` (PHP's missing return value) when the query
     * failed, in which case nothing is downloaded or recorded. `downloads` is
     * the sequence of object-store requests made.
     */
    method Fire(readOk: bool, db: string -> Option<seq<Applicant>>, downloaded: nat -> bool, inserted: nat -> bool)
      returns (result: Option<bool>, downloads: seq<Download>)
      modifies ledger
      ensures var candidates := db(CandidateQuery(if readOk then Ids(old(ledger.entries)) else []));
        && result == (if candidates.Some? then Some(true) else None)
        && downloads == (if candidates.Some? then Downloads(dir, candidates.value) else [])
        && ledger.entries == old(ledger.entries)
             + (if candidates.Some? then Committed(dir, candidates.value, downloaded, inserted) else [])
    {
      var exempted := ExemptedApplicants(readOk);
      var applicants := GetApplicants(exempted, db);
      if applicants.None? {
        return None, [];
      }
      downloads := HandleCandidates(applicants.value, downloaded, inserted);
      result := Some(true);
    }

    /**
     * The `foreach` of `fire`: every row with a resume is fetched and then
     * recorded, in candidate order, whatever happened to the rows before it.
     */
    method HandleCandidates(rows: seq<Applicant>, downloaded: nat -> bool, inserted: nat -> bool)
      returns (downloads: seq<Download>)
      modifies ledger
      ensures downloads == Downloads(dir, rows)
      ensures ledger.entries == old(ledger.entries) + Committed(dir, rows, downloaded, inserted)
    {
      downloads := [];
      for i := 0 to |rows|
        invariant downloads == Downloads(dir, rows[..i])
        invariant ledger.entries == old(ledger.entries) + Committed(dir, rows[..i], downloaded, inserted)
      {
        RunStep(dir, rows, downloaded, inserted, i);
        var row := rows[i];
        if HasResume(row) {
          downloads := downloads + [DownloadRequest(dir, row)];
          var newFile := GetFile(dir, row, downloaded(i));
          var _ := SaveToExempted(row, newFile, inserted(i));
        }
      }
      assert rows[..|rows|] == rows;
    }
  }
}
