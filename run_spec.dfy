/**
 * What one run of `fire` does with a candidate list, as functions of the
 * rows and of the outcomes the pipeline cannot foresee: whether the object
 * store delivered row i's resume (`downloaded(i)`) and whether the ledger
 * accepted row i's insert (`inserted(i)`), i being the row's position in the
 * candidate list. The functions are defined row by row, in candidate order,
 * as the loop runs; the lemmas say what that amounts to.
 */
module RunSpec {
  import opened Wrappers
  import opened Records
  import opened ApplicantFiles
  import opened Query

  /** The positions of the rows the loop handles: exactly those with a resume, each once, in order. */
  function Processed(rows: seq<Applicant>): (idx: seq<nat>)
    ensures forall k :: 0 <= k < |idx| ==> idx[k] < |rows| && HasResume(rows[idx[k]])
    ensures forall k, l :: 0 <= k < l < |idx| ==> idx[k] < idx[l]
    ensures forall i :: 0 <= i < |rows| && HasResume(rows[i]) ==> i in idx
  {
    if rows == [] then []
    else
      var n := |rows| - 1;
      assert forall i :: 0 <= i < n ==> rows[..n][i] == rows[i];
      Processed(rows[..n]) + (if HasResume(rows[n]) then [n] else [])
  }

  /** The `getObject` requests of a run, one per handled row. */
  function Downloads(dir: string, rows: seq<Applicant>): seq<Download>
  {
    if rows == [] then []
    else
      var n := |rows| - 1;
      Downloads(dir, rows[..n]) + (if HasResume(rows[n]) then [DownloadRequest(dir, rows[n])] else [])
  }

  /** The row `_saveToExempted` inserts for an applicant: its id, the stored path, and `sent` false. */
  function EntryFor(dir: string, a: Applicant, downloaded: bool): Entry
  {
    Entry(a.userId, StoredPath(dir, GetFile(dir, a, downloaded)), false)
  }

  /** The ledger rows a run adds: one per handled row whose insert succeeded. */
  function Committed(dir: string, rows: seq<Applicant>, downloaded: nat -> bool, inserted: nat -> bool): seq<Entry>
  {
    if rows == [] then []
    else
      var n := |rows| - 1;
      Committed(dir, rows[..n], downloaded, inserted)
        + (if HasResume(rows[n]) && inserted(n) then [EntryFor(dir, rows[n], downloaded(n))] else [])
  }

  /** The ids of ledger rows, in row order. */
  function Ids(entries: seq<Entry>): (ids: seq<nat>)
    ensures |ids| == |entries|
    ensures forall k :: 0 <= k < |entries| ==> ids[k] == entries[k].id
  {
    if entries == [] then []
    else
      var n := |entries| - 1;
      assert forall k :: 0 <= k < n ==> entries[..n][k] == entries[k];
      Ids(entries[..n]) + [entries[n].id]
  }

  /** The run issues one download per handled row, in candidate order, for that row's key and local file. */
  lemma {:induction false} DownloadsFollowProcessed(dir: string, rows: seq<Applicant>)
    ensures |Downloads(dir, rows)| == |Processed(rows)|
    ensures forall k :: 0 <= k < |Processed(rows)| ==>
      Downloads(dir, rows)[k] == DownloadRequest(dir, rows[Processed(rows)[k]])
    decreases |rows|
  {
    if rows != [] {
      var n := |rows| - 1;
      var init := rows[..n];
      DownloadsFollowProcessed(dir, init);
      forall k | 0 <= k < |Processed(init)|
        ensures init[Processed(init)[k]] == rows[Processed(init)[k]]
      {
      }
    }
  }

  /**
   * An entry is committed exactly when it is the entry of a row that has a
   * resume and whose insert succeeded; its path is the stored path of that
   * row's download (empty when the download failed) and `sent` is false.
   */
  lemma {:induction false} CommittedExactly(dir: string, rows: seq<Applicant>, downloaded: nat -> bool, inserted: nat -> bool, e: Entry)
    ensures e in Committed(dir, rows, downloaded, inserted) <==>
      exists i :: 0 <= i < |rows| && HasResume(rows[i]) && inserted(i) && e == EntryFor(dir, rows[i], downloaded(i))
    decreases |rows|
  {
    if rows != [] {
      var n := |rows| - 1;
      var init := rows[..n];
      CommittedExactly(dir, init, downloaded, inserted, e);
      var ci := Committed(dir, init, downloaded, inserted);
      var last := if HasResume(rows[n]) && inserted(n) then [EntryFor(dir, rows[n], downloaded(n))] else [];
      assert Committed(dir, rows, downloaded, inserted) == ci + last;
      if e in ci {
        var i :| 0 <= i < |init| && HasResume(init[i]) && inserted(i) && e == EntryFor(dir, init[i], downloaded(i));
        assert rows[i] == init[i];
      } else if e !in last {
        forall i | 0 <= i < |rows| && HasResume(rows[i]) && inserted(i)
          ensures e != EntryFor(dir, rows[i], downloaded(i))
        {
          if i < n {
            assert init[i] == rows[i];
          }
        }
      }
    }
  }

  /** When every insert succeeds, the run commits one entry per handled row, in candidate order. */
  lemma {:induction false} CommittedWhenAllInserted(dir: string, rows: seq<Applicant>, downloaded: nat -> bool, inserted: nat -> bool)
    requires forall i :: 0 <= i < |rows| && HasResume(rows[i]) ==> inserted(i)
    ensures |Committed(dir, rows, downloaded, inserted)| == |Processed(rows)|
    ensures forall k :: 0 <= k < |Processed(rows)| ==>
      Committed(dir, rows, downloaded, inserted)[k] == EntryFor(dir, rows[Processed(rows)[k]], downloaded(Processed(rows)[k]))
    decreases |rows|
  {
    if rows != [] {
      var n := |rows| - 1;
      var init := rows[..n];
      assert forall i :: 0 <= i < |init| ==> init[i] == rows[i];
      CommittedWhenAllInserted(dir, init, downloaded, inserted);
      var c, ci := Committed(dir, rows, downloaded, inserted), Committed(dir, init, downloaded, inserted);
      var p, pi := Processed(rows), Processed(init);
      assert c == ci + (if HasResume(rows[n]) then [EntryFor(dir, rows[n], downloaded(n))] else []);
      assert p == pi + (if HasResume(rows[n]) then [n] else []);
      forall k | 0 <= k < |p| ensures c[k] == EntryFor(dir, rows[p[k]], downloaded(p[k])) {
        if k < |pi| {
          assert c[k] == ci[k] && p[k] == pi[k];
          assert init[pi[k]] == rows[pi[k]];
        }
      }
    }
  }

  /** One more row extends the run's requests and commitments by that row's own. */
  lemma RunStep(dir: string, rows: seq<Applicant>, downloaded: nat -> bool, inserted: nat -> bool, i: nat)
    requires i < |rows|
    ensures Downloads(dir, rows[..i + 1])
      == Downloads(dir, rows[..i]) + (if HasResume(rows[i]) then [DownloadRequest(dir, rows[i])] else [])
    ensures Committed(dir, rows[..i + 1], downloaded, inserted)
      == Committed(dir, rows[..i], downloaded, inserted)
         + (if HasResume(rows[i]) && inserted(i) then [EntryFor(dir, rows[i], downloaded(i))] else [])
  {
    var pre := rows[..i + 1];
    assert pre[..i] == rows[..i] && pre[i] == rows[i];
  }

  /** A failed download does not stop the run: the row is still committed, with an empty path. */
  lemma {:induction false} FailedDownloadIsRecorded(dir: string, rows: seq<Applicant>, downloaded: nat -> bool, inserted: nat -> bool, i: nat)
    requires i < |rows| && HasResume(rows[i]) && !downloaded(i) && inserted(i)
    ensures Entry(rows[i].userId, "", false) in Committed(dir, rows, downloaded, inserted)
  {
    FailedDownloadStoresEmptyPath(dir, rows[i]);
    CommittedExactly(dir, rows, downloaded, inserted, Entry(rows[i].userId, "", false));
  }

  /**
   * Partial-failure isolation: a handled row whose insert succeeds is
   * committed whatever happened to the other rows' downloads and inserts.
   */
  lemma {:induction false} HandledRowIsCommitted(dir: string, rows: seq<Applicant>, downloaded: nat -> bool, inserted: nat -> bool, i: nat)
    requires i < |rows| && HasResume(rows[i]) && inserted(i)
    ensures EntryFor(dir, rows[i], downloaded(i)) in Committed(dir, rows, downloaded, inserted)
  {
    CommittedExactly(dir, rows, downloaded, inserted, EntryFor(dir, rows[i], downloaded(i)));
  }

  /** Rows without a resume cause neither a download nor a ledger entry. */
  lemma RowsWithoutResumeAreSkipped(dir: string, rows: seq<Applicant>, downloaded: nat -> bool, inserted: nat -> bool, i: nat)
    requires i < |rows| && !HasResume(rows[i])
    ensures i !in Processed(rows)
    ensures forall e :: e in Committed(dir, rows, downloaded, inserted) ==> e.id == rows[i].userId ==>
      exists j :: 0 <= j < |rows| && j != i && HasResume(rows[j]) && rows[j].userId == e.id
  {
    forall e | e in Committed(dir, rows, downloaded, inserted) && e.id == rows[i].userId
      ensures exists j :: 0 <= j < |rows| && j != i && HasResume(rows[j]) && rows[j].userId == e.id
    {
      CommittedExactly(dir, rows, downloaded, inserted, e);
      var j :| 0 <= j < |rows| && HasResume(rows[j]) && inserted(j) && e == EntryFor(dir, rows[j], downloaded(j));
      assert j != i;
    }
  }

  /**
   * The SQL engine keeps its side of the bargain: every row it returns for a
   * query with a readable exclusion list has an id outside that list.
   */
  ghost predicate HonoursExclusion(db: string -> Option<seq<Applicant>>)
  {
    forall q :: db(q).Some? && ExcludedIds(q).Some? ==>
      forall a :: a in db(q).value ==> a.userId !in ExcludedIds(q).value
  }

  /**
   * After a run in which every handled row's insert succeeded, each such
   * row's id is in the ledger, and the next run's query (with the ledger
   * readable) excludes exactly the ledger's ids.
   */
  lemma NextQueryExcludesCommitted(dir: string, ledger: seq<Entry>, rows: seq<Applicant>, downloaded: nat -> bool, inserted: nat -> bool)
    requires forall i :: 0 <= i < |rows| && HasResume(rows[i]) ==> inserted(i)
    ensures forall i :: 0 <= i < |rows| && HasResume(rows[i]) ==>
      rows[i].userId in Ids(ledger + Committed(dir, rows, downloaded, inserted))
    ensures ExcludedIds(CandidateQuery(Ids(ledger + Committed(dir, rows, downloaded, inserted))))
      == Some(Ids(ledger + Committed(dir, rows, downloaded, inserted)))
  {
    var after := ledger + Committed(dir, rows, downloaded, inserted);
    forall i | 0 <= i < |rows| && HasResume(rows[i]) ensures rows[i].userId in Ids(after) {
      var e := EntryFor(dir, rows[i], downloaded(i));
      CommittedExactly(dir, rows, downloaded, inserted, e);
      assert inserted(i) && e == EntryFor(dir, rows[i], downloaded(i));
      assert e in after;
      var k :| 0 <= k < |after| && after[k] == e;
      assert Ids(after)[k] == rows[i].userId;
    }
    CandidateQueryExcludesExactly(Ids(after));
  }

  /**
   * Idempotence: against a database that honours the exclusion list, the
   * next run's candidates contain no applicant the ledger records, and so
   * none whose entry this run committed, whichever downloads and inserts
   * failed.
   */
  lemma NextRunSkipsCommitted(dir: string, ledger: seq<Entry>, rows: seq<Applicant>, downloaded: nat -> bool, inserted: nat -> bool,
                              db: string -> Option<seq<Applicant>>)
    requires HonoursExclusion(db)
    ensures var next := db(CandidateQuery(Ids(ledger + Committed(dir, rows, downloaded, inserted))));
      next.Some? ==> forall a :: a in next.value ==> a.userId !in Ids(ledger + Committed(dir, rows, downloaded, inserted))
    ensures var next := db(CandidateQuery(Ids(ledger + Committed(dir, rows, downloaded, inserted))));
      next.Some? ==> forall a, e :: a in next.value && e in Committed(dir, rows, downloaded, inserted) ==> a.userId != e.id
  {
    var c := Committed(dir, rows, downloaded, inserted);
    var after := ledger + c;
    var ids := Ids(after);
    CandidateQueryExcludesExactly(ids);
    var q := CandidateQuery(ids);
    assert ExcludedIds(q) == Some(ids);
    forall e | e in c ensures e.id in ids {
      var k :| 0 <= k < |c| && c[k] == e;
      assert after[|ledger| + k] == e;
      assert ids[|ledger| + k] == e.id;
    }
  }

  /**
   * After a run in which every handled row's insert succeeded, no handled
   * applicant is among the next run's candidates.
   */
  lemma NextRunSkipsHandled(dir: string, ledger: seq<Entry>, rows: seq<Applicant>, downloaded: nat -> bool, inserted: nat -> bool,
                            db: string -> Option<seq<Applicant>>)
    requires forall i :: 0 <= i < |rows| && HasResume(rows[i]) ==> inserted(i)
    requires HonoursExclusion(db)
    ensures var next := db(CandidateQuery(Ids(ledger + Committed(dir, rows, downloaded, inserted))));
      next.Some? ==> forall a, i :: a in next.value && 0 <= i < |rows| && HasResume(rows[i]) ==> a.userId != rows[i].userId
  {
    NextQueryExcludesCommitted(dir, ledger, rows, downloaded, inserted);
    NextRunSkipsCommitted(dir, ledger, rows, downloaded, inserted, db);
  }
}
