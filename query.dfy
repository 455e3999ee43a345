/**
 * The candidate query of `_getApplicants`: a fixed SELECT over the
 * applications joined with their personal data, filtered to rows with a
 * resume, and, once some applicants are recorded in the ledger, a
 * `NOT IN ( ... )` list of their ids rendered by `implode(", ", $exempted)`.
 *
 * `ExcludedIds` reads the id list back out of a query string; it is the
 * partner that shows the query names exactly the exempted ids, in order.
 */
module Query {
  import opened Wrappers
  import opened PhpStrings

  const SelectLine := "SELECT app.user_id, app.resume_file, pi.given_name, pi.additional_name, pi.family_name FROM applications as app"
  const JoinLine := "LEFT JOIN personal_info as pi ON pi.user_id = app.user_id"
  /** The literal spans three source lines; the second and third start with 50 spaces. */
  const Indent := "                                                  "
  const ResumeFilter := "app.resume_file > ''"
  const WherePrefix := SelectLine + "\n" + Indent + JoinLine + "\n" + Indent + "where "

  /** The query without exclusions; note its trailing space. */
  const BaseQuery := WherePrefix + ResumeFilter + " "

  const NotInOpen := " AND app.user_id NOT IN ( "
  const NotInClose := " )"
  const IdGlue := ", "

  /** Each id as PHP renders an integer in `implode`. */
  function IdTexts(ids: seq<nat>): (texts: seq<string>)
    ensures |texts| == |ids|
  {
    seq(|ids|, i requires 0 <= i < |ids| => IntToString(ids[i]))
  }

  /** `implode(", ", $exempted)` */
  function IdList(ids: seq<nat>): string
  {
    Implode(IdGlue, IdTexts(ids))
  }

  /** The query `_getApplicants` sends for the given exempted ids. */
  function CandidateQuery(exempted: seq<nat>): string
  {
    if |exempted| > 0 then BaseQuery + NotInOpen + IdList(exempted) + NotInClose
    else BaseQuery
  }

  /** The numbers a list of decimal texts denotes; `None` if one is not a decimal number. */
  function ParseIds(texts: seq<string>): (r: Option<seq<nat>>)
    ensures r.Some? ==> |r.value| == |texts|
  {
    if forall i :: 0 <= i < |texts| ==> AllDigits(texts[i]) && texts[i] != "" then
      Some(seq(|texts|, i requires 0 <= i < |texts| && AllDigits(texts[i]) => DigitsValue(texts[i])))
    else None
  }

  /**
   * The ids a query string excludes: none for the base query, the parsed
   * `NOT IN` list for the base query followed by one, and `None` for any
   * other text.
   */
  function ExcludedIds(query: string): Option<seq<nat>>
  {
    var head := BaseQuery + NotInOpen;
    if query == BaseQuery then Some([])
    else if |query| >= |head| + |NotInClose| && query[..|head|] == head
         && query[|query| - |NotInClose|..] == NotInClose
    then ParseIds(Explode(IdGlue, query[|head|..|query| - |NotInClose|]))
    else None
  }

  /** Reading the exclusion list back out of the query gives the exempted ids, in order. */
  lemma CandidateQueryExcludesExactly(exempted: seq<nat>)
    ensures ExcludedIds(CandidateQuery(exempted)) == Some(exempted)
  {
    if |exempted| > 0 {
      var head := BaseQuery + NotInOpen;
      var list := IdList(exempted);
      var q := CandidateQuery(exempted);
      assert q == head + list + NotInClose;
      assert q != BaseQuery by { assert |q| > |BaseQuery|; }
      assert q[..|head|] == head;
      assert q[|q| - |NotInClose|..] == NotInClose;
      assert q[|head|..|q| - |NotInClose|] == list;
      var texts := IdTexts(exempted);
      forall i | 0 <= i < |texts| ensures FreeOf(IdGlue, texts[i]) {
        assert AllDigits(texts[i]);
      }
      ExplodeImplode(IdGlue, texts);
      var r := ParseIds(texts);
      assert r.Some? by {
        forall i | 0 <= i < |texts| ensures AllDigits(texts[i]) && texts[i] != "" {
        }
      }
      forall i | 0 <= i < |exempted| ensures r.value[i] == exempted[i] {
        DigitsValueOfIntToString(exempted[i]);
      }
      assert r.value == exempted;
      assert Explode(IdGlue, q[|head|..|q| - |NotInClose|]) == texts;
    }
  }

  /**
   * Every candidate query begins with the base query and so keeps the filter
   * `app.resume_file > ''`; it gains a `NOT IN` clause exactly when the
   * exempted list is not empty.
   */
  lemma CandidateQueryShape(exempted: seq<nat>)
    ensures StartsWith(BaseQuery, CandidateQuery(exempted))
    ensures Occurs(ResumeFilter, CandidateQuery(exempted))
    ensures CandidateQuery(exempted) == BaseQuery <==> exempted == []
    ensures exempted != [] ==> StartsWith(BaseQuery + NotInOpen, CandidateQuery(exempted))
  {
    var q := CandidateQuery(exempted);
    var k := |WherePrefix|;
    assert BaseQuery[k..][..|ResumeFilter|] == ResumeFilter;
    assert q[..|BaseQuery|] == BaseQuery;
    assert q[k..][..|ResumeFilter|] == BaseQuery[k..][..|ResumeFilter|];
    assert StartsWith(ResumeFilter, q[k..]);
  }
}
