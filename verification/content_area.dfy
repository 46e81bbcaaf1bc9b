/**
 The content-area registry (the `ArticleContentArea` class): the SQL join
 descriptor other queries merge in, the page-property lookup, the memoised
 controlled vocabulary and the validity check against it.

 Host facilities are parameters: the database's `makeList` quoting is an
 arbitrary function `makeList`, category membership is `membersOf`, and the
 page-properties lookup is handed in as the property array it returns.
 */
module ContentArea {
  import opened Wrappers
  import opened PhpValues

  /** The page-property name the extension stores its value under. */
  const DataVar: string := "ArticleContentArea"

  /** The alias under which the join adds the `page_props` table. */
  const TableAlias: string := "content_area_page_props"

  /** The published output-field alias; renaming it breaks every caller. */
  const FieldAlias: string := "content_area"

  const PageCondSql: string := "page_id = content_area_page_props.pp_page"
  const PropNameCondSql: string := "content_area_page_props.pp_propname = 'ArticleContentArea'"

  // ---------------------------------------------------------------------------
  // getJoin
  // ---------------------------------------------------------------------------

  datatype JoinType = InnerJoin | LeftOuterJoin {
    function Sql(): string {
      match this
      case InnerJoin => "INNER JOIN"
      case LeftOuterJoin => "LEFT OUTER JOIN"
    }
  }

  /** One join condition, read structurally, with the SQL text the source writes for it. */
  datatype Cond = PageIdIsRowPage | PropNameIs(name: string) | ValueIn(values: seq<string>) {
    function Sql(makeList: seq<string> -> string): string {
      match this
      case PageIdIsRowPage => "page_id = " + TableAlias + ".pp_page"
      case PropNameIs(n) => TableAlias + ".pp_propname = '" + n + "'"
      case ValueIn(vs) => TableAlias + ".pp_value IN (" + makeList(vs) + ")"
    }
  }

  /** The `[ joinType, conds ]` pair stored under the table alias in `join_conds`. */
  datatype JoinClause = JoinClause(joinType: string, conds: seq<string>)

  /** The `{tables, fields, join_conds}` record `getJoin` returns. */
  datatype JoinDescriptor = JoinDescriptor(
    tables: map<string, string>,
    fields: map<string, string>,
    joinConds: map<string, JoinClause>)

  /** A truthy content area filters (inner join); a falsy one keeps every page (left outer join). */
  function JoinTypeFor(contentArea: Candidate): JoinType {
    if IsTruthy(contentArea) then InnerJoin else LeftOuterJoin
  }

  /** The join conditions: the page and property-name match, plus a value filter when truthy. */
  function CondsFor(contentArea: Candidate): seq<Cond> {
    [PageIdIsRowPage, PropNameIs(DataVar)]
    + (if IsTruthy(contentArea) then [ValueIn(AsArray(contentArea))] else [])
  }

  function RenderConds(conds: seq<Cond>, makeList: seq<string> -> string): (r: seq<string>)
    ensures |r| == |conds|
    ensures forall i :: 0 <= i < |conds| ==> r[i] == conds[i].Sql(makeList)
  {
    seq(|conds|, i requires 0 <= i < |conds| => conds[i].Sql(makeList))
  }

  lemma PageCondText(makeList: seq<string> -> string)
    ensures PageIdIsRowPage.Sql(makeList) == PageCondSql
  {
  }

  lemma PropNameCondText(makeList: seq<string> -> string)
    ensures PropNameIs(DataVar).Sql(makeList) == PropNameCondSql
  {
    var head := "content_area_page_props.pp_propname = '";
    assert TableAlias + ".pp_propname = '" == head;
    assert head + DataVar == "content_area_page_props.pp_propname = 'ArticleContentArea";
  }

  lemma ValueCondText(values: seq<string>, makeList: seq<string> -> string)
    ensures ValueIn(values).Sql(makeList)
      == "content_area_page_props.pp_value IN (" + makeList(values) + ")"
  {
  }

  lemma FieldText()
    ensures TableAlias + ".pp_value" == "content_area_page_props.pp_value"
  {
  }

  /**
   `getJoin( $contentArea )`: exactly one table, one field and one join clause,
   all under fixed aliases; the join is `LEFT OUTER JOIN` on the two base
   conditions for a falsy argument, and `INNER JOIN` with a third `IN (…)`
   condition over `(array)$contentArea` for a truthy one.
   */
  function GetJoin(contentArea: Candidate, makeList: seq<string> -> string): (r: JoinDescriptor)
    ensures r.tables == map[TableAlias := "page_props"]
    ensures r.fields == map[FieldAlias := "content_area_page_props.pp_value"]
    ensures r.joinConds.Keys == {TableAlias}
    ensures r.joinConds[TableAlias]
      == JoinClause(JoinTypeFor(contentArea).Sql(), RenderConds(CondsFor(contentArea), makeList))
    ensures !IsTruthy(contentArea) ==>
      r.joinConds[TableAlias] == JoinClause("LEFT OUTER JOIN", [PageCondSql, PropNameCondSql])
    ensures IsTruthy(contentArea) ==>
      r.joinConds[TableAlias] == JoinClause("INNER JOIN", [PageCondSql, PropNameCondSql,
        "content_area_page_props.pp_value IN (" + makeList(AsArray(contentArea)) + ")"])
  {
    var conds := RenderConds(CondsFor(contentArea), makeList);
    PageCondText(makeList);
    PropNameCondText(makeList);
    ValueCondText(AsArray(contentArea), makeList);
    FieldText();
    assert conds[..2] == [PageCondSql, PropNameCondSql];
    assert IsTruthy(contentArea) ==> conds == conds[..2] + [conds[2]];
    JoinDescriptor(
      map[TableAlias := "page_props"],
      map[FieldAlias := TableAlias + ".pp_value"],
      map[TableAlias := JoinClause(JoinTypeFor(contentArea).Sql(), conds)])
  }

  /** Every falsy argument (`null`, `""`, `"0"`, `[]`) gives the same, unfiltered join. */
  lemma FalsyArgumentsJoinAlike(a: Candidate, b: Candidate, makeList: seq<string> -> string)
    requires !IsTruthy(a) && !IsTruthy(b)
    ensures GetJoin(a, makeList) == GetJoin(b, makeList)
  {
  }

  /** A truthy string joins exactly like the one-element list holding it. */
  lemma StringJoinsAsSingletonList(s: string, makeList: seq<string> -> string)
    requires IsTruthy(Str(s))
    ensures GetJoin(Str(s), makeList) == GetJoin(List([s]), makeList)
  {
  }

  // A reference reading of the join: what `content_area` values the joined
  // query yields for one page, given the rows of the `page_props` table.

  /** One `page_props` row. */
  datatype PropRow = PropRow(page: int, propName: string, value: string)

  predicate Holds(cond: Cond, pageId: int, row: PropRow) {
    match cond
    case PageIdIsRowPage => row.page == pageId
    case PropNameIs(n) => row.propName == n
    case ValueIn(vs) => row.value in vs
  }

  predicate AllHold(conds: seq<Cond>, pageId: int, row: PropRow) {
    forall i :: 0 <= i < |conds| ==> Holds(conds[i], pageId, row)
  }

  /** The values of the rows, in table order, that satisfy every condition. */
  function MatchingValues(conds: seq<Cond>, pageId: int, rows: seq<PropRow>): (r: seq<string>)
    ensures |r| <= |rows|
    ensures forall v :: v in r <==>
      exists k :: 0 <= k < |rows| && AllHold(conds, pageId, rows[k]) && rows[k].value == v
  {
    if |rows| == 0 then []
    else
      var rest := MatchingValues(conds, pageId, rows[1..]);
      assert forall k :: 0 < k < |rows| ==> rows[k] == rows[1..][k - 1];
      if AllHold(conds, pageId, rows[0]) then [rows[0].value] + rest else rest
  }

  /**
   The `content_area` column of the joined rows for one page: one entry per
   matching property row, or a single `null` for an outer join that found none.
   */
  function JoinedContentArea(joinType: JoinType, conds: seq<Cond>, pageId: int, rows: seq<PropRow>)
    : seq<Option<string>>
  {
    var m := MatchingValues(conds, pageId, rows);
    if |m| == 0 && joinType == LeftOuterJoin then [None]
    else seq(|m|, i requires 0 <= i < |m| => Some(m[i]))
  }

  /** A row is this page's content-area row. */
  predicate IsContentAreaRow(pageId: int, row: PropRow) {
    row.page == pageId && row.propName == DataVar
  }

  /** A row is this page's content-area row and, for a filter, carries an accepted value. */
  predicate IsSelectedRow(contentArea: Candidate, pageId: int, row: PropRow) {
    && IsContentAreaRow(pageId, row)
    && (IsTruthy(contentArea) ==> row.value in AsArray(contentArea))
  }

  lemma CondsForHold(contentArea: Candidate, pageId: int, row: PropRow)
    ensures AllHold(CondsFor(contentArea), pageId, row) <==> IsSelectedRow(contentArea, pageId, row)
  {
    var conds := CondsFor(contentArea);
    if IsSelectedRow(contentArea, pageId, row) {
      forall i | 0 <= i < |conds| ensures Holds(conds[i], pageId, row) {
      }
    }
    if AllHold(conds, pageId, row) {
      assert Holds(conds[0], pageId, row);
      assert Holds(conds[1], pageId, row);
      if IsTruthy(contentArea) {
        assert Holds(conds[2], pageId, row);
      }
    }
  }

  /**
   What the descriptor means: a page's joined `content_area` values are exactly
   the values of its content-area rows (restricted to `(array)$contentArea` when
   that is truthy). Without a filter the page is always kept, with `null` when it
   has no such row; with a filter it is dropped when nothing matches and `null`
   never appears.
   */
  lemma JoinSelectsContentArea(contentArea: Candidate, pageId: int, rows: seq<PropRow>)
    ensures forall v :: (Some(v) in JoinedContentArea(JoinTypeFor(contentArea), CondsFor(contentArea), pageId, rows)
      <==> exists k :: 0 <= k < |rows| && IsSelectedRow(contentArea, pageId, rows[k]) && rows[k].value == v)
    ensures !IsTruthy(contentArea) ==>
      (JoinedContentArea(JoinTypeFor(contentArea), CondsFor(contentArea), pageId, rows) == [None]
       <==> forall k :: 0 <= k < |rows| ==> !IsSelectedRow(contentArea, pageId, rows[k]))
    ensures IsTruthy(contentArea) ==>
      None !in JoinedContentArea(JoinTypeFor(contentArea), CondsFor(contentArea), pageId, rows)
  {
    var conds := CondsFor(contentArea);
    var out := JoinedContentArea(JoinTypeFor(contentArea), conds, pageId, rows);
    var m := MatchingValues(conds, pageId, rows);
    forall k | 0 <= k < |rows|
      ensures AllHold(conds, pageId, rows[k]) <==> IsSelectedRow(contentArea, pageId, rows[k])
    {
      CondsForHold(contentArea, pageId, rows[k]);
    }
    forall v ensures Some(v) in out <==> v in m {
      if v in m {
        var i :| 0 <= i < |m| && m[i] == v;
        assert out[i] == Some(v);
      }
    }
    forall k | 0 <= k < |rows| && IsSelectedRow(contentArea, pageId, rows[k])
      ensures rows[k].value in m
    {
    }
    if !IsTruthy(contentArea) && |m| > 0 {
      assert m[0] in m;
    }
  }

  // ---------------------------------------------------------------------------
  // getArticleContentArea
  // ---------------------------------------------------------------------------

  /** What `PageProps::getProperties` returns for one page and one name: page id => value, in order. */
  type PropArray = seq<(int, string)>

  /** `getArticleContentArea`: null for an empty property array, else its first value. */
  function GetArticleContentArea(propArray: PropArray): (r: Option<string>)
    ensures r.None? <==> |propArray| == 0
    ensures r.Some? ==> r.value == propArray[0].1
  {
    if |propArray| == 0 then None else Some(propArray[0].1)
  }

  /**
   The property array the host builds for `pageId` from the `page_props` rows:
   one `pageId => value` entry per `ArticleContentArea` row of that page. The
   table's primary key `(pp_page, pp_propname)` allows at most one such row, so
   the host returns at most one entry; the model accepts any table and keeps
   its rows in order, which is the case the source's first-value choice covers.
   Every entry comes from one of the page's rows, and the array is empty only
   when the page has none.
   */
  function PropertiesOf(rows: seq<PropRow>, pageId: int): (r: PropArray)
    ensures |r| <= |rows|
    ensures forall e :: e in r ==> e.0 == pageId && PropRow(pageId, DataVar, e.1) in rows
    ensures forall v :: PropRow(pageId, DataVar, v) in rows ==> |r| > 0
  {
    if |rows| == 0 then []
    else
      var rest := PropertiesOf(rows[1..], pageId);
      assert rows == [rows[0]] + rows[1..];
      if IsContentAreaRow(pageId, rows[0]) then [(pageId, rows[0].value)] + rest
      else rest
  }

  lemma {:induction false} PropertiesOfMatchesUnfilteredJoin(rows: seq<PropRow>, pageId: int)
    ensures |PropertiesOf(rows, pageId)| == |MatchingValues(CondsFor(Null), pageId, rows)|
    ensures forall i :: 0 <= i < |PropertiesOf(rows, pageId)| ==>
      PropertiesOf(rows, pageId)[i].1 == MatchingValues(CondsFor(Null), pageId, rows)[i]
  {
    if |rows| > 0 {
      PropertiesOfMatchesUnfilteredJoin(rows[1..], pageId);
      CondsForHold(Null, pageId, rows[0]);
    }
  }

  /**
   When the page has exactly one `ArticleContentArea` row, the lookup returns
   that row's value, whatever other rows the table holds.
   */
  lemma LookupReturnsSoleRow(rows: seq<PropRow>, pageId: int, v: string)
    requires PropRow(pageId, DataVar, v) in rows
    requires forall j, k :: (0 <= j < |rows| && 0 <= k < |rows| && IsContentAreaRow(pageId, rows[j])
                             && IsContentAreaRow(pageId, rows[k])) ==> j == k
    ensures GetArticleContentArea(PropertiesOf(rows, pageId)) == Some(v)
  {
  }

  /**
   The single-page lookup agrees with the unfiltered join: it is null exactly when
   the join yields a null `content_area` for the page, and otherwise it is the
   first value the join yields.
   */
  lemma LookupAgreesWithJoin(rows: seq<PropRow>, pageId: int)
    ensures var joined := JoinedContentArea(JoinTypeFor(Null), CondsFor(Null), pageId, rows);
      && (GetArticleContentArea(PropertiesOf(rows, pageId)).None? <==> joined == [None])
      && |joined| > 0
      && joined[0] == GetArticleContentArea(PropertiesOf(rows, pageId))
  {
    PropertiesOfMatchesUnfilteredJoin(rows, pageId);
  }

  // ---------------------------------------------------------------------------
  // getValidContentAreas / isValidContentArea
  // ---------------------------------------------------------------------------

  /** A wiki page title; `text` is what `Title::getText()` returns. */
  datatype Title = Title(namespace: int, text: string)

  /**
   The configuration and host lookups `getValidContentAreas` consults: the
   configured category name (`null` when unset) and the member titles the host
   lists for a category name, in its order.
   */
  datatype Host = Host(categoryName: Option<string>, membersOf: string -> seq<Title>)

  /** The memoised vocabulary: `None` until first computed (`isset` is false only for null). */
  type Cache = Option<seq<string>>

  /** `array_walk` replacing each member title by its text. */
  function MemberTexts(members: seq<Title>): (r: seq<string>)
    ensures |r| == |members|
    ensures forall i :: 0 <= i < |members| ==> r[i] == members[i].text
  {
    seq(|members|, i requires 0 <= i < |members| => members[i].text)
  }

  /**
   `getValidContentAreas()`: returns the vocabulary and the cache afterwards. A
   set cache is returned as it is; otherwise the vocabulary is empty without a
   configured category, and the member titles' texts in member order with one.
   Either way the cache ends up holding what was returned.
   */
  function GetValidContentAreas(cache: Cache, host: Host): (r: (seq<string>, Cache))
    ensures r.1 == Some(r.0)
    ensures cache.Some? ==> r.0 == cache.value
    ensures cache.None? && host.categoryName.None? ==> r.0 == []
    ensures cache.None? && host.categoryName.Some? ==>
      var members := host.membersOf(host.categoryName.value);
      |r.0| == |members| && forall i :: 0 <= i < |members| ==> r.0[i] == members[i].text
  {
    match cache
    case Some(valid) => (valid, cache)
    case None =>
      var valid := match host.categoryName
        case None => []
        case Some(name) => MemberTexts(host.membersOf(name));
      (valid, Some(valid))
  }

  /** The vocabularies a run of calls returns, each call seeing the cache the previous one left. */
  function VocabularyRun(cache: Cache, hosts: seq<Host>): (r: seq<seq<string>>)
    ensures |r| == |hosts|
    decreases |hosts|
  {
    if |hosts| == 0 then []
    else
      var (valid, cache') := GetValidContentAreas(cache, hosts[0]);
      [valid] + VocabularyRun(cache', hosts[1..])
  }

  /** Once set, the cache answers every later call, whatever the configuration says by then. */
  lemma {:induction false} CachedVocabularyIsFinal(valid: seq<string>, hosts: seq<Host>)
    ensures forall i :: 0 <= i < |hosts| ==> VocabularyRun(Some(valid), hosts)[i] == valid
  {
    if |hosts| > 0 {
      CachedVocabularyIsFinal(valid, hosts[1..]);
    }
  }

  /** Compute once: every call in a run returns what the first call returned. */
  lemma ComputedAtMostOnce(cache: Cache, hosts: seq<Host>)
    requires |hosts| > 0
    ensures forall i :: 0 <= i < |hosts| ==>
      VocabularyRun(cache, hosts)[i] == GetValidContentAreas(cache, hosts[0]).0
  {
    var (valid, cache') := GetValidContentAreas(cache, hosts[0]);
    CachedVocabularyIsFinal(valid, hosts[1..]);
  }

  /**
   The validity rule against a given vocabulary: an empty vocabulary accepts
   everything; otherwise a PHP-empty candidate is rejected, and any other is
   accepted exactly when every element of `(array)$contentArea` is in the
   vocabulary.
   */
  function IsValidAgainst(valid: seq<string>, contentArea: Candidate): (r: bool)
    ensures |valid| == 0 ==> r
    ensures |valid| > 0 && IsEmpty(contentArea) ==> !r
    ensures |valid| > 0 && !IsEmpty(contentArea) ==>
      (r <==> forall x :: x in AsArray(contentArea) ==> x in valid)
  {
    if |valid| == 0 then true
    else if IsEmpty(contentArea) then false
    else
      ArrayDiffEmptyIffSubset(AsArray(contentArea), valid);
      |ArrayDiff(AsArray(contentArea), valid)| == 0
  }

  /**
   `isValidContentArea( $contentArea )`: the rule above, applied to the vocabulary
   `getValidContentAreas()` yields, together with the cache that call leaves.
   */
  function IsValidContentArea(cache: Cache, host: Host, contentArea: Candidate): (r: (bool, Cache))
    ensures r.1.Some? && (cache.Some? ==> r.1 == cache)
    ensures r.1 == GetValidContentAreas(cache, host).1
    ensures var valid := r.1.value;
      r.0 <==> (|valid| == 0 || (!IsEmpty(contentArea) && forall x :: x in AsArray(contentArea) ==> x in valid))
  {
    var (valid, cache') := GetValidContentAreas(cache, host);
    (IsValidAgainst(valid, contentArea), cache')
  }

  /**
   Against a non-empty vocabulary a single token outside it is rejected, and a
   token in it is accepted unless PHP considers it empty.
   */
  lemma SingleTokenValidity(valid: seq<string>, t: string)
    requires |valid| > 0
    ensures t !in valid ==> !IsValidAgainst(valid, Str(t))
    ensures t in valid && !IsEmptyString(t) ==> IsValidAgainst(valid, Str(t))
  {
  }

  /** A truthy single token is validated as the one-element list holding it. */
  lemma StringValidatesAsSingletonList(valid: seq<string>, t: string)
    requires !IsEmptyString(t)
    ensures IsValidAgainst(valid, Str(t)) == IsValidAgainst(valid, List([t]))
  {
  }

  /**
   The emptiness test runs before the membership test, so a vocabulary that
   lists the title `0` still rejects the candidate `"0"`.
   */
  lemma ZeroMemberRejected()
    ensures "0" in ["0"] && !IsValidAgainst(["0"], Str("0"))
  {
  }
}
