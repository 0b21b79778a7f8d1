/** The counting loop of `process_articles` in `src/etl/pubmed_etl.py`.

    The search is given as its list of pmids. Each fetch is given as the record
    `fetch_article_details` returned, `None` when it found no article (`FetchAll`
    builds these from the parsed replies), and each insert as the fault of the store's
    failure model; both are listed in visit order. The store is a parameter: the live
    ingest path passes `Store.InsertArticleData`, and `OrmStore.InsertArticleData` has
    the same shape. The loop catches nothing, so an insert that raises ends the batch;
    the inserts committed before it stay committed. */
module Pipeline {
  import opened Wrappers
  import opened Xml
  import opened Schema
  import opened Mapper
  import Store
  import OrmStore

  /** An `insert_article_data`: the store, the record and the fault in; how the call
      ended and the store left behind out. */
  type Insert = (Db, ArticleRecord, Store.Fault) -> Store.Outcome

  /** How a batch ends: with its two counters, or with the exception raised while
      inserting the record at index `at`. */
  datatype Report =
    | Finished(success: nat, errors: nat, db: Db)
    | Aborted(at: nat, db: Db)

  /** One iteration: insert the fetched details when there are any; a visit without
      details counts as an error and touches nothing. */
  function Visit(insert: Insert, db: Db, details: Option<ArticleRecord>, fault: Store.Fault): (r: Store.Outcome)
    ensures details.None? ==> r == Store.Returned(false, db)
    ensures details.Some? ==> r == insert(db, details.value, fault)
  {
    match details
    case None => Store.Returned(false, db)
    case Some(rec) => insert(db, rec, fault)
  }

  /** The state after the first `n` iterations: the reference the loop follows. A
      success or an error adds to its counter; a raise ends the run for good. */
  function Run(insert: Insert, db: Db, details: seq<Option<ArticleRecord>>, faults: seq<Store.Fault>, n: nat): (r: Report)
    requires |faults| == |details| && n <= |details|
    ensures r.Finished? ==> r.success + r.errors == n
    ensures r.Aborted? ==> r.at < n && details[r.at].Some?
    decreases n
  {
    if n == 0 then Finished(0, 0, db)
    else
      match Run(insert, db, details, faults, n - 1)
      case Aborted(at, d) => Aborted(at, d)
      case Finished(success, errors, d) =>
        match Visit(insert, d, details[n - 1], faults[n - 1])
        case Raised(d') => Aborted(n - 1, d')
        case Returned(ok, d') =>
          if ok then Finished(success + 1, errors, d') else Finished(success, errors + 1, d')
  }

  /** The details fetched for each id, from the parsed replies. */
  function FetchAll(markup: string -> string, ids: seq<int>, responses: seq<Option<Element>>): (r: seq<Option<ArticleRecord>>)
    requires |responses| == |ids|
    ensures |r| == |ids|
    ensures forall i :: 0 <= i < |ids| ==> r[i] == FetchDetails(markup, ids[i], responses[i])
    ensures forall i :: 0 <= i < |ids| && r[i].Some? ==> r[i].value.pmid == ids[i]
  {
    seq(|ids|, i requires 0 <= i < |ids| => FetchDetails(markup, ids[i], responses[i]))
  }

  /** Once a run has aborted, later iterations never run. */
  lemma {:induction false} AbortSticks(insert: Insert, db: Db, details: seq<Option<ArticleRecord>>,
                                       faults: seq<Store.Fault>, k: nat, n: nat)
    requires |faults| == |details| && k <= n <= |details|
    requires Run(insert, db, details, faults, k).Aborted?
    ensures Run(insert, db, details, faults, n) == Run(insert, db, details, faults, k)
    decreases n
  {
    if n > k {
      AbortSticks(insert, db, details, faults, k, n - 1);
    }
  }

  /** `process_articles`: `None` when the search found nothing (the early return,
      before any fetch); otherwise the counters after visiting every id once, in
      order, or the index of the insert that raised. */
  method ProcessArticles(insert: Insert, db: Db, ids: seq<int>, details: seq<Option<ArticleRecord>>,
                         faults: seq<Store.Fault>)
    returns (r: Option<Report>)
    requires |details| == |ids| && |faults| == |ids|
    ensures ids == [] <==> r.None?
    ensures r.Some? && r.value.Finished? ==> r.value.success + r.value.errors == |ids|
    ensures r.Some? && r.value.Aborted? ==> r.value.at < |ids| && details[r.value.at].Some?
    ensures r.Some? ==> r.value == Run(insert, db, details, faults, |ids|)
  {
    if ids == [] {
      return None;
    }
    var success: nat := 0;
    var errors: nat := 0;
    var current := db;
    var i := 0;
    while i < |ids|
      invariant 0 <= i <= |ids|
      invariant Finished(success, errors, current) == Run(insert, db, details, faults, i)
    {
      var o := Visit(insert, current, details[i], faults[i]);
      if o.Raised? {
        AbortSticks(insert, db, details, faults, i + 1, |ids|);
        return Some(Aborted(i, o.db));
      }
      current := o.db;
      if o.ok {
        success := success + 1;
      } else {
        errors := errors + 1;
      }
      i := i + 1;
    }
    r := Some(Finished(success, errors, current));
  }

  // ---------------------------------------------------------------------------
  // What the loop needs of the store, and the two stores providing it

  /** An insert that does not return `True` leaves the store as it was. */
  ghost predicate RollsBack(insert: Insert) {
    forall d, rec, fault :: !insert(d, rec, fault).Succeeded() ==> insert(d, rec, fault).db == d
  }

  /** An insert only adds to the store. */
  ghost predicate AppendOnly(insert: Insert) {
    forall d, rec, fault :: Extends(d, insert(d, rec, fault).db)
  }

  /** An insert keeps the schema's constraints. */
  ghost predicate KeepsValid(insert: Insert) {
    forall d, rec, fault :: Valid(d) ==> Valid(insert(d, rec, fault).db)
  }

  /** A storable record commits unless a fault strikes. */
  ghost predicate CommitsStorable(insert: Insert) {
    forall d, rec :: Store.Storable(rec) ==> insert(d, rec, Store.NoFault).Succeeded()
  }

  /** An insert raises exactly when its connection fails. */
  ghost predicate RaisesOnConnect(insert: Insert) {
    forall d, rec, fault :: insert(d, rec, fault).Raised? <==> fault.ConnectFault?
  }

  /** An insert never raises. */
  ghost predicate NeverRaises(insert: Insert) {
    forall d, rec, fault :: insert(d, rec, fault).Returned?
  }

  lemma LiveStoreQualifies()
    ensures RollsBack(Store.InsertArticleData)
    ensures AppendOnly(Store.InsertArticleData)
    ensures KeepsValid(Store.InsertArticleData)
    ensures CommitsStorable(Store.InsertArticleData)
    ensures RaisesOnConnect(Store.InsertArticleData)
  {
    forall d, rec, fault | Valid(d)
      ensures Valid(Store.InsertArticleData(d, rec, fault).db)
    {
      Store.InsertKeepsValid(d, rec, fault);
    }
  }

  lemma OrmStoreQualifies()
    ensures RollsBack(OrmStore.InsertArticleData)
    ensures AppendOnly(OrmStore.InsertArticleData)
    ensures CommitsStorable(OrmStore.InsertArticleData)
    ensures NeverRaises(OrmStore.InsertArticleData)
  {
    forall d, rec | Store.Storable(rec)
      ensures OrmStore.InsertArticleData(d, rec, Store.NoFault).Succeeded()
    {
      assert Cut(rec.journalTitle, JournalTitleWidth) == rec.journalTitle;
    }
  }

  // ---------------------------------------------------------------------------
  // Properties

  /** The number of the first `n` visits that fetched no article. */
  function Missing(details: seq<Option<ArticleRecord>>, n: nat): (m: nat)
    requires n <= |details|
    ensures m <= n
  {
    if n == 0 then 0 else Missing(details, n - 1) + (if details[n - 1].None? then 1 else 0)
  }

  /** No fetched record among the first `n` meets a failed connection. */
  ghost predicate NoConnectFault(details: seq<Option<ArticleRecord>>, faults: seq<Store.Fault>, n: nat)
    requires |faults| == |details| && n <= |details|
  {
    forall i :: 0 <= i < n && details[i].Some? ==> !faults[i].ConnectFault?
  }

  /** Every visit without an article is counted as an error. */
  lemma {:induction false} MissingAreErrors(insert: Insert, db: Db, details: seq<Option<ArticleRecord>>,
                                            faults: seq<Store.Fault>, n: nat)
    requires |faults| == |details| && n <= |details|
    ensures Run(insert, db, details, faults, n).Finished? ==>
              Missing(details, n) <= Run(insert, db, details, faults, n).errors
    decreases n
  {
    if n > 0 {
      MissingAreErrors(insert, db, details, faults, n - 1);
    }
  }

  /** With a store that raises only on a failed connection, a run that meets none
      finishes. */
  lemma {:induction false} RunFinishes(insert: Insert, db: Db, details: seq<Option<ArticleRecord>>,
                                       faults: seq<Store.Fault>, n: nat)
    requires |faults| == |details| && n <= |details|
    requires RaisesOnConnect(insert) && NoConnectFault(details, faults, n)
    ensures Run(insert, db, details, faults, n).Finished?
    decreases n
  {
    if n > 0 {
      RunFinishes(insert, db, details, faults, n - 1);
    }
  }

  /** A store that never raises always finishes the batch. */
  lemma {:induction false} NeverAborts(insert: Insert, db: Db, details: seq<Option<ArticleRecord>>,
                                       faults: seq<Store.Fault>, n: nat)
    requires |faults| == |details| && n <= |details|
    requires NeverRaises(insert)
    ensures Run(insert, db, details, faults, n).Finished?
    decreases n
  {
    if n > 0 {
      NeverAborts(insert, db, details, faults, n - 1);
    }
  }

  /** With a store that raises on a failed connection, a run that meets one aborts. */
  lemma {:induction false} ConnectFaultAborts(insert: Insert, db: Db, details: seq<Option<ArticleRecord>>,
                                              faults: seq<Store.Fault>, n: nat)
    requires |faults| == |details| && n <= |details|
    requires RaisesOnConnect(insert) && !NoConnectFault(details, faults, n)
    ensures Run(insert, db, details, faults, n).Aborted?
    decreases n
  {
    if NoConnectFault(details, faults, n - 1) {
      var prev := Run(insert, db, details, faults, n - 1);
      RunFinishes(insert, db, details, faults, n - 1);
      assert details[n - 1].Some? && faults[n - 1].ConnectFault?;
      assert insert(prev.db, details[n - 1].value, faults[n - 1]).Raised?;
    } else {
      ConnectFaultAborts(insert, db, details, faults, n - 1);
    }
  }

  /** An aborted run stopped at the first insert that raised: every visit before it ran
      to completion, and the store is the one that insert left behind. */
  lemma {:induction false} AbortedAtRaise(insert: Insert, db: Db, details: seq<Option<ArticleRecord>>,
                                          faults: seq<Store.Fault>, n: nat)
    requires |faults| == |details| && n <= |details|
    requires Run(insert, db, details, faults, n).Aborted?
    ensures var r := Run(insert, db, details, faults, n);
            var before := Run(insert, db, details, faults, r.at);
      && before.Finished?
      && insert(before.db, details[r.at].value, faults[r.at]) == Store.Raised(r.db)
    decreases n
  {
    if Run(insert, db, details, faults, n - 1).Aborted? {
      AbortedAtRaise(insert, db, details, faults, n - 1);
    }
  }

  /** When every visit fetched a storable article and no insert faults, every id is a
      success. */
  lemma {:induction false} AllStoredNoErrors(insert: Insert, db: Db, details: seq<Option<ArticleRecord>>,
                                             faults: seq<Store.Fault>, n: nat)
    requires |faults| == |details| && n <= |details|
    requires CommitsStorable(insert)
    requires forall i :: 0 <= i < |details| ==> details[i].Some? && Store.Storable(details[i].value)
    requires forall i :: 0 <= i < |details| ==> faults[i].NoFault?
    ensures Run(insert, db, details, faults, n).Finished?
    ensures Run(insert, db, details, faults, n).success == n
    decreases n
  {
    if n > 0 {
      AllStoredNoErrors(insert, db, details, faults, n - 1);
    }
  }

  /** A run that fetches nothing leaves the store as it was and counts every id as an
      error. */
  lemma {:induction false} NothingFetched(insert: Insert, db: Db, details: seq<Option<ArticleRecord>>,
                                          faults: seq<Store.Fault>, n: nat)
    requires |faults| == |details| && n <= |details|
    requires forall i :: 0 <= i < |details| ==> details[i].None?
    ensures Run(insert, db, details, faults, n) == Finished(0, n, db)
    decreases n
  {
    if n > 0 {
      NothingFetched(insert, db, details, faults, n - 1);
    }
  }

  /** With a store that rolls back, a run in which every insert fails inside its
      transaction changes nothing and counts every id as an error. */
  lemma {:induction false} AllFaultsChangeNothing(insert: Insert, db: Db, details: seq<Option<ArticleRecord>>,
                                                  faults: seq<Store.Fault>, n: nat)
    requires |faults| == |details| && n <= |details|
    requires RollsBack(insert)
    requires forall d, rec :: insert(d, rec, Store.StatementFault).Returned?
                            && !insert(d, rec, Store.StatementFault).ok
    requires forall i :: 0 <= i < |details| ==> faults[i].StatementFault?
    ensures Run(insert, db, details, faults, n) == Finished(0, n, db)
    decreases n
  {
    if n > 0 {
      AllFaultsChangeNothing(insert, db, details, faults, n - 1);
    }
  }

  /** A batch only adds to the store, whether it finishes or aborts. */
  lemma {:induction false} RunAppendOnly(insert: Insert, db: Db, details: seq<Option<ArticleRecord>>,
                                         faults: seq<Store.Fault>, n: nat)
    requires |faults| == |details| && n <= |details|
    requires AppendOnly(insert)
    ensures Extends(db, Run(insert, db, details, faults, n).db)
    decreases n
  {
    if n > 0 {
      RunAppendOnly(insert, db, details, faults, n - 1);
      var prev := Run(insert, db, details, faults, n - 1);
      ExtendsTransitive(db, prev.db, Run(insert, db, details, faults, n).db);
    }
  }

  /** A batch keeps every constraint of the schema, because each insert does. */
  lemma {:induction false} RunKeepsValid(insert: Insert, db: Db, details: seq<Option<ArticleRecord>>,
                                         faults: seq<Store.Fault>, n: nat)
    requires |faults| == |details| && n <= |details|
    requires KeepsValid(insert) && Valid(db)
    ensures Valid(Run(insert, db, details, faults, n).db)
    decreases n
  {
    if n > 0 {
      RunKeepsValid(insert, db, details, faults, n - 1);
    }
  }

  /** The live ingest path: from a valid store, a batch leaves a valid store that
      extends the old one. It finishes, counting every id once, exactly when no fetched
      record meets a failed connection; otherwise it aborts at the first that does, with
      the store the earlier inserts committed. */
  lemma LiveBatch(db: Db, details: seq<Option<ArticleRecord>>, faults: seq<Store.Fault>)
    requires |faults| == |details| && Valid(db)
    ensures var r := Run(Store.InsertArticleData, db, details, faults, |details|);
      && Valid(r.db) && Extends(db, r.db)
      && (r.Finished? <==> NoConnectFault(details, faults, |details|))
      && (r.Finished? ==> r.success + r.errors == |details|)
    ensures var r := Run(Store.InsertArticleData, db, details, faults, |details|);
      r.Aborted? ==>
        && faults[r.at].ConnectFault?
        && NoConnectFault(details, faults, r.at)
        && r.db == Run(Store.InsertArticleData, db, details, faults, r.at).db
  {
    var n := |details|;
    LiveStoreQualifies();
    RunKeepsValid(Store.InsertArticleData, db, details, faults, n);
    RunAppendOnly(Store.InsertArticleData, db, details, faults, n);
    if NoConnectFault(details, faults, n) {
      RunFinishes(Store.InsertArticleData, db, details, faults, n);
    } else {
      ConnectFaultAborts(Store.InsertArticleData, db, details, faults, n);
      var r := Run(Store.InsertArticleData, db, details, faults, n);
      AbortedAtRaise(Store.InsertArticleData, db, details, faults, n);
      if !NoConnectFault(details, faults, r.at) {
        ConnectFaultAborts(Store.InsertArticleData, db, details, faults, r.at);
      }
    }
  }
}
