/**
 * The read-only views of routes/JobApplications.js over one user's records: the filtered
 * dashboard, the CSV export rows, the layout of the PDF summary and the integer parts of
 * the analytics page.  Each view receives the stored collection as a value.
 */
module JobViews {
  import opened Wrappers
  import opened JobApplicationModel
  import opened JobOrdering
  import opened JobStore

  // ---------------------------------------------------------------------------------------
  // Dashboard filter

  /** A date query parameter: its text and the date `new Date(text)` denotes, if valid. */
  datatype DateParam = DateParam(text: string, date: Option<Timestamp>)

  /** `req.query` of GET /dashboard; an absent parameter is None. */
  datatype DashboardQuery = DashboardQuery(
    location: Option<string>,
    status: Option<string>,
    applicationDate: Option<DateParam>,
    followUpDate: Option<DateParam>,
    uuid: Option<string>)

  /** A date parameter is truthy when its text is not empty. */
  predicate DateGiven(p: Option<DateParam>) {
    p.Some? && p.value.text != ""
  }

  /** The database query object: exact values and lower bounds (`$gte`) on the dates. */
  datatype FilterQuery = FilterQuery(
    user: UserId,
    location: Option<string>,
    status: Option<string>,
    applicationDateFrom: Option<DateParam>,
    followUpDateFrom: Option<DateParam>,
    uuid: Option<string>)

  /** Builds the query object one truthy parameter at a time. */
  method BuildFilter(user: UserId, q: DashboardQuery) returns (fq: FilterQuery)
    ensures fq.user == user
    ensures fq.location == (if Filled(q.location) then q.location else None)
    ensures fq.status == (if Filled(q.status) then q.status else None)
    ensures fq.applicationDateFrom == (if DateGiven(q.applicationDate) then q.applicationDate else None)
    ensures fq.followUpDateFrom == (if DateGiven(q.followUpDate) then q.followUpDate else None)
    ensures fq.uuid == (if Filled(q.uuid) then q.uuid else None)
  {
    fq := FilterQuery(user, None, None, None, None, None);
    if Filled(q.location) {
      fq := fq.(location := q.location);
    }
    if Filled(q.status) {
      fq := fq.(status := q.status);
    }
    if DateGiven(q.applicationDate) {
      fq := fq.(applicationDateFrom := q.applicationDate);
    }
    if DateGiven(q.followUpDate) {
      fq := fq.(followUpDateFrom := q.followUpDate);
    }
    if Filled(q.uuid) {
      fq := fq.(uuid := q.uuid);
    }
  }

  /** A date bound that cannot be cast to a date makes the query fail. */
  predicate CastFails(fq: FilterQuery) {
    (fq.applicationDateFrom.Some? && fq.applicationDateFrom.value.date.None?)
    || (fq.followUpDateFrom.Some? && fq.followUpDateFrom.value.date.None?)
  }

  /** Whether a stored record matches the query; a record without followUpDate fails a `$gte` on it. */
  predicate Matches(fq: FilterQuery, d: JobApplication) {
    && d.user == fq.user
    && (fq.location.Some? ==> d.location == fq.location.value)
    && (fq.status.Some? ==> StatusName(d.status) == fq.status.value)
    && (fq.applicationDateFrom.Some? ==>
          fq.applicationDateFrom.value.date.Some? && d.applicationDate >= fq.applicationDateFrom.value.date.value)
    && (fq.followUpDateFrom.Some? ==>
          && fq.followUpDateFrom.value.date.Some? && d.followUpDate.Some?
          && d.followUpDate.value >= fq.followUpDateFrom.value.date.value)
    && (fq.uuid.Some? ==> d.uuid == fq.uuid.value)
  }

  /** `find(filterQuery)`: the matching records in storage order. */
  function Select(docs: seq<JobApplication>, fq: FilterQuery): (r: seq<JobApplication>)
    ensures |r| <= |docs|
    ensures forall x :: x in r <==> x in docs && Matches(fq, x)
    ensures forall x :: multiset(r)[x] == if Matches(fq, x) then multiset(docs)[x] else 0
  {
    if docs == [] then []
    else
      var n := |docs| - 1;
      assert docs == docs[..n] + [docs[n]];
      Select(docs[..n], fq) + (if Matches(fq, docs[n]) then [docs[n]] else [])
  }

  /**
   * What the dashboard promises, stated on the query itself: the record is the user's and
   * meets every truthy parameter.
   */
  predicate Satisfies(user: UserId, q: DashboardQuery, d: JobApplication) {
    && d.user == user
    && (Filled(q.location) ==> d.location == q.location.value)
    && (Filled(q.status) ==> StatusName(d.status) == q.status.value)
    && (DateGiven(q.applicationDate) ==>
          q.applicationDate.value.date.Some? && d.applicationDate >= q.applicationDate.value.date.value)
    && (DateGiven(q.followUpDate) ==>
          && q.followUpDate.value.date.Some? && d.followUpDate.Some?
          && d.followUpDate.value >= q.followUpDate.value.date.value)
    && (Filled(q.uuid) ==> d.uuid == q.uuid.value)
  }

  predicate DateInvalid(p: Option<DateParam>) {
    DateGiven(p) && p.value.date.None?
  }

  datatype DashboardView = DashboardView(totalApplications: nat, filteredApplications: seq<JobApplication>)

  /**
   * GET /dashboard: the records matching the query and their number, or "Server Error"
   * when a truthy date parameter is not a date.
   */
  method Dashboard(docs: seq<JobApplication>, user: UserId, q: DashboardQuery) returns (r: Result<DashboardView, string>)
    ensures r.Failure? <==> DateInvalid(q.applicationDate) || DateInvalid(q.followUpDate)
    ensures r.Failure? ==> r.error == "Server Error"
    ensures r.Success? ==> r.value.totalApplications == |r.value.filteredApplications|
    ensures r.Success? ==> forall x :: x in r.value.filteredApplications <==> x in docs && Satisfies(user, q, x)
    ensures r.Success? ==> forall x ::
      multiset(r.value.filteredApplications)[x] == if Satisfies(user, q, x) then multiset(docs)[x] else 0
  {
    var fq := BuildFilter(user, q);
    if CastFails(fq) {
      return Failure("Server Error");
    }
    var found := Select(docs, fq);
    forall x ensures Matches(fq, x) <==> Satisfies(user, q, x) {
    }
    r := Success(DashboardView(|found|, found));
  }

  // ---------------------------------------------------------------------------------------
  // Numbered rows: the CSV export and the recent-applications table

  /** The eight columns of an exported or displayed row. */
  datatype Row = Row(
    serialNo: int,
    uuid: string,
    company: string,
    jobTitle: string,
    applicationDate: Timestamp,
    status: Status,
    followUpDate: Option<Timestamp>,
    location: string)

  /** `map((job, index) => ...)`: the position plus one replaces the stored serial number. */
  function Numbered(apps: seq<JobApplication>): (rows: seq<Row>)
    ensures |rows| == |apps|
    ensures forall i | 0 <= i < |rows| ::
      && rows[i].serialNo == i + 1
      && rows[i].uuid == apps[i].uuid && rows[i].company == apps[i].company
      && rows[i].jobTitle == apps[i].jobTitle && rows[i].applicationDate == apps[i].applicationDate
      && rows[i].status == apps[i].status && rows[i].followUpDate == apps[i].followUpDate
      && rows[i].location == apps[i].location
  {
    seq(|apps|, i requires 0 <= i < |apps| =>
      Row(i + 1, apps[i].uuid, apps[i].company, apps[i].jobTitle, apps[i].applicationDate,
          apps[i].status, apps[i].followUpDate, apps[i].location))
  }

  /** GET /export: the user's records in storage order, numbered from 1. */
  function ExportRows(docs: seq<JobApplication>, user: UserId): (rows: seq<Row>)
    ensures |rows| == |Owned(docs, user)|
  {
    Numbered(Owned(docs, user))
  }

  /**
   * The exported serial numbers are 1..N in row order whatever the stored ones are, so
   * they agree with the stored ones exactly when the stored ones already are 1..N in
   * storage order.
   */
  lemma ExportSerialsArePositions(docs: seq<JobApplication>, user: UserId)
    ensures var rows := ExportRows(docs, user);
      var owned := Owned(docs, user);
      && (forall i, j | 0 <= i < j < |rows| :: rows[i].serialNo < rows[j].serialNo)
      && (forall i | 0 <= i < |rows| :: rows[i].serialNo == i + 1)
      && ((forall i | 0 <= i < |rows| :: rows[i].serialNo == owned[i].serialNo) <==>
          (forall i | 0 <= i < |owned| :: owned[i].serialNo == i + 1))
  {
  }

  // ---------------------------------------------------------------------------------------
  // PDF summary layout

  /** What the summary prints for the applications: one block each, and page breaks. */
  datatype SummaryItem = Entry(serialNo: nat, app: JobApplication) | PageBreak

  /** The summary's order: the user's records by ascending application date. */
  function DateKey(d: JobApplication): int {
    d.applicationDate
  }

  function SummaryOrder(docs: seq<JobApplication>, user: UserId): (r: seq<JobApplication>)
    ensures multiset(r) == multiset(Owned(docs, user))
  {
    SortBy(Owned(docs, user), DateKey)
  }

  /** The summary lists only the user's records, oldest application first. */
  lemma SummaryOrderShape(docs: seq<JobApplication>, user: UserId)
    ensures var r := SummaryOrder(docs, user);
      && (forall i | 0 <= i < |r| :: r[i].user == user)
      && (forall i, j | 0 <= i < j < |r| :: r[i].applicationDate <= r[j].applicationDate)
  {
    var owned := Owned(docs, user);
    var r := SummaryOrder(docs, user);
    SortByAscending(owned, DateKey);
    forall i | 0 <= i < |r| ensures r[i].user == user {
      assert r[i] in multiset(r);
      assert r[i] in owned;
    }
    forall i, j | 0 <= i < j < |r| ensures r[i].applicationDate <= r[j].applicationDate {
      assert DateKey(r[i]) <= DateKey(r[j]);
    }
  }

  /** The block of application `index` (0-based), followed by a page break when index + 1 is a multiple of 3. */
  function Block(index: nat, app: JobApplication): seq<SummaryItem> {
    [Entry(index + 1, app)] + (if (index + 1) % 3 == 0 then [PageBreak] else [])
  }

  /** The items the `forEach` over the applications emits, defined one application at a time. */
  function Layout(apps: seq<JobApplication>): seq<SummaryItem> {
    if apps == [] then []
    else
      var n := |apps| - 1;
      Layout(apps[..n]) + Block(n, apps[n])
  }

  /** The `forEach` of GET /summary, emitting blocks and page breaks in turn. */
  method SummaryLayout(apps: seq<JobApplication>) returns (items: seq<SummaryItem>)
    ensures items == Layout(apps)
  {
    items := [];
    var index := 0;
    while index < |apps|
      invariant 0 <= index <= |apps|
      invariant items == Layout(apps[..index])
    {
      assert apps[..index + 1][..index] == apps[..index];
      items := items + [Entry(index + 1, apps[index])];
      if (index + 1) % 3 == 0 {
        items := items + [PageBreak];
      }
      index := index + 1;
    }
    assert apps[..|apps|] == apps;
  }

  /**
   * GET /summary: the user's records by ascending application date, application i printed
   * as serial number i + 1 at position i + i / 3, with a page break after every third.
   */
  method Summary(docs: seq<JobApplication>, user: UserId) returns (items: seq<SummaryItem>)
    ensures items == Layout(SummaryOrder(docs, user))
    ensures |items| == |Owned(docs, user)| + |Owned(docs, user)| / 3
    ensures var apps := SummaryOrder(docs, user);
      forall i | 0 <= i < |apps| ::
        && items[i + i / 3] == Entry(i + 1, apps[i])
        && apps[i].user == user
        && (i + 1 < |apps| ==> apps[i].applicationDate <= apps[i + 1].applicationDate)
        && ((i + 1) % 3 == 0 ==> items[i + i / 3 + 1] == PageBreak)
  {
    var apps := SummaryOrder(docs, user);
    items := SummaryLayout(apps);
    LayoutPositions(apps);
    SummaryOrderShape(docs, user);
    assert |apps| == |Owned(docs, user)| by {
      assert |multiset(apps)| == |multiset(Owned(docs, user))|;
    }
  }

  function CountBreaks(items: seq<SummaryItem>): (n: nat)
    ensures n <= |items|
  {
    if items == [] then 0
    else (if items[0].PageBreak? then 1 else 0) + CountBreaks(items[1..])
  }

  lemma {:induction false} CountBreaksAppend(a: seq<SummaryItem>, b: seq<SummaryItem>)
    ensures CountBreaks(a + b) == CountBreaks(a) + CountBreaks(b)
  {
    if a == [] {
      assert a + b == b;
    } else {
      assert (a + b)[1..] == a[1..] + b;
      CountBreaksAppend(a[1..], b);
    }
  }

  /** One block per application, and a page break after every third one. */
  lemma {:induction false} LayoutLength(apps: seq<JobApplication>)
    ensures |Layout(apps)| == |apps| + |apps| / 3
    ensures CountBreaks(Layout(apps)) == |apps| / 3
  {
    if apps != [] {
      var n := |apps| - 1;
      LayoutLength(apps[..n]);
      CountBreaksAppend(Layout(apps[..n]), Block(n, apps[n]));
      var b := Block(n, apps[n]);
      assert b[1..] == if (n + 1) % 3 == 0 then [PageBreak] else [];
      if (n + 1) % 3 == 0 {
        assert b[1..][1..] == [];
      }
    }
  }

  /**
   * Application i (0-based) is printed with serial number i + 1 at position i + i / 3, and
   * a page break follows it exactly when i + 1 is a multiple of 3.
   */
  lemma {:induction false} LayoutPositions(apps: seq<JobApplication>)
    ensures |Layout(apps)| == |apps| + |apps| / 3
    ensures forall i | 0 <= i < |apps| ::
      && Layout(apps)[i + i / 3] == Entry(i + 1, apps[i])
      && ((i + 1) % 3 == 0 ==> Layout(apps)[i + i / 3 + 1] == PageBreak)
      && ((i + 1) % 3 != 0 && i + 1 < |apps| ==> Layout(apps)[i + i / 3 + 1].Entry?)
  {
    LayoutLength(apps);
    if apps != [] {
      var n := |apps| - 1;
      var pre := apps[..n];
      LayoutPositions(pre);
      var items := Layout(apps);
      assert items == Layout(pre) + Block(n, apps[n]);
      forall i | 0 <= i < |apps|
        ensures items[i + i / 3] == Entry(i + 1, apps[i])
        ensures (i + 1) % 3 == 0 ==> items[i + i / 3 + 1] == PageBreak
        ensures (i + 1) % 3 != 0 && i + 1 < |apps| ==> items[i + i / 3 + 1].Entry?
      {
        if i < n {
          assert pre[i] == apps[i];
        }
      }
    }
  }

  // ---------------------------------------------------------------------------------------
  // Analytics

  /** `filter(app => app.status === s).length` */
  function CountStatus(apps: seq<JobApplication>, s: Status): (n: nat)
    ensures n <= |apps|
    ensures n == 0 <==> forall i | 0 <= i < |apps| :: apps[i].status != s
  {
    if apps == [] then 0
    else (if apps[0].status == s then 1 else 0) + CountStatus(apps[1..], s)
  }

  /**
   * Every record has exactly one of the four statuses, so the four counts add up to the
   * total and interviews + offers + rejections never exceed it.
   */
  lemma {:induction false} StatusCountsSum(apps: seq<JobApplication>)
    ensures CountStatus(apps, Applied) + CountStatus(apps, Interviewed)
            + CountStatus(apps, Offered) + CountStatus(apps, Rejected) == |apps|
  {
    if apps != [] {
      StatusCountsSum(apps[1..]);
    }
  }

  datatype StatusCounts = StatusCounts(totalApplications: nat, totalInterviews: nat, totalOffers: nat, totalRejections: nat)

  /** The counts the analytics page shows. */
  function AnalyticsCounts(apps: seq<JobApplication>): (c: StatusCounts)
    ensures c.totalApplications == |apps|
    ensures c.totalInterviews + c.totalOffers + c.totalRejections <= c.totalApplications
    ensures c.totalInterviews + c.totalOffers + c.totalRejections == c.totalApplications - CountStatus(apps, Applied)
  {
    StatusCountsSum(apps);
    StatusCounts(|apps|, CountStatus(apps, Interviewed), CountStatus(apps, Offered), CountStatus(apps, Rejected))
  }

  /** The key `acc[app.industry]` uses: a missing industry becomes the string "undefined". */
  function IndustryKey(d: JobApplication): string {
    d.industry.GetOr("undefined")
  }

  datatype IndustryStat = IndustryStat(total: nat, success: nat)

  /** One step of the `reduce`: create the entry if missing, count the record, count an offer. */
  function Count(acc: map<string, IndustryStat>, d: JobApplication): map<string, IndustryStat> {
    var k := IndustryKey(d);
    var e := if k in acc then acc[k] else IndustryStat(0, 0);
    acc[k := IndustryStat(e.total + 1, e.success + if d.status == Offered then 1 else 0)]
  }

  /** The accumulator after the records, one record at a time. */
  function Tally(apps: seq<JobApplication>): map<string, IndustryStat> {
    if apps == [] then map[]
    else Count(Tally(apps[..|apps| - 1]), apps[|apps| - 1])
  }

  /** The `reduce` of GET /analytics, updating the accumulator in place. */
  method IndustryStats(apps: seq<JobApplication>) returns (acc: map<string, IndustryStat>)
    ensures acc == Tally(apps)
  {
    acc := map[];
    var i := 0;
    while i < |apps|
      invariant 0 <= i <= |apps|
      invariant acc == Tally(apps[..i])
    {
      var app := apps[i];
      assert apps[..i + 1][..i] == apps[..i];
      if IndustryKey(app) !in acc {
        acc := acc[IndustryKey(app) := IndustryStat(0, 0)];
      }
      acc := acc[IndustryKey(app) := acc[IndustryKey(app)].(total := acc[IndustryKey(app)].total + 1)];
      if app.status == Offered {
        acc := acc[IndustryKey(app) := acc[IndustryKey(app)].(success := acc[IndustryKey(app)].success + 1)];
      }
      i := i + 1;
    }
    assert apps[..|apps|] == apps;
  }

  /** What the analytics page shows (the two ratios are left out). */
  datatype AnalyticsView = AnalyticsView(counts: StatusCounts, industryStats: map<string, IndustryStat>, recentApplications: seq<Row>)

  /**
   * GET /analytics: the counts, the per-industry tally and the recent table, all over the
   * user's own records.
   */
  method Analytics(docs: seq<JobApplication>, user: UserId) returns (v: AnalyticsView)
    ensures var apps := Owned(docs, user);
      v == AnalyticsView(AnalyticsCounts(apps), Tally(apps), RecentApplications(apps))
    ensures v.counts.totalApplications == |Owned(docs, user)|
    ensures v.counts.totalOffers == CountStatus(Owned(docs, user), Offered)
    ensures forall k | k in v.industryStats ::
      && v.industryStats[k].total == CountIndustry(Owned(docs, user), k, false)
      && v.industryStats[k].success == CountIndustry(Owned(docs, user), k, true)
    ensures |v.recentApplications| == if |Owned(docs, user)| <= 10 then |Owned(docs, user)| else 10
    ensures forall i | 0 <= i < |v.recentApplications| ::
      exists d | d in docs :: d.user == user && d.uuid == v.recentApplications[i].uuid
  {
    var apps := Owned(docs, user);
    var industries := IndustryStats(apps);
    TallyCounts(apps);
    RecentApplicationsShape(apps);
    v := AnalyticsView(AnalyticsCounts(apps), industries, RecentApplications(apps));
  }

  /** Records with the given industry key, and those of them with an offer. */
  function CountIndustry(apps: seq<JobApplication>, k: string, offersOnly: bool): (n: nat)
    ensures n <= |apps|
  {
    if apps == [] then 0
    else
      var d := apps[|apps| - 1];
      CountIndustry(apps[..|apps| - 1], k, offersOnly)
      + (if IndustryKey(d) == k && (!offersOnly || d.status == Offered) then 1 else 0)
  }

  /**
   * Each industry entry counts exactly the records with that industry key, and its
   * successes exactly those of them with an offer; so success never exceeds total, and the
   * keys are exactly the industries that occur.
   */
  lemma {:induction false} TallyCounts(apps: seq<JobApplication>)
    ensures forall k :: k in Tally(apps) <==> CountIndustry(apps, k, false) > 0
    ensures forall k | k in Tally(apps) ::
      && Tally(apps)[k].total == CountIndustry(apps, k, false)
      && Tally(apps)[k].success == CountIndustry(apps, k, true)
      && Tally(apps)[k].success <= Tally(apps)[k].total
  {
    if apps != [] {
      var n := |apps| - 1;
      var pre := apps[..n];
      TallyCounts(pre);
      var t := Tally(apps);
      assert t == Count(Tally(pre), apps[n]);
      forall k
        ensures k in t <==> CountIndustry(apps, k, false) > 0
        ensures k in t ==> t[k].total == CountIndustry(apps, k, false) && t[k].success == CountIndustry(apps, k, true)
        ensures k in t ==> t[k].success <= t[k].total
      {
        CountIndustryOffersBelow(pre, k);
        CountIndustryOffersBelow(apps, k);
      }
    }
  }

  lemma {:induction false} CountIndustryOffersBelow(apps: seq<JobApplication>, k: string)
    ensures CountIndustry(apps, k, true) <= CountIndustry(apps, k, false)
  {
    if apps != [] {
      CountIndustryOffersBelow(apps[..|apps| - 1], k);
    }
  }

  /** The sum of one field over all entries of the accumulator. */
  ghost function SumOf(m: map<string, IndustryStat>, successes: bool): nat
    decreases |m|
  {
    if m == map[] then 0
    else
      var k :| k in m;
      (if successes then m[k].success else m[k].total) + SumOf(m - {k}, successes)
  }

  /** The sum does not depend on which entry is taken first. */
  lemma {:induction false} SumOfRemove(m: map<string, IndustryStat>, k: string, successes: bool)
    requires k in m
    ensures SumOf(m, successes) == (if successes then m[k].success else m[k].total) + SumOf(m - {k}, successes)
    decreases |m|
  {
    var j :| j in m && SumOf(m, successes) == (if successes then m[j].success else m[j].total) + SumOf(m - {j}, successes);
    if j != k {
      assert k in m - {j};
      SumOfRemove(m - {j}, k, successes);
      assert j in m - {k};
      SumOfRemove(m - {k}, j, successes);
      assert m - {j} - {k} == m - {k} - {j};
    }
  }

  /** Counting one record adds one to the sum of totals, and one to the successes for an offer. */
  lemma SumOfCount(acc: map<string, IndustryStat>, d: JobApplication, successes: bool)
    ensures SumOf(Count(acc, d), successes) ==
      SumOf(acc, successes) + (if !successes || d.status == Offered then 1 else 0)
  {
    var k := IndustryKey(d);
    var m := Count(acc, d);
    SumOfRemove(m, k, successes);
    assert m - {k} == acc - {k};
    if k in acc {
      SumOfRemove(acc, k, successes);
    } else {
      assert acc - {k} == acc;
    }
  }

  /**
   * The industry totals add up to the number of applications, and the successes add up to
   * the number of offers.
   */
  lemma {:induction false} TallySums(apps: seq<JobApplication>)
    ensures SumOf(Tally(apps), false) == |apps|
    ensures SumOf(Tally(apps), true) == CountStatus(apps, Offered)
  {
    if apps != [] {
      var n := |apps| - 1;
      TallySums(apps[..n]);
      SumOfCount(Tally(apps[..n]), apps[n], false);
      SumOfCount(Tally(apps[..n]), apps[n], true);
      CountStatusSnoc(apps[..n], apps[n], Offered);
      assert apps[..n] + [apps[n]] == apps;
    }
  }

  lemma {:induction false} CountStatusSnoc(apps: seq<JobApplication>, d: JobApplication, s: Status)
    ensures CountStatus(apps + [d], s) == CountStatus(apps, s) + (if d.status == s then 1 else 0)
  {
    if apps != [] {
      assert (apps + [d])[1..] == apps[1..] + [d];
      CountStatusSnoc(apps[1..], d, s);
    }
  }

  /** Newest first: the comparator `b.applicationDate - a.applicationDate` as an ascending key. */
  function NewestFirstKey(d: JobApplication): int {
    -d.applicationDate
  }

  /** `slice(0, n)` */
  function Take(s: seq<JobApplication>, n: nat): (r: seq<JobApplication>)
    ensures |r| == if |s| <= n then |s| else n
    ensures forall i | 0 <= i < |r| :: r[i] == s[i]
  {
    if |s| <= n then s else s[..n]
  }

  /** The recent-applications table: the ten newest records, numbered from 1. */
  function RecentApplications(apps: seq<JobApplication>): seq<Row> {
    Numbered(Take(SortBy(apps, NewestFirstKey), 10))
  }

  /** The table numbers the first min(N, 10) records of the newest-first order. */
  lemma RecentApplicationsPrefix(apps: seq<JobApplication>)
    ensures RecentApplications(apps) == Numbered(SortBy(apps, NewestFirstKey)[..if |apps| <= 10 then |apps| else 10])
  {
    var sorted := SortBy(apps, NewestFirstKey);
    assert Take(sorted, 10) == sorted[..if |apps| <= 10 then |apps| else 10];
  }

  /**
   * The table has min(N, 10) rows numbered 1..k, newest first, each row showing one of the
   * user's applications, and no application left out is newer than a shown one.
   */
  lemma RecentApplicationsShape(apps: seq<JobApplication>)
    ensures var rows := RecentApplications(apps);
      && |rows| == (if |apps| <= 10 then |apps| else 10)
      && (forall i | 0 <= i < |rows| :: rows[i].serialNo == i + 1)
      && (forall i, j | 0 <= i < j < |rows| :: rows[i].applicationDate >= rows[j].applicationDate)
      && (forall i | 0 <= i < |rows| :: exists d | d in apps :: d.uuid == rows[i].uuid && d.applicationDate == rows[i].applicationDate)
      && (forall i, j | 0 <= i < |rows| <= j < |apps| :: rows[i].applicationDate >= SortBy(apps, NewestFirstKey)[j].applicationDate)
  {
    var sorted := SortBy(apps, NewestFirstKey);
    SortByAscending(apps, NewestFirstKey);
    var shown := Take(sorted, 10);
    forall i | 0 <= i < |shown| ensures shown[i] in apps {
      assert shown[i] == sorted[i];
      assert sorted[i] in multiset(sorted);
    }
    forall i, j | 0 <= i < j < |shown| ensures shown[i].applicationDate >= shown[j].applicationDate {
      assert NewestFirstKey(sorted[i]) <= NewestFirstKey(sorted[j]);
    }
    forall i, j | 0 <= i < |shown| <= j < |apps| ensures shown[i].applicationDate >= sorted[j].applicationDate {
      assert NewestFirstKey(sorted[i]) <= NewestFirstKey(sorted[j]);
    }
  }
}
