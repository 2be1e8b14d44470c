/**
  The engineered features that `feature_en_additional` adds to the RFM profile:
  the first-time-buyer flag, the mean time interval between purchases, per-invoice
  means (ticket size, quantity, distinct items) and per-month means (invoices,
  line-item spend), joined onto the profile by customer.
 */
module Enrichment {
  import opened Wrappers
  import opened Seqs
  import opened Grouping
  import opened Calendar
  import opened Profiling

  /** One row of the enriched customer profile. */
  datatype ProfileRow = ProfileRow(
    customer: int, recency: int, frequency: nat, monetary: real,
    isFirstTimeBuyer: int, meanTimeInterval: real,
    meanTicketSize: real, meanQuantity: real, meanUniqueItem: real,
    freqPerMonth: real, meanSpentPerMonth: real)

  function QuantityOf(t: Txn): real { t.quantity as real }
  function StockOf(t: Txn): string { t.stock }
  function AsReal(x: int): real { x as real }
  function Abs(x: int): int { if x < 0 then -x else x }

  // ---------------------------------------------------------------- 1. is_first_time_buyer

  /** `isnull()` turned into the 0/1 flag of the profile column. */
  function NullFlag(v: Option<int>): int
  {
    if v.None? then 1 else 0
  }

  /**
    The flag as written: the null test is applied to the profile's recency, which
    `get_recency` has already filled, so no customer is ever flagged.
   */
  function FirstTimeBuyerAsWritten(row: RfmRow): (f: int)
    ensures f == 0
  {
    NullFlag(Some(row.recency))
  }

  /** A customer has a last deduplicated row. */
  lemma HasLastRow(u: seq<InvoiceRow>, c: int)
    requires c in KeysOf(u, InvoiceCustomer)
    ensures LastBefore(u, c, |u|).Some?
  {
    var x :| x in u && x.customer == c;
    var j :| 0 <= j < |u| && u[j] == x;
  }

  /**
    The flag as intended: the null test applied to the customer's recency BEFORE the
    fill, that is to the day-diff of the customer's last deduplicated row. It is 1
    exactly for customers with a single deduplicated invoice.
   */
  function FirstTimeBuyer(u: seq<InvoiceRow>, c: int): (f: int)
    requires c in KeysOf(u, InvoiceCustomer)
    ensures f == 0 || f == 1
    ensures f == 1 <==> |Select(u, InvoiceCustomer, c)| == 1
  {
    HasLastRow(u, c);
    var i := LastBefore(u, c, |u|).value;
    FirstTimeBuyerCount(u, i);
    NullFlag(DiffDays(u, i))
  }

  /** The last row's day-diff is missing exactly when it is the customer's only row. */
  lemma FirstTimeBuyerCount(u: seq<InvoiceRow>, i: nat)
    requires i < |u| && IsLastOfCustomer(u, i)
    ensures DiffDays(u, i).None? <==> |Select(u, InvoiceCustomer, u[i].customer)| == 1
  {
    LastRowPosition(u, i);
    DiffDaysInGroup(u, i);
  }

  /**
    The discrepancy: every customer of the profile with a single deduplicated invoice
    is a first-time buyer, yet the flag as written is 0 for them.
   */
  lemma FirstTimeBuyerFinding(rows: seq<Txn>, row: RfmRow)
    requires row in RfmProfile(rows)
    requires |Select(DistinctInvoices(DropAnonymous(rows)), InvoiceCustomer, row.customer)| == 1
    ensures row.customer in KeysOf(DistinctInvoices(DropAnonymous(rows)), InvoiceCustomer)
    ensures FirstTimeBuyer(DistinctInvoices(DropAnonymous(rows)), row.customer) == 1
    ensures FirstTimeBuyerAsWritten(row) == 0
  {
    RfmRowSpec(rows, row);
  }

  /** A concrete input: one deduplicated invoice of customer 7. */
  lemma FirstTimeBuyerExample()
    ensures var u := [InvoiceRow(7, "536365", 1291191960)];
            && 7 in KeysOf(u, InvoiceCustomer)
            && RecencyTable(u) == [RecencyRow(7, 0)]
            && FirstTimeBuyer(u, 7) == 1
            && FirstTimeBuyerAsWritten(RfmRow(7, 0, 1, 15.3)) == 0
  {
    var u := [InvoiceRow(7, "536365", 1291191960)];
    assert u[0] in u;
    assert Select(u, InvoiceCustomer, 7) == [u[0]];
    assert IsLastOfCustomer(u, 0);
    assert DiffDays(u, 0) == None;
  }

  // ---------------------------------------------------------------- 2. mean time between purchases

  /** Whole-day gaps between consecutive rows of one customer, in row order. */
  function Gaps(g: seq<InvoiceRow>): seq<int>
  {
    if |g| <= 1 then [] else seq(|g| - 1, j requires 0 <= j < |g| - 1 => DayGap(g[j].date, g[j + 1].date))
  }

  /** `diff().abs()` of a gap column: absolute changes between consecutive gaps. */
  function GapChanges(gaps: seq<int>): seq<int>
  {
    if |gaps| <= 1 then [] else seq(|gaps| - 1, j requires 0 <= j < |gaps| - 1 => Abs(gaps[j + 1] - gaps[j]))
  }

  /**
    The aggregate of one customer's rows: the mean absolute change between
    consecutive gaps, or None (NaN) when there is no change to average, which is
    the case exactly for customers with at most two deduplicated invoices.
   */
  function MeanGapChange(g: seq<InvoiceRow>): (r: Option<real>)
    ensures r.None? <==> |g| <= 2
    ensures r.Some? ==> r.value >= 0.0
    ensures |g| > 2 ==> r == Some(Sum(GapChanges(Gaps(g)), AsReal) / ((|g| - 2) as real))
  {
    var ch := GapChanges(Gaps(g));
    GapChangeCount(g);
    if |ch| == 0 then None
    else
      NonNegativeMean(ch);
      Some(Mean(ch, AsReal))
  }

  lemma GapChangeCount(g: seq<InvoiceRow>)
    ensures |GapChanges(Gaps(g))| == if |g| <= 2 then 0 else |g| - 2
  {
    if |g| > 1 {
      assert |Gaps(g)| == |g| - 1;
    }
  }

  /**
    The terms the aggregate averages, read off the rows: with at least three rows
    there are `|g| - 2` of them, and term `j` is the absolute difference between the
    gap from row `j + 1` to row `j + 2` and the gap from row `j` to row `j + 1`.
   */
  lemma GapChangeTerms(g: seq<InvoiceRow>)
    requires |g| > 2
    ensures |GapChanges(Gaps(g))| == |g| - 2
    ensures forall j :: 0 <= j < |g| - 2 ==>
              GapChanges(Gaps(g))[j] == Abs(DayGap(g[j + 1].date, g[j + 2].date) - DayGap(g[j].date, g[j + 1].date))
  {
    var gaps := Gaps(g);
    assert |gaps| == |g| - 1;
    forall j | 0 <= j < |g| - 2
      ensures GapChanges(gaps)[j] == Abs(DayGap(g[j + 1].date, g[j + 2].date) - DayGap(g[j].date, g[j + 1].date))
    {
      assert gaps[j] == DayGap(g[j].date, g[j + 1].date);
      assert gaps[j + 1] == DayGap(g[j + 1].date, g[j + 2].date);
    }
  }

  /**
    Uneven purchases: gaps of 1, 3 and 6 days change by 2 and then 3, so the mean
    time interval is 2.5, while the mean gap is 10/3.
   */
  lemma UnevenGapsInterval(g: seq<InvoiceRow>)
    requires |g| == 4
    requires DayGap(g[0].date, g[1].date) == 1
    requires DayGap(g[1].date, g[2].date) == 3
    requires DayGap(g[2].date, g[3].date) == 6
    ensures MeanGapChange(g) == Some(2.5)
    ensures Mean(Gaps(g), AsReal) == 10.0 / 3.0
  {
    var gaps := Gaps(g);
    assert gaps == [1, 3, 6];
    var ch := GapChanges(gaps);
    assert ch == [2, 3];
    assert Sum(ch, AsReal) == 5.0 by {
      assert ch[..1] == [2];
      assert [2][..0] == [];
    }
    assert Sum(gaps, AsReal) == 10.0 by {
      assert gaps[..2] == [1, 3];
      assert [1, 3][..1] == [1];
      assert [1][..0] == [];
    }
  }

  lemma NonNegativeMean(ch: seq<int>)
    requires |ch| > 0
    requires forall j :: 0 <= j < |ch| ==> ch[j] >= 0
    ensures Mean(ch, AsReal) >= 0.0
  {
    NonNegativeSum(ch);
  }

  lemma {:induction false} NonNegativeSum(ch: seq<int>)
    requires forall j :: 0 <= j < |ch| ==> ch[j] >= 0
    ensures Sum(ch, AsReal) >= 0.0
    decreases |ch|
  {
    if |ch| > 0 {
      NonNegativeSum(ch[..|ch| - 1]);
    }
  }

  /**
    The per-row column the aggregate sees (line 98) is, for the customer's row at
    position `k`, missing at `k == 0` and the `k - 1`-th gap of the customer's rows
    otherwise: the lambda's `diff` runs over exactly the gaps `Gaps` lists.
   */
  lemma DiffColumnIsGaps(u: seq<InvoiceRow>, i: nat)
    requires i < |u|
    ensures var g := Select(u, InvoiceCustomer, u[i].customer);
            var k := |Select(u[..i], InvoiceCustomer, u[i].customer)|;
            && k < |g|
            && (k == 0 ==> DiffDays(u, i) == None)
            && (k > 0 ==> DiffDays(u, i) == Some(Gaps(g)[k - 1]))
  {
    DiffDaysInGroup(u, i);
  }

  /**
    The feature is not a mean gap: purchases evenly spaced `gap` days apart have a
    mean gap of `gap` but a mean time interval of 0.
   */
  lemma EvenlySpacedInterval(g: seq<InvoiceRow>, gap: int)
    requires |g| >= 3
    requires forall j :: 0 <= j < |g| - 1 ==> DayGap(g[j].date, g[j + 1].date) == gap
    ensures MeanGapChange(g) == Some(0.0)
    ensures Mean(Gaps(g), AsReal) == gap as real
  {
    var gaps := Gaps(g);
    var ch := GapChanges(gaps);
    ConstantGaps(g, gap);
    ConstantGapChanges(gaps, gap);
    SumOfZeros(ch, AsReal);
    MeanBounds(gaps, AsReal, gap as real, gap as real);
  }

  lemma ConstantGaps(g: seq<InvoiceRow>, gap: int)
    requires |g| >= 2
    requires forall j :: 0 <= j < |g| - 1 ==> DayGap(g[j].date, g[j + 1].date) == gap
    ensures |Gaps(g)| == |g| - 1
    ensures forall j :: 0 <= j < |Gaps(g)| ==> gap as real <= AsReal(Gaps(g)[j]) <= gap as real
  {
  }

  lemma ConstantGapChanges(gaps: seq<int>, gap: int)
    requires |gaps| >= 2
    requires forall j :: 0 <= j < |gaps| ==> gap as real <= AsReal(gaps[j]) <= gap as real
    ensures |GapChanges(gaps)| == |gaps| - 1
    ensures forall j :: 0 <= j < |GapChanges(gaps)| ==> AsReal(GapChanges(gaps)[j]) == 0.0
  {
    var ch := GapChanges(gaps);
    forall j | 0 <= j < |ch| ensures AsReal(ch[j]) == 0.0 {
      assert AsReal(gaps[j]) == AsReal(gaps[j + 1]);
    }
  }

  /** Per customer of `u`: the corrected first-time flag and the mean time interval. */
  datatype TimeFeatures = TimeFeatures(firstTime: int, interval: Option<real>)

  function TimeFeaturesOf(u: seq<InvoiceRow>, c: int): TimeFeatures
    requires c in KeysOf(u, InvoiceCustomer)
  {
    TimeFeatures(FirstTimeBuyer(u, c), MeanGapChange(Select(u, InvoiceCustomer, c)))
  }

  /** The per-customer time features, keyed like the groupby of line 100. */
  function TimeTable(u: seq<InvoiceRow>): (m: map<int, TimeFeatures>)
    ensures m.Keys == KeysOf(u, InvoiceCustomer)
    ensures forall c :: c in m ==> m[c] == TimeFeaturesOf(u, c)
  {
    map c | c in KeysOf(u, InvoiceCustomer) :: TimeFeaturesOf(u, c)
  }

  // ---------------------------------------------------------------- 3. means per purchase

  /** Sums of one invoice's rows: spend, quantity, and distinct stock codes. */
  function InvoiceSpend(g: Group<string, Txn>): real { Sum(g.items, SpendOf) }
  function InvoiceQuantity(g: Group<string, Txn>): real { Sum(g.items, QuantityOf) }
  function InvoiceUniqueItems(g: Group<string, Txn>): real { |KeysOf(g.items, StockOf)| as real }

  datatype PurchaseMeans = PurchaseMeans(ticketSize: real, quantity: real, uniqueItems: real)

  /** One customer's rows grouped by invoice, then the mean of each invoice sum. */
  function PurchaseStats(items: seq<Txn>): PurchaseMeans
  {
    var invoices := GroupBy(items, InvoiceOf);
    PurchaseMeans(Mean(invoices, InvoiceSpend), Mean(invoices, InvoiceQuantity), Mean(invoices, InvoiceUniqueItems))
  }

  function PurchaseTable(d: seq<Txn>): (m: map<int, PurchaseMeans>)
    ensures m.Keys == KeysOf(d, CustomerOf)
    ensures forall c :: c in m ==> m[c] == PurchaseStats(Select(d, CustomerOf, c))
  {
    AggregateGroupBy(d, CustomerOf, PurchaseStats);
    Aggregate(GroupBy(d, CustomerOf), PurchaseStats)
  }

  /** Mean ticket size is the customer's total spend per distinct invoice. */
  lemma {:induction false} TicketSizePerInvoice(items: seq<Txn>)
    requires |items| > 0
    ensures PurchaseStats(items).ticketSize == Sum(items, SpendOf) / (NUniqueInvoices(items) as real)
  {
    GroupsNonEmpty(items, InvoiceOf);
    GroupSumIsSum(items, InvoiceOf, SpendOf, InvoiceSpend);
  }

  /** Mean quantity is the customer's total quantity per distinct invoice. */
  lemma {:induction false} QuantityPerInvoice(items: seq<Txn>)
    requires |items| > 0
    ensures PurchaseStats(items).quantity == Sum(items, QuantityOf) / (NUniqueInvoices(items) as real)
  {
    GroupsNonEmpty(items, InvoiceOf);
    GroupSumIsSum(items, InvoiceOf, QuantityOf, InvoiceQuantity);
  }

  /**
    Each invoice holds between one and all of the customer's distinct stock codes,
    so the mean number of distinct items per invoice lies between those bounds.
   */
  lemma UniqueItemBounds(items: seq<Txn>)
    requires |items| > 0
    ensures 1.0 <= PurchaseStats(items).uniqueItems <= |KeysOf(items, StockOf)| as real
  {
    var invoices := GroupBy(items, InvoiceOf);
    var hi := |KeysOf(items, StockOf)| as real;
    assert items[0] in items;
    assert InvoiceOf(items[0]) in KeySet(invoices);
    forall i | 0 <= i < |invoices| ensures 1.0 <= InvoiceUniqueItems(invoices[i]) <= hi {
      GroupKeysWithin(items, InvoiceOf, invoices[i], StockOf);
    }
    MeanBounds(invoices, InvoiceUniqueItems, 1.0, hi);
  }

  // ---------------------------------------------------------------- 4. means per month

  /** `InvoiceDate.dt.month`: the calendar month 1-12, whatever the year. */
  function MonthOf(t: Txn): int { CalendarMonth(t.date) }

  /** Per month of one customer: distinct invoices, and the mean line-item spend. */
  function MonthInvoices(g: Group<int, Txn>): real { |KeysOf(g.items, InvoiceOf)| as real }
  function MonthLineSpend(g: Group<int, Txn>): real { Mean(g.items, SpendOf) }

  datatype MonthMeans = MonthMeans(freqPerMonth: real, meanSpentPerMonth: real)

  /** One customer's rows grouped by calendar month, then the mean over the months. */
  function MonthStats(items: seq<Txn>): MonthMeans
  {
    var months := GroupBy(items, MonthOf);
    MonthMeans(Mean(months, MonthInvoices), Mean(months, MonthLineSpend))
  }

  function MonthTable(d: seq<Txn>): (m: map<int, MonthMeans>)
    ensures m.Keys == KeysOf(d, CustomerOf)
    ensures forall c :: c in m ==> m[c] == MonthStats(Select(d, CustomerOf, c))
  {
    AggregateGroupBy(d, CustomerOf, MonthStats);
    Aggregate(GroupBy(d, CustomerOf), MonthStats)
  }

  /** A customer's rows fall into at most twelve month groups. */
  lemma AtMostTwelveMonths(items: seq<Txn>)
    ensures |GroupBy(items, MonthOf)| <= 12
  {
    forall t | t in items ensures MonthOf(t) in MonthNumbers {
      MonthNumbersCover(MonthOf(t));
    }
    GroupCountBound(items, MonthOf, MonthNumbers);
    MonthNumbersCount();
  }

  const MonthNumbers: set<int> := {1, 2, 3, 4, 5, 6, 7, 8, 9, 10, 11, 12}

  lemma MonthNumbersCover(m: int)
    requires 1 <= m <= 12
    ensures m in MonthNumbers
  {
  }

  lemma MonthNumbersCount()
    ensures |MonthNumbers| == 12
  {
  }

  /**
    Invoices per month lie between one and the customer's frequency: every month
    group has an invoice, and only invoices of the customer.
   */
  lemma FreqPerMonthBounds(items: seq<Txn>)
    requires |items| > 0
    ensures 1.0 <= MonthStats(items).freqPerMonth <= NUniqueInvoices(items) as real
  {
    var months := GroupBy(items, MonthOf);
    var hi := NUniqueInvoices(items) as real;
    assert items[0] in items;
    assert MonthOf(items[0]) in KeySet(months);
    forall i | 0 <= i < |months| ensures 1.0 <= MonthInvoices(months[i]) <= hi {
      GroupKeysWithin(items, MonthOf, months[i], InvoiceOf);
    }
    MeanBounds(months, MonthInvoices, 1.0, hi);
  }

  /**
    The mean spent per month averages line items, not monthly totals: with every
    line's spend in `[lo, hi]` the feature stays in `[lo, hi]` however many lines a
    month holds.
   */
  lemma SpentPerMonthBounds(items: seq<Txn>, lo: real, hi: real)
    requires |items| > 0
    requires forall j :: 0 <= j < |items| ==> lo <= items[j].spend <= hi
    ensures lo <= MonthStats(items).meanSpentPerMonth <= hi
  {
    var months := GroupBy(items, MonthOf);
    assert items[0] in items;
    assert MonthOf(items[0]) in KeySet(months);
    forall i | 0 <= i < |months| ensures lo <= MonthLineSpend(months[i]) <= hi {
      var g := months[i];
      GroupItems(items, MonthOf, g);
      forall j | 0 <= j < |g.items| ensures lo <= SpendOf(g.items[j]) <= hi {
        assert g.items[j] in items;
      }
      MeanBounds(g.items, SpendOf, lo, hi);
    }
    MeanBounds(months, MonthLineSpend, lo, hi);
  }

  // ---------------------------------------------------------------- the joins of lines 148-150

  /**
    The row the three inner joins produce for profile row `p`; the interval falls
    back to the recency where the aggregate is missing (`combine_first`).
   */
  function EnrichRow(p: RfmRow, t: TimeFeatures, m: PurchaseMeans, s: MonthMeans): ProfileRow
  {
    ProfileRow(p.customer, p.recency, p.frequency, p.monetary,
               t.firstTime, t.interval.GetOr(p.recency as real),
               m.ticketSize, m.quantity, m.uniqueItems,
               s.freqPerMonth, s.meanSpentPerMonth)
  }

  predicate Joinable(c: int, time: map<int, TimeFeatures>, purchase: map<int, PurchaseMeans>, month: map<int, MonthMeans>)
  {
    c in time && c in purchase && c in month
  }

  /** `r` is row for row the profile: same length, same customer at every position. */
  predicate SameCustomers(r: seq<ProfileRow>, profile: seq<RfmRow>)
  {
    |r| == |profile| && forall j :: 0 <= j < |r| ==> r[j].customer == profile[j].customer
  }

  /** Every profile customer has an entry in each feature table. */
  predicate AllJoinable(profile: seq<RfmRow>, time: map<int, TimeFeatures>, purchase: map<int, PurchaseMeans>, month: map<int, MonthMeans>)
  {
    forall p :: p in profile ==> Joinable(p.customer, time, purchase, month)
  }

  /**
    The inner joins on CustomerID, in the profile's row order: a profile row whose
    customer is missing from a feature table is dropped; when none is missing, the
    result is row for row the profile with its features attached.
   */
  function Enrich(profile: seq<RfmRow>, time: map<int, TimeFeatures>, purchase: map<int, PurchaseMeans>, month: map<int, MonthMeans>): (r: seq<ProfileRow>)
    ensures |r| <= |profile|
    ensures forall row :: row in r <==>
              exists p :: p in profile && Joinable(p.customer, time, purchase, month)
                          && row == EnrichRow(p, time[p.customer], purchase[p.customer], month[p.customer])
    ensures AllJoinable(profile, time, purchase, month) ==> SameCustomers(r, profile)
    decreases |profile|
  {
    if |profile| == 0 then []
    else
      var p := profile[0];
      var rest := Enrich(profile[1..], time, purchase, month);
      SplitFirst(profile);
      assert forall q :: q in profile <==> q == p || q in profile[1..];
      if Joinable(p.customer, time, purchase, month) then
        var r := [EnrichRow(p, time[p.customer], purchase[p.customer], month[p.customer])] + rest;
        assert forall j :: 1 <= j < |r| ==> r[j] == rest[j - 1];
        r
      else rest
  }

  /**
    `process` up to `feature_en_additional`, with the corrected first-time flag. Every
    RFM customer has a row in each feature table, so the inner joins lose no row and
    keep the profile's order.
   */
  function EnrichedProfile(rows: seq<Txn>): (r: seq<ProfileRow>)
    ensures SameCustomers(r, RfmProfile(rows))
  {
    var d := DropAnonymous(rows);
    var u := DistinctInvoices(d);
    var profile, time, purchase, month := RfmProfile(rows), TimeTable(u), PurchaseTable(d), MonthTable(d);
    ProfileJoinable(rows);
    assert AllJoinable(profile, time, purchase, month);
    Enrich(profile, time, purchase, month)
  }

  /** Every profile customer has a row in each feature table. */
  lemma ProfileJoinable(rows: seq<Txn>)
    ensures var d := DropAnonymous(rows);
            var u := DistinctInvoices(d);
            AllJoinable(RfmProfile(rows), TimeTable(u), PurchaseTable(d), MonthTable(d))
  {
    var d := DropAnonymous(rows);
    var u := DistinctInvoices(d);
    RfmProfileSpec(rows);
    DistinctInvoicesCustomers(d);
  }

  /**
    The enriched profile keeps every RFM row, in order, and each row's features are
    what lines 91-145 promise: the flag marks single-invoice customers, the interval
    is the mean absolute gap change or else the recency, mean ticket size is
    monetary per invoice, and invoices per month lie between 1 and frequency.
   */
  lemma EnrichedProfileSpec(rows: seq<Txn>)
    ensures |EnrichedProfile(rows)| == |RfmProfile(rows)|
    ensures forall j :: 0 <= j < |EnrichedProfile(rows)| ==> EnrichedProfile(rows)[j].customer == RfmProfile(rows)[j].customer
    ensures forall row :: row in EnrichedProfile(rows) ==> EnrichedRowSpec(rows, row)
  {
    forall row | row in EnrichedProfile(rows) ensures EnrichedRowSpec(rows, row) {
      EnrichedRowFacts(rows, row);
    }
  }

  /** What one row of the enriched profile satisfies. */
  ghost predicate EnrichedRowSpec(rows: seq<Txn>, row: ProfileRow)
  {
    RowRfmSpec(rows, row) && RowTimeSpec(rows, row) && RowPurchaseSpec(row)
  }

  /** The row's customer and RFM columns come from the RFM profile. */
  ghost predicate RowRfmSpec(rows: seq<Txn>, row: ProfileRow)
  {
    var d := DropAnonymous(rows);
    var c := row.customer;
    && c in KeysOf(DistinctInvoices(d), InvoiceCustomer)
    && c in KeysOf(d, CustomerOf)
    && RfmRow(c, row.recency, row.frequency, row.monetary) in RfmProfile(rows)
  }

  /** The first-time flag and the interval follow the customer's deduplicated invoices. */
  ghost predicate RowTimeSpec(rows: seq<Txn>, row: ProfileRow)
  {
    RowTimeOf(DistinctInvoices(DropAnonymous(rows)), row)
  }

  predicate RowTimeOf(u: seq<InvoiceRow>, row: ProfileRow)
  {
    var g := Select(u, InvoiceCustomer, row.customer);
    && (row.isFirstTimeBuyer == 1 <==> |g| == 1)
    && (row.isFirstTimeBuyer == 0 || row.isFirstTimeBuyer == 1)
    && row.meanTimeInterval == MeanGapChange(g).GetOr(row.recency as real)
    && (|g| <= 2 ==> row.meanTimeInterval == row.recency as real)
  }

  /** Mean ticket size is monetary per invoice; invoices per month lie between 1 and frequency. */
  predicate RowPurchaseSpec(row: ProfileRow)
  {
    && row.frequency >= 1
    && row.meanTicketSize == row.monetary / (row.frequency as real)
    && 1.0 <= row.freqPerMonth <= row.frequency as real
  }

  /** The profile row and feature-table entries a row of the enriched profile was joined from. */
  ghost predicate JoinedFrom(rows: seq<Txn>, row: ProfileRow, p: RfmRow)
  {
    var d := DropAnonymous(rows);
    var u := DistinctInvoices(d);
    && p in RfmProfile(rows)
    && Joinable(p.customer, TimeTable(u), PurchaseTable(d), MonthTable(d))
    && row == EnrichRow(p, TimeTable(u)[p.customer], PurchaseTable(d)[p.customer], MonthTable(d)[p.customer])
  }

  lemma EnrichedRowFacts(rows: seq<Txn>, row: ProfileRow)
    requires row in EnrichedProfile(rows)
    ensures EnrichedRowSpec(rows, row)
  {
    var p := JoinedWitness(rows, row);
    RowRfmFacts(rows, row, p);
    JoinedTimeFacts(rows, row, p);
    RowPurchaseFacts(rows, row, p);
  }

  /** Every row of the enriched profile was joined from some profile row. */
  lemma JoinedWitness(rows: seq<Txn>, row: ProfileRow) returns (p: RfmRow)
    requires row in EnrichedProfile(rows)
    ensures JoinedFrom(rows, row, p)
  {
    var d := DropAnonymous(rows);
    var u := DistinctInvoices(d);
    var profile, time, purchase, month := RfmProfile(rows), TimeTable(u), PurchaseTable(d), MonthTable(d);
    assert row in Enrich(profile, time, purchase, month);
    p :| p in profile && Joinable(p.customer, time, purchase, month)
         && row == EnrichRow(p, time[p.customer], purchase[p.customer], month[p.customer]);
  }

  lemma JoinedTimeFacts(rows: seq<Txn>, row: ProfileRow, p: RfmRow)
    requires JoinedFrom(rows, row, p)
    requires RowRfmSpec(rows, row)
    ensures RowTimeSpec(rows, row)
  {
    var u := DistinctInvoices(DropAnonymous(rows));
    RowTimeFacts(u, row, TimeTable(u)[p.customer]);
  }


  lemma RowRfmFacts(rows: seq<Txn>, row: ProfileRow, p: RfmRow)
    requires JoinedFrom(rows, row, p)
    ensures RowRfmSpec(rows, row)
  {
    var d := DropAnonymous(rows);
    RfmRowSpec(rows, p);
    DistinctInvoicesCustomers(d);
    assert p == RfmRow(row.customer, row.recency, row.frequency, row.monetary);
  }

  lemma RowTimeFacts(u: seq<InvoiceRow>, row: ProfileRow, t: TimeFeatures)
    requires row.customer in KeysOf(u, InvoiceCustomer)
    requires t == TimeFeaturesOf(u, row.customer)
    requires row.isFirstTimeBuyer == t.firstTime
    requires row.meanTimeInterval == t.interval.GetOr(row.recency as real)
    ensures RowTimeOf(u, row)
  {
  }

  lemma RowPurchaseFacts(rows: seq<Txn>, row: ProfileRow, p: RfmRow)
    requires JoinedFrom(rows, row, p)
    ensures RowPurchaseSpec(row)
  {
    var d := DropAnonymous(rows);
    var c := p.customer;
    RfmProfileSpec(rows);
    var items := Select(d, CustomerOf, c);
    SelectPresent(d, CustomerOf, c);
    assert p.frequency == NUniqueInvoices(items);
    assert p.monetary == Sum(items, SpendOf);
    TicketSizePerInvoice(items);
    FreqPerMonthBounds(items);
    assert row.meanTicketSize == PurchaseStats(items).ticketSize;
    assert row.freqPerMonth == MonthStats(items).freqPerMonth;
  }
}
