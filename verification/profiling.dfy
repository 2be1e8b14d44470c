/**
  RFM profile construction (`CustomerProfilingService`): anonymous-row removal,
  invoice deduplication, recency, frequency, monetary and their inner join.
 */
module Profiling {
  import opened Wrappers
  import opened Seqs
  import opened Grouping
  import opened Calendar

  /** CustomerID of anonymous (guest) transactions. */
  const Anonymous: int := 0

  /** One line item of the transaction table; `date` is a timestamp in seconds. */
  datatype Txn = Txn(customer: int, invoice: string, date: int, stock: string, quantity: int, spend: real)

  /** One row of the deduplicated customer-invoice table (`unique_invoice`). */
  datatype InvoiceRow = InvoiceRow(customer: int, invoice: string, date: int)

  /** One row of the recency table: the customer's recency in whole days. */
  datatype RecencyRow = RecencyRow(customer: int, recency: int)

  /** One row of the merged RFM profile. */
  datatype RfmRow = RfmRow(customer: int, recency: int, frequency: nat, monetary: real)

  function CustomerOf(t: Txn): int { t.customer }
  function InvoiceOf(t: Txn): string { t.invoice }
  function SpendOf(t: Txn): real { t.spend }
  function InvoiceCustomer(u: InvoiceRow): int { u.customer }
  function InvoiceNo(u: InvoiceRow): string { u.invoice }
  function RecencyCustomer(r: RecencyRow): int { r.customer }
  function RfmCustomer(r: RfmRow): int { r.customer }

  // ---------------------------------------------------------------- drop_anonymous

  /** `drop_anonymous`: the rows whose CustomerID is not 0, in their original order. */
  function DropAnonymous(rows: seq<Txn>): (r: seq<Txn>)
    ensures forall t :: t in r <==> t in rows && t.customer != Anonymous
    decreases |rows|
  {
    if |rows| == 0 then []
    else
      var n := |rows| - 1;
      assert rows == rows[..n] + [rows[n]];
      DropAnonymous(rows[..n]) + (if rows[n].customer != Anonymous then [rows[n]] else [])
  }

  /** Every named-customer row survives as often as it occurs; no anonymous row survives. */
  lemma {:induction false} DropAnonymousCounts(rows: seq<Txn>)
    ensures forall t: Txn :: t.customer != Anonymous ==> multiset(DropAnonymous(rows))[t] == multiset(rows)[t]
    ensures forall t: Txn :: t.customer == Anonymous ==> multiset(DropAnonymous(rows))[t] == 0
    decreases |rows|
  {
    if |rows| > 0 {
      var n := |rows| - 1;
      DropAnonymousCounts(rows[..n]);
      DropAnonymousLast(rows);
      SplitLast(rows);
      assert multiset(rows) == multiset(rows[..n]) + multiset{rows[n]};
    }
  }

  /** One step of the definition: the last row survives exactly when it is not anonymous. */
  lemma DropAnonymousLast(rows: seq<Txn>)
    requires |rows| > 0
    ensures DropAnonymous(rows) == DropAnonymous(rows[..|rows| - 1])
              + (if rows[|rows| - 1].customer != Anonymous then [rows[|rows| - 1]] else [])
  {
  }

  /** Dropping distributes over concatenation, so the surviving rows keep their relative order. */
  lemma {:induction false} DropAnonymousConcat(a: seq<Txn>, b: seq<Txn>)
    ensures DropAnonymous(a + b) == DropAnonymous(a) + DropAnonymous(b)
    decreases |b|
  {
    if |b| == 0 {
      assert a + b == a;
    } else {
      var n := |b| - 1;
      var ab := a + b;
      var last := if b[n].customer != Anonymous then [b[n]] else [];
      ConcatButLast(a, b);
      DropAnonymousLast(ab);
      DropAnonymousLast(b);
      DropAnonymousConcat(a, b[..n]);
      var x, y := DropAnonymous(a), DropAnonymous(b[..n]);
      assert DropAnonymous(ab) == (x + y) + last;
      assert DropAnonymous(b) == y + last;
      ConcatAssoc(x, y, last);
    }
  }

  // ---------------------------------------------------------------- distinct_customer_invoice

  function Project(t: Txn): InvoiceRow
  {
    InvoiceRow(t.customer, t.invoice, t.date)
  }

  /** Position of the first row carrying invoice `inv`. */
  function FirstIndex(rows: seq<Txn>, inv: string): (i: nat)
    requires inv in KeysOf(rows, InvoiceOf)
    ensures i < |rows| && rows[i].invoice == inv
    ensures forall j :: 0 <= j < i ==> rows[j].invoice != inv
    decreases |rows|
  {
    var n := |rows| - 1;
    assert forall t :: t in rows <==> t in rows[..n] || t == rows[n] by {
      assert rows == rows[..n] + [rows[n]];
    }
    if inv in KeysOf(rows[..n], InvoiceOf) then FirstIndex(rows[..n], inv)
    else
      assert forall j :: 0 <= j < n ==> rows[..n][j] in rows[..n];
      n
  }

  /**
    `u` keeps exactly the first row of every invoice of `rows`, projected to
    (CustomerID, InvoiceNo, InvoiceDate), in the order of those first rows.
   */
  ghost predicate FirstRowPerInvoice(rows: seq<Txn>, u: seq<InvoiceRow>)
  {
    && KeysOf(u, InvoiceNo) == KeysOf(rows, InvoiceOf)
    && (forall j :: 0 <= j < |u| ==>
          u[j].invoice in KeysOf(rows, InvoiceOf) && u[j] == Project(rows[FirstIndex(rows, u[j].invoice)]))
    && (forall j, k :: 0 <= j < k < |u| ==>
          FirstIndex(rows, u[j].invoice) < FirstIndex(rows, u[k].invoice))
  }

  /**
    `distinct_customer_invoice`: `drop_duplicates(['InvoiceNo'])` on the
    (CustomerID, InvoiceNo, InvoiceDate) projection, keeping the first row of every
    invoice and the original row order.
   */
  function DistinctInvoices(rows: seq<Txn>): (u: seq<InvoiceRow>)
    ensures FirstRowPerInvoice(rows, u)
    ensures UniqueKeys(u, InvoiceNo)
    decreases |rows|
  {
    if |rows| == 0 then []
    else
      var n := |rows| - 1;
      var prev := DistinctInvoices(rows[..n]);
      var u := if rows[n].invoice in KeysOf(rows[..n], InvoiceOf) then prev else prev + [Project(rows[n])];
      DistinctInvoicesStep(rows, prev, u);
      u
  }

  lemma DistinctInvoicesStep(rows: seq<Txn>, prev: seq<InvoiceRow>, u: seq<InvoiceRow>)
    requires |rows| > 0
    requires FirstRowPerInvoice(rows[..|rows| - 1], prev)
    requires u == if rows[|rows| - 1].invoice in KeysOf(rows[..|rows| - 1], InvoiceOf) then prev
                  else prev + [Project(rows[|rows| - 1])]
    ensures FirstRowPerInvoice(rows, u)
    ensures UniqueKeys(u, InvoiceNo)
  {
    var n := |rows| - 1;
    assert KeysOf(rows, InvoiceOf) == KeysOf(rows[..n], InvoiceOf) + {rows[n].invoice} by {
      SplitLast(rows);
      KeysOfAppend(rows[..n], [rows[n]], InvoiceOf);
      KeysOfSingle(rows[n], InvoiceOf);
    }
    if rows[n].invoice in KeysOf(rows[..n], InvoiceOf) {
      RepeatedInvoice(rows, prev);
    } else {
      NewInvoice(rows, prev);
    }
    FirstRowsAreUnique(rows, u);
  }

  /** An invoice already present before the last row keeps its first position. */
  lemma FirstIndexOfPrefix(rows: seq<Txn>)
    requires |rows| > 0
    ensures forall inv :: inv in KeysOf(rows[..|rows| - 1], InvoiceOf) ==>
              inv in KeysOf(rows, InvoiceOf) && FirstIndex(rows, inv) == FirstIndex(rows[..|rows| - 1], inv)
  {
    var n := |rows| - 1;
    forall inv | inv in KeysOf(rows[..n], InvoiceOf)
      ensures inv in KeysOf(rows, InvoiceOf) && FirstIndex(rows, inv) == FirstIndex(rows[..n], inv)
    {
      var t :| t in rows[..n] && t.invoice == inv;
      assert t in rows;
    }
  }

  lemma RepeatedInvoice(rows: seq<Txn>, prev: seq<InvoiceRow>)
    requires |rows| > 0
    requires FirstRowPerInvoice(rows[..|rows| - 1], prev)
    requires KeysOf(rows, InvoiceOf) == KeysOf(rows[..|rows| - 1], InvoiceOf)
    ensures FirstRowPerInvoice(rows, prev)
  {
    var n := |rows| - 1;
    FirstIndexOfPrefix(rows);
    assert forall j :: 0 <= j < |prev| ==> prev[j] == Project(rows[FirstIndex(rows, prev[j].invoice)]);
  }

  lemma NewInvoice(rows: seq<Txn>, prev: seq<InvoiceRow>)
    requires |rows| > 0
    requires FirstRowPerInvoice(rows[..|rows| - 1], prev)
    requires rows[|rows| - 1].invoice !in KeysOf(rows[..|rows| - 1], InvoiceOf)
    requires KeysOf(rows, InvoiceOf) == KeysOf(rows[..|rows| - 1], InvoiceOf) + {rows[|rows| - 1].invoice}
    ensures FirstRowPerInvoice(rows, prev + [Project(rows[|rows| - 1])])
  {
    var n := |rows| - 1;
    var u := prev + [Project(rows[n])];
    FirstIndexOfPrefix(rows);
    assert FirstIndex(rows, rows[n].invoice) == n;
    assert forall j :: 0 <= j < |prev| ==> u[j] == prev[j];
    assert KeysOf(u, InvoiceNo) == KeysOf(prev, InvoiceNo) + {rows[n].invoice} by {
      KeysOfAppend(prev, [Project(rows[n])], InvoiceNo);
      KeysOfSingle(Project(rows[n]), InvoiceNo);
    }
  }

  /** Strictly increasing first positions make the kept invoices pairwise distinct. */
  lemma FirstRowsAreUnique(rows: seq<Txn>, u: seq<InvoiceRow>)
    requires FirstRowPerInvoice(rows, u)
    ensures UniqueKeys(u, InvoiceNo)
  {
  }

  /** Every customer of the deduplicated table is a customer of the rows. */
  lemma DistinctInvoicesCustomers(rows: seq<Txn>)
    ensures KeysOf(DistinctInvoices(rows), InvoiceCustomer) <= KeysOf(rows, CustomerOf)
  {
    var u := DistinctInvoices(rows);
    forall x | x in u ensures x.customer in KeysOf(rows, CustomerOf) {
      var j :| 0 <= j < |u| && u[j] == x;
      var i := FirstIndex(rows, x.invoice);
      assert rows[i] in rows;
    }
  }

  // ---------------------------------------------------------------- get_recency

  /** Position of the last row before `i` whose customer is `c`. */
  function LastBefore(u: seq<InvoiceRow>, c: int, i: nat): (r: Option<nat>)
    requires i <= |u|
    ensures r.Some? ==> r.value < i && u[r.value].customer == c
                        && forall q :: r.value < q < i ==> u[q].customer != c
    ensures r.None? ==> forall q :: 0 <= q < i ==> u[q].customer != c
    decreases i
  {
    if i == 0 then None
    else if u[i - 1].customer == c then Some(i - 1)
    else LastBefore(u, c, i - 1)
  }

  /**
    The per-row `recency` column of `unique_invoice`, i.e. `groupby('CustomerID')
    ['InvoiceDate'].diff().dt.days`: whole days since the customer's previous row in
    row order, and None (NaT) on the customer's first row.
   */
  function DiffDays(u: seq<InvoiceRow>, i: nat): Option<int>
    requires i < |u|
  {
    match LastBefore(u, u[i].customer, i)
    case Some(p) => Some(DayGap(u[p].date, u[i].date))
    case None => None
  }

  /** Row `i` is the one `drop_duplicates("CustomerID", keep='last')` keeps. */
  predicate IsLastOfCustomer(u: seq<InvoiceRow>, i: nat)
    requires i < |u|
  {
    forall q :: i < q < |u| ==> u[q].customer != u[i].customer
  }

  /** `unique_invoice["InvoiceDate"].max()`. */
  function MaxDate(u: seq<InvoiceRow>): (m: int)
    requires |u| > 0
    ensures forall j :: 0 <= j < |u| ==> u[j].date <= m
    ensures exists j :: 0 <= j < |u| && u[j].date == m
    decreases |u|
  {
    if |u| == 1 then u[0].date
    else
      var m := MaxDate(u[1..]);
      assert forall j :: 1 <= j < |u| ==> u[j] == u[1..][j - 1];
      if u[0].date >= m then u[0].date else m
  }

  /** The kept row of `u[i]`'s customer after `fillna`: a missing gap becomes the days to `maxDate`. */
  function RecencyAt(u: seq<InvoiceRow>, i: nat, maxDate: int): RecencyRow
    requires i < |u|
  {
    RecencyRow(u[i].customer, DiffDays(u, i).GetOr(DayGap(u[i].date, maxDate)))
  }

  function RecencyFrom(u: seq<InvoiceRow>, i: nat, maxDate: int): (r: seq<RecencyRow>)
    requires i <= |u|
    ensures forall row :: row in r <==>
              exists j :: i <= j < |u| && IsLastOfCustomer(u, j) && row == RecencyAt(u, j, maxDate)
    ensures forall a, b :: 0 <= a < b < |r| ==> r[a].customer != r[b].customer
    ensures forall a :: 0 <= a < |r| ==> exists j :: i <= j < |u| && u[j].customer == r[a].customer
    decreases |u| - i
  {
    if i == |u| then []
    else
      var rest := RecencyFrom(u, i + 1, maxDate);
      if IsLastOfCustomer(u, i) then
        var r := [RecencyAt(u, i, maxDate)] + rest;
        assert forall a :: 0 < a < |r| ==> r[a] == rest[a - 1];
        r
      else rest
  }

  /**
    `get_recency`: one row per customer of `u`, in the order of each customer's last
    row (`RecencyTableOrder`), holding the days between that last row and the customer's previous row, or,
    for a customer with a single row, the days from that row to the latest date of `u`.
   */
  function RecencyTable(u: seq<InvoiceRow>): (r: seq<RecencyRow>)
    ensures forall row :: row in r <==>
              exists j :: 0 <= j < |u| && IsLastOfCustomer(u, j) && row == RecencyAt(u, j, MaxDate(u))
    ensures forall a, b :: 0 <= a < b < |r| ==> r[a].customer != r[b].customer
    ensures forall a :: 0 <= a < |r| ==> exists j :: 0 <= j < |u| && u[j].customer == r[a].customer
  {
    if |u| == 0 then [] else RecencyFrom(u, 0, MaxDate(u))
  }

  /**
    The recency rows come in the order of the customers' last rows: of two table rows,
    the earlier one was kept from the earlier last row.
   */
  lemma RecencyTableOrder(u: seq<InvoiceRow>, a: nat, b: nat, ja: nat, jb: nat)
    requires a < b < |RecencyTable(u)|
    requires ja < |u| && IsLastOfCustomer(u, ja) && RecencyTable(u)[a] == RecencyAt(u, ja, MaxDate(u))
    requires jb < |u| && IsLastOfCustomer(u, jb) && RecencyTable(u)[b] == RecencyAt(u, jb, MaxDate(u))
    ensures ja < jb
  {
    RecencyFromOrder(u, 0, MaxDate(u), a, b, ja, jb);
  }

  lemma {:induction false} RecencyFromOrder(u: seq<InvoiceRow>, i: nat, maxDate: int, a: nat, b: nat, ja: nat, jb: nat)
    requires i <= |u| && a < b < |RecencyFrom(u, i, maxDate)|
    requires i <= ja < |u| && IsLastOfCustomer(u, ja) && RecencyFrom(u, i, maxDate)[a] == RecencyAt(u, ja, maxDate)
    requires i <= jb < |u| && IsLastOfCustomer(u, jb) && RecencyFrom(u, i, maxDate)[b] == RecencyAt(u, jb, maxDate)
    ensures ja < jb
    decreases |u| - i
  {
    var r := RecencyFrom(u, i, maxDate);
    var rest := RecencyFrom(u, i + 1, maxDate);
    if IsLastOfCustomer(u, i) {
      RecencyFromLast(u, i, maxDate);
      // Table customers are distinct, and row 0 carries the customer of `u[i]`.
      assert jb != i by {
        assert r[b].customer != r[0].customer;
      }
      if a == 0 {
        // `i` and `ja` are both the last row of the same customer.
        assert u[ja].customer == u[i].customer;
      } else {
        assert ja != i by {
          assert r[a].customer != r[0].customer;
        }
        RecencyFromOrder(u, i + 1, maxDate, a - 1, b - 1, ja, jb);
      }
    } else {
      RecencyFromOrder(u, i + 1, maxDate, a, b, ja, jb);
    }
  }

  /** A customer's last row leads the rows kept from it on, the others following in order. */
  lemma RecencyFromLast(u: seq<InvoiceRow>, i: nat, maxDate: int)
    requires i < |u| && IsLastOfCustomer(u, i)
    ensures |RecencyFrom(u, i, maxDate)| == |RecencyFrom(u, i + 1, maxDate)| + 1
    ensures RecencyFrom(u, i, maxDate)[0] == RecencyAt(u, i, maxDate)
    ensures forall a :: 0 < a < |RecencyFrom(u, i, maxDate)| ==>
              RecencyFrom(u, i, maxDate)[a] == RecencyFrom(u, i + 1, maxDate)[a - 1]
  {
  }

  /** The selection of a prefix is a prefix of the selection. */
  lemma SelectPrefix(u: seq<InvoiceRow>, c: int, m: nat)
    requires m <= |u|
    ensures Select(u[..m], InvoiceCustomer, c) <= Select(u, InvoiceCustomer, c)
  {
    assert u == u[..m] + u[m..];
    SelectAppend(u[..m], u[m..], InvoiceCustomer, c);
  }

  /**
    Row `i` sits at position `k` of its customer's rows, and its `diff` is the gap to the
    customer's row at position `k - 1`: the column of line 48 follows row order within
    the customer's rows.
   */
  lemma DiffDaysInGroup(u: seq<InvoiceRow>, i: nat)
    requires i < |u|
    ensures |Select(u[..i], InvoiceCustomer, u[i].customer)| < |Select(u, InvoiceCustomer, u[i].customer)|
    ensures Select(u, InvoiceCustomer, u[i].customer)[|Select(u[..i], InvoiceCustomer, u[i].customer)|] == u[i]
    ensures |Select(u[..i], InvoiceCustomer, u[i].customer)| == 0 ==> DiffDays(u, i) == None
    ensures |Select(u[..i], InvoiceCustomer, u[i].customer)| > 0 ==>
              DiffDays(u, i) == Some(DayGap(Select(u, InvoiceCustomer, u[i].customer)[|Select(u[..i], InvoiceCustomer, u[i].customer)| - 1].date, u[i].date))
  {
    var c := u[i].customer;
    var g := Select(u, InvoiceCustomer, c);
    SelectStep(u, InvoiceCustomer, c, i);
    SelectPrefix(u, c, i + 1);
    var before := Select(u[..i], InvoiceCustomer, c);
    assert Select(u[..i + 1], InvoiceCustomer, c) == before + [u[i]];
    assert g[|before|] == u[i];
    match LastBefore(u, c, i)
    case Some(p) =>
      SelectSkip(u, InvoiceCustomer, c, p + 1, i);
      SelectStep(u, InvoiceCustomer, c, p);
      SelectPrefix(u, c, p + 1);
      var upTo := Select(u[..p], InvoiceCustomer, c);
      assert before == upTo + [u[p]];
      assert g[|before| - 1] == u[p];
    case None =>
      SelectSkip(u, InvoiceCustomer, c, 0, i);
      assert u[..0] == [];
  }

  /**
    Reference definition of a customer's recency: with two or more deduplicated invoice
    rows, the whole-day gap between the last two of them in ROW order (negative when
    the rows are not in date order); with one, the whole days from it to the latest
    invoice date of the table.
   */
  function ExpectedRecency(u: seq<InvoiceRow>, c: int): int
    requires c in KeysOf(u, InvoiceCustomer)
  {
    var g := Select(u, InvoiceCustomer, c);
    SelectPresent(u, InvoiceCustomer, c);
    if |g| >= 2 then DayGap(g[|g| - 2].date, g[|g| - 1].date) else DayGap(g[0].date, MaxDate(u))
  }

  /**
    `get_recency` agrees with the reference definition, and a single-invoice
    customer's recency is never negative.
   */
  lemma RecencyOfCustomer(u: seq<InvoiceRow>, c: int)
    requires c in KeysOf(u, InvoiceCustomer)
    ensures RecencyRow(c, ExpectedRecency(u, c)) in RecencyTable(u)
    ensures |Select(u, InvoiceCustomer, c)| == 1 ==> ExpectedRecency(u, c) >= 0
  {
    var i := LastIndex(u, c);
    RecencyAtLast(u, i);
    RecencyTableHasLast(u, i);
    var g := Select(u, InvoiceCustomer, c);
    if |g| == 1 {
      SelectPresent(u, InvoiceCustomer, c);
      assert g[0] in u;
    }
  }

  /** The recency row built at a customer's last row carries the reference recency. */
  lemma RecencyAtLast(u: seq<InvoiceRow>, i: nat)
    requires i < |u| && IsLastOfCustomer(u, i)
    ensures u[i].customer in KeysOf(u, InvoiceCustomer)
    ensures RecencyAt(u, i, MaxDate(u)) == RecencyRow(u[i].customer, ExpectedRecency(u, u[i].customer))
  {
    var c := u[i].customer;
    assert u[i] in u;
    assert InvoiceCustomer(u[i]) in KeysOf(u, InvoiceCustomer);
    var g := Select(u, InvoiceCustomer, c);
    var k := |Select(u[..i], InvoiceCustomer, c)|;
    LastRowPosition(u, i);
    DiffDaysInGroup(u, i);
    var expected := ExpectedRecency(u, c);
    if k == 0 {
      assert expected == DayGap(u[i].date, MaxDate(u));
    } else {
      assert expected == DayGap(g[k - 1].date, u[i].date);
    }
  }

  /** The last row of a customer is the last of the customer's rows. */
  lemma LastRowPosition(u: seq<InvoiceRow>, i: nat)
    requires i < |u| && IsLastOfCustomer(u, i)
    ensures |Select(u, InvoiceCustomer, u[i].customer)| == |Select(u[..i], InvoiceCustomer, u[i].customer)| + 1
  {
    var c := u[i].customer;
    SelectSkip(u, InvoiceCustomer, c, i + 1, |u|);
    SelectAll(u, InvoiceCustomer, c);
    SelectStep(u, InvoiceCustomer, c, i);
  }

  /** Position of the last row of customer `c`. */
  lemma LastIndex(u: seq<InvoiceRow>, c: int) returns (i: nat)
    requires c in KeysOf(u, InvoiceCustomer)
    ensures i < |u| && u[i].customer == c && IsLastOfCustomer(u, i)
  {
    var x :| x in u && x.customer == c;
    var j :| 0 <= j < |u| && u[j] == x;
    i := LastBefore(u, c, |u|).value;
  }

  /** The recency table holds the filled recency of every last row. */
  lemma RecencyTableHasLast(u: seq<InvoiceRow>, i: nat)
    requires i < |u| && IsLastOfCustomer(u, i)
    ensures RecencyAt(u, i, MaxDate(u)) in RecencyTable(u)
  {
  }

  /** Recency rows are one per customer of the deduplicated table. */
  lemma RecencyTableCustomers(u: seq<InvoiceRow>)
    ensures KeysOf(RecencyTable(u), RecencyCustomer) == KeysOf(u, InvoiceCustomer)
    ensures forall a, b :: 0 <= a < b < |RecencyTable(u)| ==> RecencyTable(u)[a].customer != RecencyTable(u)[b].customer
  {
    var r := RecencyTable(u);
    forall c | c in KeysOf(u, InvoiceCustomer) ensures c in KeysOf(r, RecencyCustomer) {
      RecencyOfCustomer(u, c);
    }
    forall row | row in r ensures row.customer in KeysOf(u, InvoiceCustomer) {
      var a :| 0 <= a < |r| && r[a] == row;
      var j :| 0 <= j < |u| && u[j].customer == r[a].customer;
      assert u[j] in u;
    }
  }

  // ---------------------------------------------------------------- get_frequency / get_monetary

  /** `nunique` of InvoiceNo. */
  function NUniqueInvoices(items: seq<Txn>): nat
  {
    |KeysOf(items, InvoiceOf)|
  }

  /** `sum` of total_spend. */
  function TotalSpend(items: seq<Txn>): real
  {
    Sum(items, SpendOf)
  }

  lemma NonEmptyHasInvoice(items: seq<Txn>)
    requires |items| > 0
    ensures NUniqueInvoices(items) >= 1
  {
    assert items[0] in items;
    assert items[0].invoice in KeysOf(items, InvoiceOf);
  }

  /** `get_frequency`: per customer, the number of distinct invoices among their rows. */
  function FrequencyTable(rows: seq<Txn>): (m: map<int, nat>)
    ensures m.Keys == KeysOf(rows, CustomerOf)
    ensures forall c :: c in m ==> m[c] == |KeysOf(Select(rows, CustomerOf, c), InvoiceOf)| && m[c] >= 1
  {
    var gs := GroupBy(rows, CustomerOf);
    AggregateGroupBy(rows, CustomerOf, NUniqueInvoices);
    var m := Aggregate(gs, NUniqueInvoices);
    assert forall c :: c in m ==> m[c] >= 1 by {
      forall c | c in m ensures m[c] >= 1 {
        var g :| g in gs && g.key == c;
        GroupItems(rows, CustomerOf, g);
        NonEmptyHasInvoice(g.items);
      }
    }
    m
  }

  /** `get_monetary`: per customer, the sum of total_spend over their rows. */
  function MonetaryTable(rows: seq<Txn>): (m: map<int, real>)
    ensures m.Keys == KeysOf(rows, CustomerOf)
    ensures forall c :: c in m ==> m[c] == Sum(Select(rows, CustomerOf, c), SpendOf)
  {
    AggregateGroupBy(rows, CustomerOf, TotalSpend);
    Aggregate(GroupBy(rows, CustomerOf), TotalSpend)
  }

  // ---------------------------------------------------------------- merge_rfm

  /**
    `merge_rfm`: the inner join on CustomerID of recency with frequency and monetary,
    in the recency table's row order (pandas keeps the left keys' order; see
    `MergeRfmConcat`).
   */
  function MergeRfm(rec: seq<RecencyRow>, freq: map<int, nat>, mon: map<int, real>): (r: seq<RfmRow>)
    ensures |r| <= |rec|
    ensures forall row :: row in r <==>
              exists x :: x in rec && x.customer in freq && x.customer in mon
                          && row == RfmRow(x.customer, x.recency, freq[x.customer], mon[x.customer])
    ensures KeysOf(r, RfmCustomer) == KeysOf(rec, RecencyCustomer) * freq.Keys * mon.Keys
    ensures UniqueKeys(rec, RecencyCustomer) ==> UniqueKeys(r, RfmCustomer)
    decreases |rec|
  {
    if |rec| == 0 then []
    else
      var rest := MergeRfm(rec[1..], freq, mon);
      var r := if rec[0].customer in freq && rec[0].customer in mon
               then [RfmRow(rec[0].customer, rec[0].recency, freq[rec[0].customer], mon[rec[0].customer])] + rest
               else rest;
      MergeRfmStep(rec, freq, mon, rest, r);
      r
  }

  /** A single recency row is kept, with its frequency and monetary values, exactly when both tables have its customer. */
  lemma MergeRfmSingle(x: RecencyRow, freq: map<int, nat>, mon: map<int, real>)
    ensures MergeRfm([x], freq, mon)
            == if x.customer in freq && x.customer in mon
               then [RfmRow(x.customer, x.recency, freq[x.customer], mon[x.customer])]
               else []
  {
    assert [x][1..] == [];
  }

  /** The merge distributes over concatenation, so it keeps the recency table's row order. */
  lemma {:induction false} MergeRfmConcat(a: seq<RecencyRow>, b: seq<RecencyRow>, freq: map<int, nat>, mon: map<int, real>)
    ensures MergeRfm(a + b, freq, mon) == MergeRfm(a, freq, mon) + MergeRfm(b, freq, mon)
    decreases |a|
  {
    if |a| == 0 {
      assert a + b == b;
    } else {
      assert (a + b)[0] == a[0];
      assert (a + b)[1..] == a[1..] + b;
      MergeRfmConcat(a[1..], b, freq, mon);
    }
  }

  lemma MergeRfmStep(rec: seq<RecencyRow>, freq: map<int, nat>, mon: map<int, real>, rest: seq<RfmRow>, r: seq<RfmRow>)
    requires |rec| > 0
    requires |rest| <= |rec| - 1
    requires forall row :: row in rest <==>
               exists x :: x in rec[1..] && x.customer in freq && x.customer in mon
                           && row == RfmRow(x.customer, x.recency, freq[x.customer], mon[x.customer])
    requires KeysOf(rest, RfmCustomer) == KeysOf(rec[1..], RecencyCustomer) * freq.Keys * mon.Keys
    requires UniqueKeys(rec[1..], RecencyCustomer) ==> UniqueKeys(rest, RfmCustomer)
    requires r == if rec[0].customer in freq && rec[0].customer in mon
                  then [RfmRow(rec[0].customer, rec[0].recency, freq[rec[0].customer], mon[rec[0].customer])] + rest
                  else rest
    ensures |r| <= |rec|
    ensures forall row :: row in r <==>
              exists x :: x in rec && x.customer in freq && x.customer in mon
                          && row == RfmRow(x.customer, x.recency, freq[x.customer], mon[x.customer])
    ensures KeysOf(r, RfmCustomer) == KeysOf(rec, RecencyCustomer) * freq.Keys * mon.Keys
    ensures UniqueKeys(rec, RecencyCustomer) ==> UniqueKeys(r, RfmCustomer)
  {
    var x := rec[0];
    SplitFirst(rec);
    assert forall y :: y in rec <==> y == x || y in rec[1..];
    var both := freq.Keys * mon.Keys;
    assert KeysOf(rec, RecencyCustomer) == {x.customer} + KeysOf(rec[1..], RecencyCustomer) by {
      KeysOfAppend([x], rec[1..], RecencyCustomer);
      KeysOfSingle(x, RecencyCustomer);
    }
    UniqueKeysCons(x, rec[1..], RecencyCustomer);
    if x.customer in freq && x.customer in mon {
      var head := RfmRow(x.customer, x.recency, freq[x.customer], mon[x.customer]);
      assert forall y :: y in r <==> y == head || y in rest;
      assert KeysOf(r, RfmCustomer) == {x.customer} + KeysOf(rest, RfmCustomer) by {
        KeysOfAppend([head], rest, RfmCustomer);
        KeysOfSingle(head, RfmCustomer);
      }
      UniqueKeysCons(head, rest, RfmCustomer);
    } else {
      assert x.customer !in both;
    }
  }

  /**
    The first three steps of `process`: the RFM profile of the raw rows. The inner
    joins keep at most one row per recency row, keyed by a unique customer, with the
    recency column unchanged (the full contract is `RfmProfileSpec`).
   */
  function RfmProfile(rows: seq<Txn>): (r: seq<RfmRow>)
    ensures var rec := RecencyTable(DistinctInvoices(DropAnonymous(rows)));
            && |r| <= |rec|
            && UniqueKeys(r, RfmCustomer)
            && forall row :: row in r ==> RecencyRow(row.customer, row.recency) in rec
  {
    var d := DropAnonymous(rows);
    var u := DistinctInvoices(d);
    var rec := RecencyTable(u);
    assert UniqueKeys(rec, RecencyCustomer);
    MergeRfm(rec, FrequencyTable(d), MonetaryTable(d))
  }

  /**
    The RFM profile (ml_services.py:153-159, first four steps): one row per customer
    of the deduplicated invoice table, none of them anonymous; frequency is the number
    of distinct invoices among the customer's rows, monetary the sum of their spend,
    and recency the reference recency.
   */
  lemma RfmProfileSpec(rows: seq<Txn>)
    ensures UniqueKeys(RfmProfile(rows), RfmCustomer)
    ensures KeysOf(RfmProfile(rows), RfmCustomer) == KeysOf(DistinctInvoices(DropAnonymous(rows)), InvoiceCustomer)
    ensures forall row :: row in RfmProfile(rows) ==>
              && row.customer != Anonymous
              && row.customer in KeysOf(DistinctInvoices(DropAnonymous(rows)), InvoiceCustomer)
              && row.recency == ExpectedRecency(DistinctInvoices(DropAnonymous(rows)), row.customer)
              && row.frequency == |KeysOf(Select(DropAnonymous(rows), CustomerOf, row.customer), InvoiceOf)|
              && row.frequency >= 1
              && row.monetary == Sum(Select(DropAnonymous(rows), CustomerOf, row.customer), SpendOf)
  {
    RfmProfileKeys(rows);
    forall row | row in RfmProfile(rows)
      ensures row.customer != Anonymous
      ensures row.customer in KeysOf(DistinctInvoices(DropAnonymous(rows)), InvoiceCustomer)
      ensures row.recency == ExpectedRecency(DistinctInvoices(DropAnonymous(rows)), row.customer)
    {
      RfmRowSpec(rows, row);
    }
  }

  lemma RfmProfileKeys(rows: seq<Txn>)
    ensures UniqueKeys(RfmProfile(rows), RfmCustomer)
    ensures KeysOf(RfmProfile(rows), RfmCustomer) == KeysOf(DistinctInvoices(DropAnonymous(rows)), InvoiceCustomer)
  {
    var d := DropAnonymous(rows);
    var u := DistinctInvoices(d);
    RecencyTableCustomers(u);
    DistinctInvoicesCustomers(d);
  }

  /** Every recency row carries its customer's reference recency. */
  lemma RecencyOfMember(u: seq<InvoiceRow>, x: RecencyRow)
    requires x in RecencyTable(u)
    ensures x.customer in KeysOf(u, InvoiceCustomer)
    ensures x.recency == ExpectedRecency(u, x.customer)
  {
    var rec := RecencyTable(u);
    var c := x.customer;
    RecencyTableCustomers(u);
    assert c in KeysOf(rec, RecencyCustomer);
    RecencyOfCustomer(u, c);
    var y := RecencyRow(c, ExpectedRecency(u, c));
    var a :| 0 <= a < |rec| && rec[a] == x;
    var b :| 0 <= b < |rec| && rec[b] == y;
    assert a == b;
  }

  lemma RfmRowSpec(rows: seq<Txn>, row: RfmRow)
    requires row in RfmProfile(rows)
    ensures row.customer != Anonymous
    ensures row.customer in KeysOf(DistinctInvoices(DropAnonymous(rows)), InvoiceCustomer)
    ensures row.recency == ExpectedRecency(DistinctInvoices(DropAnonymous(rows)), row.customer)
  {
    var d := DropAnonymous(rows);
    var u := DistinctInvoices(d);
    var rec := RecencyTable(u);
    var freq := FrequencyTable(d);
    var mon := MonetaryTable(d);
    var x :| x in rec && x.customer in freq && x.customer in mon
              && row == RfmRow(x.customer, x.recency, freq[x.customer], mon[x.customer]);
    var c := x.customer;
    RecencyOfMember(u, x);
    assert c != Anonymous by {
      DistinctInvoicesCustomers(d);
      var t :| t in d && t.customer == c;
    }
  }
}
