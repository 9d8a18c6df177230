/**
 * TransactionHandler: create, delete, get-by-id, get-by-period and update
 * over the context's transaction table.  Every lookup is scoped to the
 * owner: a row matches only when both its Id and its UserId are the
 * request's.  `dbFault` stands for an exception raised by the database,
 * which every handler turns into a 500 with nothing changed; `now` is the
 * clock's reading and `newId` the key the database assigns to an insert.
 */
module TransactionHandlers {
  import opened Wrappers
  import opened DateTimes
  import opened DateTimeExtension
  import opened Linq
  import opened Models
  import opened Data

  /** A withdrawal given as a non-negative amount is stored negated; anything else passes through. */
  function NormalizeAmount(transactionType: TransactionType, amount: int): (r: int)
    ensures transactionType == Withdraw ==> r <= 0
    ensures transactionType == Deposit ==> r == amount
    ensures amount < 0 ==> r == amount
    ensures r == amount || r == -amount
  {
    if transactionType == Withdraw && amount >= 0 then -amount else amount
  }

  /** Re-applying the sign rule to a stored amount and type leaves it unchanged. */
  lemma NormalizeAmountIdempotent(transactionType: TransactionType, amount: int)
    ensures NormalizeAmount(transactionType, NormalizeAmount(transactionType, amount)) == NormalizeAmount(transactionType, amount)
  {
  }

  /** FirstOrDefaultAsync(x => x.Id == id && x.UserId == userId): the position of the first owned row with that key. */
  function FindOwned(table: seq<Transaction>, id: int, userId: string): (r: Option<nat>)
    ensures r.Some? ==> r.value < |table| && table[r.value].id == id && table[r.value].userId == userId
    ensures r.None? <==> forall t :: t in table ==> !(t.id == id && t.userId == userId)
  {
    FirstMatch(table, (t: Transaction) => t.id == id && t.userId == userId)
  }

  /** With unique keys, a row found by its key is the only row with that key. */
  lemma FoundIsUnique(table: seq<Transaction>, id: int, userId: string, t: Transaction)
    requires UniqueTransactionIds(table)
    requires FindOwned(table, id, userId).Some?
    requires t in table && t.id == id
    ensures t == table[FindOwned(table, id, userId).value]
  {
    var i := FindOwned(table, id, userId).value;
    var j :| 0 <= j < |table| && table[j] == t;
    assert i == j;
  }

  // ------------------------------------------------------------ GetById

  /** GetByIdAsync: the owned row with the request's Id, 404 when there is none; the table is only read. */
  function GetById(transactions: seq<Transaction>, request: GetTransactionByIdRequest, dbFault: bool): (r: Response<Transaction>)
    ensures dbFault ==> r == Response(None, InternalServerError)
    ensures !dbFault ==>
              (r.status == NotFound <==> forall t :: t in transactions ==> !(t.id == request.id && t.userId == request.userId))
    ensures !dbFault && r.status == NotFound ==> r.data.None?
    ensures !dbFault && r.status != NotFound ==>
              && r.status == DefaultStatus
              && r.data.Some? && r.data.value in transactions
              && r.data.value.id == request.id && r.data.value.userId == request.userId
  {
    if dbFault then Response(None, InternalServerError)
    else
      match FindOwned(transactions, request.id, request.userId)
      case None => Response(None, NotFound)
      case Some(i) => Response(Some(transactions[i]), DefaultStatus)
  }

  /** With unique keys, GetById given a row's own Id and UserId returns exactly that row. */
  lemma GetByIdFindsRow(transactions: seq<Transaction>, t: Transaction)
    requires UniqueTransactionIds(transactions)
    requires t in transactions
    ensures GetById(transactions, GetTransactionByIdRequest(t.userId, t.id), false) == Response(Some(t), DefaultStatus)
  {
    FoundIsUnique(transactions, t.id, t.userId, t);
  }

  // -------------------------------------------------------- GetByPeriod

  /** The period filter: owned by `userId` and paid or received within `start..end`, both ends included. */
  predicate InPeriod(t: Transaction, userId: string, start: DateTime, end: DateTime)
    ensures InPeriod(t, userId, start, end) <==>
              && t.userId == userId
              && t.paidOrReceivedAt.Some?
              && Ticks(start) <= Ticks(t.paidOrReceivedAt.value) <= Ticks(end)
  {
    && t.userId == userId
    && t.paidOrReceivedAt.Some?
    && LessOrEqual(start, t.paidOrReceivedAt.value)
    && LessOrEqual(t.paidOrReceivedAt.value, end)
  }

  /** The sort key of OrderBy(x => x.PaidOrReceivedAt); a row without a date sorts first. */
  function PaidKey(t: Transaction): seq<int>
  {
    match t.paidOrReceivedAt
    case None => []
    case Some(d) => [d.year, d.month, d.day, d.tickOfDay]
  }

  /** The key order is DateTime's own order. */
  lemma PaidKeyOrder(a: Transaction, b: Transaction)
    requires a.paidOrReceivedAt.Some? && b.paidOrReceivedAt.Some?
    ensures LexLe(PaidKey(a), PaidKey(b)) <==> LessOrEqual(a.paidOrReceivedAt.value, b.paidOrReceivedAt.value)
  {
    var da, db := a.paidOrReceivedAt.value, b.paidOrReceivedAt.value;
    LexLeCons(da.year, db.year, [da.month, da.day, da.tickOfDay], [db.month, db.day, db.tickOfDay]);
    LexLeCons(da.month, db.month, [da.day, da.tickOfDay], [db.day, db.tickOfDay]);
    LexLeCons(da.day, db.day, [da.tickOfDay], [db.tickOfDay]);
    LexLeCons(da.tickOfDay, db.tickOfDay, [], []);
    assert PaidKey(a) == [da.year] + ([da.month] + ([da.day] + ([da.tickOfDay] + [])));
    assert PaidKey(b) == [db.year] + ([db.month] + ([db.day] + ([db.tickOfDay] + [])));
  }

  /** The rows the period query selects, in table order. */
  function PeriodMatches(transactions: seq<Transaction>, userId: string, start: DateTime, end: DateTime): (r: seq<Transaction>)
    ensures forall t :: t in r <==> t in transactions && InPeriod(t, userId, start, end)
    ensures forall t :: multiset(r)[t] == if InPeriod(t, userId, start, end) then multiset(transactions)[t] else 0
  {
    Where(transactions, (t: Transaction) => InPeriod(t, userId, start, end))
  }

  /** The period query before paging, ordered by PaidOrReceivedAt. */
  function PeriodQuery(transactions: seq<Transaction>, userId: string, start: DateTime, end: DateTime): (r: seq<Transaction>)
    ensures forall t :: t in r <==> t in transactions && InPeriod(t, userId, start, end)
    ensures |r| == |PeriodMatches(transactions, userId, start, end)|
    ensures multiset(r) == multiset(PeriodMatches(transactions, userId, start, end))
    ensures SortedBy(r, PaidKey)
  {
    var matches := PeriodMatches(transactions, userId, start, end);
    OrderByCount(matches, PaidKey);
    OrderBy(matches, PaidKey)
  }

  /** The inclusive bounds the period query filters on. */
  datatype Period = Period(start: DateTime, end: DateTime)

  /**
   * `request.StartDate ??= DateTime.Now.GetFirstDay()` and
   * `request.EndDate ??= DateTime.Now.GetLastDay()`: supplied dates are kept,
   * missing ones become midnight of the first and of the last day of the
   * current month.  Only GetLastDay can fail, in December 9999.
   */
  function ResolvePeriod(request: GetTransactionsByPeriodRequest, now: DateTime): (r: Outcome<Period>)
    ensures r.Ok? <==> request.endDate.Some? || !(now.year == MaxYear && now.month == 12)
    ensures r.Ok? && request.startDate.Some? ==> r.value.start == request.startDate.value
    ensures r.Ok? && request.startDate.None? ==> r.value.start == Parts(now.year, now.month, 1, 0)
    ensures r.Ok? && request.endDate.Some? ==> r.value.end == request.endDate.value
    ensures r.Ok? && request.endDate.None? ==>
              r.value.end == Parts(now.year, now.month, DaysInMonth(now.year, now.month), 0)
  {
    var start := if request.startDate.Some? then Ok(request.startDate.value) else GetFirstDay(now, None, None);
    var end := if request.endDate.Some? then Ok(request.endDate.value) else GetLastDay(now, None, None);
    if start.OutOfRange? || end.OutOfRange? then OutOfRange else Ok(Period(start.value, end.value))
  }

  /**
   * A page of the period query holds only the user's transactions within the
   * period, in ascending PaidOrReceivedAt order, and the query holds exactly
   * the matches.
   */
  lemma PeriodPageProperties(transactions: seq<Transaction>, userId: string, period: Period, pageNumber: int, pageSize: int)
    ensures |PeriodQuery(transactions, userId, period.start, period.end)|
            == |PeriodMatches(transactions, userId, period.start, period.end)|
    ensures var page := Page(PeriodQuery(transactions, userId, period.start, period.end), pageNumber, pageSize);
            && (forall i :: 0 <= i < |page| ==> page[i] in transactions && InPeriod(page[i], userId, period.start, period.end))
            && (forall i, j :: 0 <= i < j < |page| ==>
                  LessOrEqual(page[i].paidOrReceivedAt.value, page[j].paidOrReceivedAt.value))
  {
    var query := PeriodQuery(transactions, userId, period.start, period.end);
    var page := Page(query, pageNumber, pageSize);
    PageOfSorted(query, PaidKey, pageNumber, pageSize);
    forall i | 0 <= i < |page|
      ensures page[i] in transactions && InPeriod(page[i], userId, period.start, period.end)
    {
      assert page[i] in query;
    }
    forall i, j | 0 <= i < j < |page|
      ensures LessOrEqual(page[i].paidOrReceivedAt.value, page[j].paidOrReceivedAt.value)
    {
      assert page[i] in query && page[j] in query;
      PaidKeyOrder(page[i], page[j]);
    }
  }

  /**
   * GetByPeriodAsync: one page of the user's transactions in the period, in
   * ascending PaidOrReceivedAt order, with the number of all matches.
   */
  function GetByPeriod(transactions: seq<Transaction>, request: GetTransactionsByPeriodRequest, now: DateTime, dbFault: bool)
    : (r: PagedResponse<Transaction>)
    ensures r.PagedFailure? <==> dbFault || ResolvePeriod(request, now).OutOfRange?
    ensures r.PagedFailure? ==> r.status == InternalServerError
    ensures r.Paged? ==>
              var period := ResolvePeriod(request, now).value;
              && r.pageNumber == request.pageNumber && r.pageSize == request.pageSize
              && r.totalCount == |PeriodMatches(transactions, request.userId, period.start, period.end)|
              && r.data == Page(PeriodQuery(transactions, request.userId, period.start, period.end),
                                request.pageNumber, request.pageSize)
              && (forall i :: 0 <= i < |r.data| ==>
                    r.data[i] in transactions && InPeriod(r.data[i], request.userId, period.start, period.end))
              && (forall i, j :: 0 <= i < j < |r.data| ==>
                    LessOrEqual(r.data[i].paidOrReceivedAt.value, r.data[j].paidOrReceivedAt.value))
  {
    match ResolvePeriod(request, now)
    case OutOfRange => PagedFailure(InternalServerError)
    case Ok(period) =>
      if dbFault then PagedFailure(InternalServerError)
      else
        var query := PeriodQuery(transactions, request.userId, period.start, period.end);
        PeriodPageProperties(transactions, request.userId, period, request.pageNumber, request.pageSize);
        Paged(Page(query, request.pageNumber, request.pageSize), |query|, request.pageNumber, request.pageSize)
  }

  /**
   * The default period ends at midnight of the month's last day, so a
   * transaction later on that day is not selected, while one at midnight is
   * (if it also follows the start).
   */
  lemma DefaultPeriodEndsAtMidnight(request: GetTransactionsByPeriodRequest, now: DateTime, t: Transaction)
    requires request.endDate.None? && !(now.year == MaxYear && now.month == 12)
    requires t.userId == request.userId && t.paidOrReceivedAt.Some?
    requires var d := t.paidOrReceivedAt.value;
             d.year == now.year && d.month == now.month && d.day == DaysInMonth(now.year, now.month)
    ensures var period := ResolvePeriod(request, now).value;
            InPeriod(t, request.userId, period.start, period.end)
            <==> (t.paidOrReceivedAt.value.tickOfDay == 0 && LessOrEqual(period.start, t.paidOrReceivedAt.value))
  {
  }

  class TransactionHandler {
    const context: AppDbContext

    constructor (context: AppDbContext)
      ensures this.context == context
    {
      this.context := context;
    }

    /**
     * CreateAsync: stores one new row copying the request, with the amount's
     * sign normalised and CreatedAt set to `now`, and answers 201 with it.  An
     * insert the database refuses (a fault, or a key already taken) answers
     * 500 and stores nothing.
     */
    method Create(request: CreateTransactionRequest, newId: int, now: DateTime, dbFault: bool)
      returns (response: Response<Transaction>)
      requires context.Valid()
      modifies context
      ensures context.Valid()
      ensures context.Categories == old(context.Categories)
      ensures var stored := Transaction(newId, request.userId, request.categoryId, now,
                                        NormalizeAmount(request.transactionType, request.amount),
                                        request.paidOrReceivedAt, request.title, request.transactionType);
              if dbFault || newId in TransactionIds(old(context.Transactions)) then
                response == Response(None, InternalServerError) && context.Transactions == old(context.Transactions)
              else
                && response == Response(Some(stored), Created)
                && context.Transactions == old(context.Transactions) + [stored]
                && GetById(context.Transactions, GetTransactionByIdRequest(request.userId, newId), false)
                   == Response(Some(stored), DefaultStatus)
    {
      var amount := NormalizeAmount(request.transactionType, request.amount);
      var transaction := Transaction(newId, request.userId, request.categoryId, now, amount,
                                     request.paidOrReceivedAt, request.title, request.transactionType);
      if dbFault || newId in TransactionIds(context.Transactions) {
        response := Response(None, InternalServerError);
        return;
      }
      context.Transactions := context.Transactions + [transaction];
      response := Response(Some(transaction), Created);
      GetByIdFindsRow(context.Transactions, transaction);
    }

    /**
     * DeleteAsync: removes the owned row with the request's Id and returns it;
     * 404 and no change when there is none.
     */
    method Delete(request: DeleteTransactionRequest, dbFault: bool) returns (response: Response<Transaction>)
      requires context.Valid()
      modifies context
      ensures context.Valid()
      ensures context.Categories == old(context.Categories)
      ensures var found := FindOwned(old(context.Transactions), request.id, request.userId);
              if dbFault then
                response == Response(None, InternalServerError) && context.Transactions == old(context.Transactions)
              else if found.None? then
                response == Response(None, NotFound) && context.Transactions == old(context.Transactions)
              else
                var i := found.value;
                && response == Response(Some(old(context.Transactions)[i]), DefaultStatus)
                && context.Transactions == old(context.Transactions)[..i] + old(context.Transactions)[i + 1..]
      ensures !dbFault ==> GetById(context.Transactions, GetTransactionByIdRequest(request.userId, request.id), false)
                           == Response(None, NotFound)
    {
      if dbFault {
        response := Response(None, InternalServerError);
        return;
      }
      var found := FindOwned(context.Transactions, request.id, request.userId);
      if found.None? {
        response := Response(None, NotFound);
        return;
      }
      var i := found.value;
      ghost var before := context.Transactions;
      var transaction := context.Transactions[i];
      context.Transactions := context.Transactions[..i] + context.Transactions[i + 1..];
      response := Response(Some(transaction), DefaultStatus);
      assert forall k :: 0 <= k < |context.Transactions| ==>
          context.Transactions[k] == before[if k < i then k else k + 1];
    }

    /**
     * UpdateAsync: on the owned row with the request's Id, overwrites
     * CategoryId, Amount (sign normalised), Title, Type and PaidOrReceivedAt
     * and returns the row; Id, UserId, CreatedAt and every other row stay as
     * they were.  404 and no change when there is no such row.
     */
    method Update(request: UpdateTransactionRequest, dbFault: bool) returns (response: Response<Transaction>)
      requires context.Valid()
      modifies context
      ensures context.Valid()
      ensures context.Categories == old(context.Categories)
      ensures var found := FindOwned(old(context.Transactions), request.id, request.userId);
              if dbFault then
                response == Response(None, InternalServerError) && context.Transactions == old(context.Transactions)
              else if found.None? then
                response == Response(None, NotFound) && context.Transactions == old(context.Transactions)
              else
                var i := found.value;
                var was := old(context.Transactions)[i];
                && |context.Transactions| == |old(context.Transactions)|
                && (forall k :: 0 <= k < |context.Transactions| && k != i ==>
                      context.Transactions[k] == old(context.Transactions)[k])
                && var row := context.Transactions[i];
                && row.id == was.id && row.userId == was.userId && row.createdAt == was.createdAt
                && row.categoryId == request.categoryId
                && row.amount == NormalizeAmount(request.transactionType, request.amount)
                && row.title == request.title
                && row.transactionType == request.transactionType
                && row.paidOrReceivedAt == request.paidOrReceivedAt
                && response == Response(Some(row), DefaultStatus)
                && GetById(context.Transactions, GetTransactionByIdRequest(request.userId, request.id), false)
                   == response
    {
      var amount := NormalizeAmount(request.transactionType, request.amount);
      if dbFault {
        response := Response(None, InternalServerError);
        return;
      }
      var found := FindOwned(context.Transactions, request.id, request.userId);
      if found.None? {
        response := Response(None, NotFound);
        return;
      }
      var i := found.value;
      var transaction := context.Transactions[i];
      transaction := transaction.(
        categoryId := request.categoryId,
        amount := amount,
        title := request.title,
        transactionType := request.transactionType,
        paidOrReceivedAt := request.paidOrReceivedAt);
      context.Transactions := context.Transactions[i := transaction];
      response := Response(Some(transaction), DefaultStatus);
      assert context.Transactions[i] == transaction;
      GetByIdFindsRow(context.Transactions, transaction);
    }
  }
}
