# Fina handlers and month-boundary helpers, modelled in Dafny

Fina is a personal-finance web API. Its core is two request handlers over a
database context:

- `TransactionHandler` creates, deletes, reads, updates and lists transactions.
- `CategoryHandler` does the same for categories.

Every lookup is scoped to the owner. A row matches only when both its Id and
its UserId are the request's, and a miss answers 404. The period listing of
transactions fills in a missing start or end date with the first or the last
day of the current month. Two `DateTime` extension methods compute those days.

The model has eight modules:

- `Wrappers` holds `Option`, the stand-in for C#'s nullable values and `??`.
- `Linq` models the query operators the handlers compose: `Where`,
  `FirstOrDefault` (`FirstMatch`), `OrderBy`, `Skip`, `Take` and the page they
  form. It proves that a page is a slice, that pages tile the query, and that
  `OrderBy` sorts and permutes.
- `DateTimes` models the part of `System.DateTime` the helpers rely on: valid
  calendar instants, the constructor, `AddMonths`, `AddDays` and `<=`. It also
  recovers DateTime's tick count from the calendar fields. `<=` is proved to
  compare tick counts and `AddDays` to add whole days of ticks, as DateTime
  does.
- `DateTimeExtension` models `GetFirstDay` and `GetLastDay`.
- `Models` holds the records, the requests and the response envelopes.
- `Data` holds the class `AppDbContext`. It has two tables, kept as sequences
  in database order, with unique primary keys as its invariant.
- `TransactionHandlers` and `CategoryHandlers` model the handlers. The writes
  (Create, Update, Delete) are methods of a handler class that holds the
  context. They state the whole new table and the response. The reads
  (GetById, GetByPeriod, GetAll) are functions of a snapshot of the table,
  like the source's `AsNoTracking` queries.

Three things come from outside as parameters:

- `now`: the clock's reading.
- `newId`: the key the database assigns to an insert.
- `dbFault`: whether the database raises an exception. Each handler's
  catch-all turns that into a 500 with nothing changed.

Three behaviours of the code are worth knowing:

- The sign rule negates a Withdraw amount only when it is `>= 0`. So a stored
  withdrawal is `<= 0`. A Deposit with a negative amount is stored as given.
- The default period ends at midnight of the month's last day, not at the end
  of that day. The comment on `EndDate` in `GetTransactionsByPeriodRequest.cs`
  says only that it defaults to the last day of the month. A transaction dated later on the last day is outside the
  default period (`TransactionHandlers.DefaultPeriodEndsAtMidnight`).
- `GetLastDay` fails for December 9999. The period query turns that failure
  into a 500.

## Model

| member | source | states |
|---|---|---|
| `TransactionHandlers.NormalizeAmount` | Fina/Fina.Api/Handlers/TransactionHandler.cs:17-18 | a Withdraw amount comes out `<= 0`; a Deposit amount, and any negative amount, come out unchanged; the magnitude is kept |
| `TransactionHandlers.NormalizeAmountIdempotent` | Fina/Fina.Api/Handlers/TransactionHandler.cs:145-146 | applying the sign rule to an amount it already produced changes nothing |
| `TransactionHandlers.TransactionHandler.constructor` | Fina/Fina.Api/Handlers/TransactionHandler.cs:13 | the handler works on the context it is given |
| `TransactionHandlers.TransactionHandler.Create` | Fina/Fina.Api/Handlers/TransactionHandler.cs:15-47 | adds exactly one row at the end; the row copies the request's UserId, CategoryId, PaidOrReceivedAt, Title and Type, with the normalised Amount, CreatedAt = now and the database's key; answers 201 with it, and GetById then returns it; a refused insert answers 500 and changes nothing; categories and key uniqueness are preserved |
| `TransactionHandlers.TransactionHandler.Delete` | Fina/Fina.Api/Handlers/TransactionHandler.cs:49-72 | with no row matching both Id and UserId: 404 and no change; otherwise it removes exactly that row and returns it, and GetById then answers 404; a database fault answers 500 and changes nothing |
| `TransactionHandlers.FindOwned` | Fina/Fina.Api/Handlers/TransactionHandler.cs:54-56 | finds a row whose Id and UserId both match, and finds none exactly when no such row exists |
| `TransactionHandlers.FoundIsUnique` | Fina/Fina.Api/Handlers/TransactionHandler.cs:151-153 | with unique keys, the row found is the only one carrying that Id |
| `TransactionHandlers.GetById` | Fina/Fina.Api/Handlers/TransactionHandler.cs:74-92 | 404 with no data exactly when no row matches both Id and UserId; otherwise a row of the table with that Id and UserId; 500 on a database fault; reads the table only |
| `TransactionHandlers.GetByIdFindsRow` | Fina/Fina.Api/Handlers/TransactionHandler.cs:79-86 | with unique keys, asking by a row's own Id and UserId returns that very row |
| `TransactionHandlers.ResolvePeriod` | Fina/Fina.Api/Handlers/TransactionHandler.cs:96-104 | supplied StartDate and EndDate are kept; a missing start becomes midnight of the current month's day 1; a missing end becomes midnight of its last day; it fails only for a missing end in December 9999 |
| `TransactionHandlers.GetByPeriod` | Fina/Fina.Api/Handlers/TransactionHandler.cs:94-141 | 500 exactly on a date-default failure or a database fault; otherwise every row returned is one of the user's rows with StartDate <= PaidOrReceivedAt <= EndDate; rows are in ascending PaidOrReceivedAt order; the page is `Page` of the ordered matches; the count is the number of all matches; PageNumber and PageSize are echoed |
| `TransactionHandlers.PeriodPageProperties` | Fina/Fina.Api/Handlers/TransactionHandler.cs:113-129 | any page of the ordered period query holds only matching rows of the table, in ascending PaidOrReceivedAt order; the ordered query has as many rows as the matches |
| `TransactionHandlers.InPeriod` | Fina/Fina.Api/Handlers/TransactionHandler.cs:116-119 | a row is selected exactly when it is the user's and has a PaidOrReceivedAt whose tick count lies between the start's and the end's, both included; a row without a date is never selected |
| `TransactionHandlers.PeriodMatches` | Fina/Fina.Api/Handlers/TransactionHandler.cs:113-119 | holds exactly the table's rows that InPeriod selects, each as often as in the table |
| `TransactionHandlers.PeriodQuery` | Fina/Fina.Api/Handlers/TransactionHandler.cs:113-120 | a permutation of PeriodMatches, so it holds exactly the selected rows as often as the table does, in ascending PaidOrReceivedAt order |
| `TransactionHandlers.PaidKeyOrder` | Fina/Fina.Api/Handlers/TransactionHandler.cs:120 | the sort key orders two dated rows exactly as `DateTime`'s `<=` orders their dates |
| `TransactionHandlers.DefaultPeriodEndsAtMidnight` | Fina/Fina.Api/Handlers/TransactionHandler.cs:98-119 | with the default end, a transaction on the month's last day is selected only if it is at midnight (and not before the start) |
| `TransactionHandlers.TransactionHandler.Update` | Fina/Fina.Api/Handlers/TransactionHandler.cs:143-175 | with no row matching both Id and UserId: 404 and no change; otherwise it overwrites only CategoryId, the normalised Amount, Title, Type and PaidOrReceivedAt of that row; Id, UserId, CreatedAt and every other row are kept; it returns the updated row, which GetById then returns; 500 and no change on a fault |
| `CategoryHandlers.CategoryHandler.constructor` | Fina/Fina.Api/Handlers/CategoryHandler.cs:10 | the handler works on the context it is given |
| `CategoryHandlers.CategoryHandler.Create` | Fina/Fina.Api/Handlers/CategoryHandler.cs:12-37 | adds exactly one row carrying the request's UserId, Title and Description and the database's key; answers 201 with it, and GetById then returns it; a refused insert answers 500 and changes nothing; transactions are untouched |
| `CategoryHandlers.CategoryHandler.Delete` | Fina/Fina.Api/Handlers/CategoryHandler.cs:39-62 | with no row matching both Id and UserId: 404 and no change; otherwise it removes exactly that row and returns it, and GetById then answers 404; 500 and no change on a fault |
| `CategoryHandlers.FindOwned` | Fina/Fina.Api/Handlers/CategoryHandler.cs:44-46 | finds a row whose Id and UserId both match, and finds none exactly when no such row exists |
| `CategoryHandlers.FoundIsUnique` | Fina/Fina.Api/Handlers/CategoryHandler.cs:127-129 | with unique keys, the row found is the only one carrying that Id |
| `CategoryHandlers.GetById` | Fina/Fina.Api/Handlers/CategoryHandler.cs:100-120 | 404 with no data exactly when no category matches both Id and UserId; otherwise a row of the table with that Id and UserId; 500 on a fault; read-only |
| `CategoryHandlers.GetByIdFindsRow` | Fina/Fina.Api/Handlers/CategoryHandler.cs:105-114 | with unique keys, asking by a category's own Id and UserId returns that very category |
| `CategoryHandlers.TitleKeyOrder` | Fina/Fina.Api/Handlers/CategoryHandler.cs:77 | the Title sort key orders categories by the ordinal order of their titles: a prefix comes first, otherwise the smaller character at the first difference; two keys tie exactly when the titles are equal |
| `CategoryHandlers.UserCategories` | Fina/Fina.Api/Handlers/CategoryHandler.cs:73-76 | holds exactly the table's categories whose UserId is the user's, each as often as in the table |
| `CategoryHandlers.CategoryQuery` | Fina/Fina.Api/Handlers/CategoryHandler.cs:73-77 | a permutation of UserCategories, so it holds exactly the user's categories as often as the table does, in ascending Title order |
| `CategoryHandlers.CategoryPageProperties` | Fina/Fina.Api/Handlers/CategoryHandler.cs:73-86 | any page of the ordered query holds only the user's categories from the table, in ascending Title order; the ordered query has exactly as many rows as the user has categories |
| `CategoryHandlers.GetAll` | Fina/Fina.Api/Handlers/CategoryHandler.cs:64-98 | 500 exactly on a database fault; otherwise only the user's categories, in ascending ordinal Title order; the page is `Page` of the ordered query; the total count is the number of the user's categories, not the page length; PageNumber and PageSize are echoed |
| `CategoryHandlers.CategoryHandler.Update` | Fina/Fina.Api/Handlers/CategoryHandler.cs:122-151 | with no match: 404 and no change; otherwise it overwrites only Title and Description; Id, UserId and every other row are kept; returns the updated row, which GetById then returns; 500 and no change on a fault |
| `Linq.Where` | Fina/Fina.Api/Handlers/CategoryHandler.cs:76 | keeps exactly the elements satisfying the filter, each as often as in the input |
| `Linq.FirstMatch` | Fina/Fina.Api/Handlers/TransactionHandler.cs:56 | the position of the first element satisfying the predicate; none exactly when no element does |
| `Linq.LexLeTotal` | Fina/Fina.Api/Handlers/TransactionHandler.cs:120 | any two sort keys are comparable |
| `Linq.LexLeTransitive` | Fina/Fina.Api/Handlers/TransactionHandler.cs:120 | the key order is transitive |
| `Linq.LexLeReflexive` | Fina/Fina.Api/Handlers/CategoryHandler.cs:77 | every key is ordered with itself |
| `Linq.LexLeAntisymmetric` | Fina/Fina.Api/Handlers/CategoryHandler.cs:77 | keys ordered both ways are equal |
| `Linq.Insert` | Fina/Fina.Api/Handlers/TransactionHandler.cs:120 | inserting into a sorted sequence keeps it sorted and adds exactly the one element |
| `Linq.OrderBy` | Fina/Fina.Api/Handlers/TransactionHandler.cs:120 | the result is in ascending key order and is a permutation of the input |
| `Linq.OrderByCount` | Fina/Fina.Api/Handlers/TransactionHandler.cs:129 | ordering keeps the number and the set of elements, so counting the ordered query counts the matches |
| `Linq.Skip` | Fina/Fina.Api/Handlers/TransactionHandler.cs:125 | the suffix left after dropping `count` elements (none dropped for a negative count, all for a count past the end) |
| `Linq.Take` | Fina/Fina.Api/Handlers/TransactionHandler.cs:126 | the prefix of `count` elements, cut short by the end; empty for a count of zero or less |
| `Linq.Offset` | Fina/Fina.Api/Handlers/TransactionHandler.cs:125 | the number of rows skipped, `(PageNumber - 1) * PageSize`, is never negative for PageNumber >= 1 and PageSize >= 0, and is zero on page 1 |
| `Linq.Page` | Fina/Fina.Api/Handlers/CategoryHandler.cs:81-84 | Skip by the offset, then Take PageSize: at most PageSize elements, never more than the query has, all drawn from the query; PageRange and PageSlice state exactly which ones |
| `Linq.PageRange` | Fina/Fina.Api/Handlers/TransactionHandler.cs:124-127 | for any paging arguments, a page is a contiguous run of the query |
| `Linq.PageSlice` | Fina/Fina.Api/Handlers/CategoryHandler.cs:81-83 | for PageNumber >= 1 and PageSize >= 0, the page starts at index (PageNumber - 1) * PageSize and holds PageSize elements, fewer at the end, none past it |
| `Linq.PagesTile` | Fina/Fina.Api/Handlers/CategoryHandler.cs:81-83 | pages 1..k laid end to end are exactly the first k * PageSize elements: no element is skipped or repeated |
| `Linq.PageOfSorted` | Fina/Fina.Api/Handlers/TransactionHandler.cs:124-127 | a page of a sorted query is sorted and holds only elements of the query |
| `DateTimes.NewDate` | Fina/Fina.Core/Common/DateTimeExtension.cs:11 | the constructor succeeds exactly for a year in 1..9999, a month in 1..12 and a day within the month, and gives midnight of that day |
| `DateTimes.AddMonths` | Fina/Fina.Core/Common/DateTimeExtension.cs:16 | fails exactly for an argument outside -120000..120000 or a result year outside 1..9999; otherwise the month count (12 * year + month) grows by exactly the argument, the time of day is kept, and the day is kept unless the new month is shorter, when it is that month's last day |
| `DateTimes.AddDays` | Fina/Fina.Core/Common/DateTimeExtension.cs:17 | adds the argument times one day's ticks to the tick count and keeps the time of day; fails exactly when that sum is outside DateTime's tick range |
| `DateTimes.AddOneDay` | Fina/Fina.Core/Common/DateTimeExtension.cs:17 | AddDays(-1) is one step back to the previous day and AddDays(1) one step forward |
| `DateTimes.LessOrEqual` | Fina/Fina.Api/Handlers/TransactionHandler.cs:118-119 | DateTime's `<=` holds exactly when the first tick count is at most the second |
| `DateTimes.AddOneMonthToFirst` | Fina/Fina.Core/Common/DateTimeExtension.cs:16 | AddMonths(1) on the first of a month is the first of the next month, with December rolling into January; it fails past year 9999 |
| `DateTimes.PreviousDayOfFirst` | Fina/Fina.Core/Common/DateTimeExtension.cs:17 | one day back (AddDays(-1), by AddOneDay) from midnight on the first of a month is midnight on the last day of the previous month |
| `DateTimes.NextDayOfLast` | Fina/Fina.Core/Common/DateTimeExtension.cs:15-17 | one day after a month's last day is the first of the next month, at the same time of day |
| `DateTimes.DayStepsAreInverse` | Fina/Fina.Core/Common/DateTimeExtension.cs:17 | stepping a day back and then forward, or forward then back, returns the same instant |
| `DateTimeExtension.GetFirstDay` | Fina/Fina.Core/Common/DateTimeExtension.cs:10-11 | day 1 of the selected month at midnight; the year and month arguments override the date's own when given; it fails exactly for a year outside 1..9999 or a month outside 1..12 |
| `DateTimeExtension.GetLastDay` | Fina/Fina.Core/Common/DateTimeExtension.cs:14-17 | midnight of the selected month's last day; the day is 31, 30, or for February 29 in a Gregorian leap year and 28 otherwise; the arguments override as for GetFirstDay; it fails exactly as GetFirstDay does, and also for December 9999 |
| `DateTimeExtension.FirstDayNotAfterLastDay` | Fina/Fina.Core/Common/DateTimeExtension.cs:10-17 | whenever GetLastDay succeeds, GetFirstDay does too, for the same year and month, and it is no later |
| `DateTimeExtension.DayAfterLastDay` | Fina/Fina.Core/Common/DateTimeExtension.cs:14-17 | the day after GetLastDay is GetFirstDay of the following month; December rolls over to January of the next year |

## Left out

- Entity Framework is not modelled: change tracking, `AsNoTracking`, query translation to SQL and the transaction around `SaveChangesAsync` are library code. Each staged Add, Remove or Update is applied, together with its commit, as one assignment to the table.
- The causes of database exceptions cannot be seen, so any fault is the `dbFault` input. Create also answers 500 when `newId` is already a key, as a primary-key violation would.
- Id generation belongs to the database. The new key is the `newId` parameter.
- `DateTime.Now` is the `now` parameter. GetByPeriodAsync reads the clock twice, once for each default. The model uses one reading for both, so it does not capture a month boundary passing between the two reads.
- The handlers write the normalised amount and the defaulted dates back into the caller's request object. The requests here are values, so callers do not see those writes.
- Response messages are not modelled, and neither are the envelope's default status code and its `IsSuccess`. Where a handler passes no code, the status is `DefaultStatus`.
- `Amount` is a `decimal` in the source. The model uses an integer count of the smallest currency unit.
- The types of PageNumber and PageSize are in `PagedRequest`, which is not part of this model. They are unbounded integers here, so a 32-bit overflow of `(PageNumber - 1) * PageSize` is not modelled. Skip and Take follow in-memory LINQ for negative or oversized arguments. The database is SQL Server, which refuses a negative OFFSET and a FETCH count below 1. Such a request may end in the 500 catch path there, where the model returns an empty page.
- The database's collation is not modelled. Ordering by Title compares character codes, and the owner filters on UserId use exact string equality. Under a case-insensitive collation the database would rank and match strings differently.
- Rows with equal sort keys keep their table order in the model (a stable sort). The database leaves the order of such ties unspecified.
- The Transaction and Category model files are not part of this model. PaidOrReceivedAt is taken as optional, so the model also covers a nullable column. A transaction without a date is never in a period.
- `DateTime` is modelled to whole days plus a time-of-day tick count. Its `Kind` and fractional `AddDays` arguments are left out; the helpers only add whole months and days.
- async/await is left out. Every operation runs to completion on its own.
- Request validation (the 400 answers) happens in the request's attributes and the endpoints, outside the handlers. The endpoint layer, `Program.cs`, `BuildExtension.cs` and the Blazor page are wiring and UI, with no logic to verify.
