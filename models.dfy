/**
 * The records, requests and response envelopes the two handlers exchange.
 * Amounts are whole numbers of the currency's smallest unit.
 */
module Models {
  import opened Wrappers
  import opened DateTimes

  datatype TransactionType = Deposit | Withdraw

  datatype Transaction = Transaction(
    id: int,
    userId: string,
    categoryId: int,
    createdAt: DateTime,
    amount: int,
    paidOrReceivedAt: Option<DateTime>,
    title: string,
    transactionType: TransactionType)

  datatype Category = Category(id: int, userId: string, title: string, description: string)

  // Transaction requests
  datatype CreateTransactionRequest = CreateTransactionRequest(
    userId: string,
    categoryId: int,
    amount: int,
    paidOrReceivedAt: Option<DateTime>,
    title: string,
    transactionType: TransactionType)

  datatype UpdateTransactionRequest = UpdateTransactionRequest(
    userId: string,
    id: int,
    categoryId: int,
    amount: int,
    paidOrReceivedAt: Option<DateTime>,
    title: string,
    transactionType: TransactionType)

  datatype DeleteTransactionRequest = DeleteTransactionRequest(userId: string, id: int)

  datatype GetTransactionByIdRequest = GetTransactionByIdRequest(userId: string, id: int)

  /** A paged request whose StartDate and EndDate may be left out. */
  datatype GetTransactionsByPeriodRequest = GetTransactionsByPeriodRequest(
    userId: string,
    pageNumber: int,
    pageSize: int,
    startDate: Option<DateTime>,
    endDate: Option<DateTime>)

  // Category requests
  datatype CreateCategoryRequest = CreateCategoryRequest(userId: string, title: string, description: string)

  datatype UpdateCategoryRequest = UpdateCategoryRequest(userId: string, id: int, title: string, description: string)

  datatype DeleteCategoryRequest = DeleteCategoryRequest(userId: string, id: int)

  datatype GetCategoryByIdRequest = GetCategoryByIdRequest(userId: string, id: int)

  datatype GetAllCategoriesRequest = GetAllCategoriesRequest(userId: string, pageNumber: int, pageSize: int)

  /**
   * The status codes the handlers pass explicitly (201, 404, 500), and the
   * envelope's own default, used where a handler passes none.
   */
  datatype Status = Created | NotFound | InternalServerError | DefaultStatus

  /** Response<T?>: the entity (or null) and a status. */
  datatype Response<T> = Response(data: Option<T>, status: Status)

  /**
   * PagedResponse<List<T>?>: either a page with the total count and the paging
   * arguments, or a failure with no data and a status.
   */
  datatype PagedResponse<T> =
    | Paged(data: seq<T>, totalCount: int, pageNumber: int, pageSize: int)
    | PagedFailure(status: Status)
}
