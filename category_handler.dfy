/**
 * CategoryHandler: create, delete, get-all (paged, by Title), get-by-id and
 * update over the context's category table.  As for transactions, a row
 * matches a lookup only when both its Id and its UserId are the request's;
 * `dbFault` stands for an exception raised by the database and `newId` for
 * the key the database assigns to an insert.
 */
module CategoryHandlers {
  import opened Wrappers
  import opened Linq
  import opened Models
  import opened Data

  /** FirstOrDefaultAsync(x => x.Id == id && x.UserId == userId): the position of the first owned row with that key. */
  function FindOwned(table: seq<Category>, id: int, userId: string): (r: Option<nat>)
    ensures r.Some? ==> r.value < |table| && table[r.value].id == id && table[r.value].userId == userId
    ensures r.None? <==> forall c :: c in table ==> !(c.id == id && c.userId == userId)
  {
    FirstMatch(table, (c: Category) => c.id == id && c.userId == userId)
  }

  /** With unique keys, a row found by its key is the only row with that key. */
  lemma FoundIsUnique(table: seq<Category>, id: int, userId: string, c: Category)
    requires UniqueCategoryIds(table)
    requires FindOwned(table, id, userId).Some?
    requires c in table && c.id == id
    ensures c == table[FindOwned(table, id, userId).value]
  {
    var i := FindOwned(table, id, userId).value;
    var j :| 0 <= j < |table| && table[j] == c;
    assert i == j;
  }

  // ------------------------------------------------------------ GetById

  /** GetByIdAsync: the owned row with the request's Id, 404 when there is none; the table is only read. */
  function GetById(categories: seq<Category>, request: GetCategoryByIdRequest, dbFault: bool): (r: Response<Category>)
    ensures dbFault ==> r == Response(None, InternalServerError)
    ensures !dbFault ==>
              (r.status == NotFound <==> forall c :: c in categories ==> !(c.id == request.id && c.userId == request.userId))
    ensures !dbFault && r.status == NotFound ==> r.data.None?
    ensures !dbFault && r.status != NotFound ==>
              && r.status == DefaultStatus
              && r.data.Some? && r.data.value in categories
              && r.data.value.id == request.id && r.data.value.userId == request.userId
  {
    if dbFault then Response(None, InternalServerError)
    else
      match FindOwned(categories, request.id, request.userId)
      case None => Response(None, NotFound)
      case Some(i) => Response(Some(categories[i]), DefaultStatus)
  }

  /** With unique keys, GetById given a row's own Id and UserId returns exactly that row. */
  lemma GetByIdFindsRow(categories: seq<Category>, c: Category)
    requires UniqueCategoryIds(categories)
    requires c in categories
    ensures GetById(categories, GetCategoryByIdRequest(c.userId, c.id), false) == Response(Some(c), DefaultStatus)
  {
    FoundIsUnique(categories, c.id, c.userId, c);
  }

  // ------------------------------------------------------------- GetAll

  /** A string's character codes, one per character. */
  function Codes(s: string): (k: seq<int>)
    ensures |k| == |s|
    ensures forall i :: 0 <= i < |k| ==> k[i] == s[i] as int
  {
    seq(|s|, i requires 0 <= i < |s| => s[i] as int)
  }

  /** The sort key of OrderBy(x => x.Title): the title's character codes, compared one by one. */
  function TitleKey(c: Category): (k: seq<int>)
    ensures |k| == |c.title|
    ensures forall i :: 0 <= i < |k| ==> k[i] == c.title[i] as int
  {
    Codes(c.title)
  }

  /** Ordinal string order: `s` is a prefix of `t`, or smaller at the first difference. */
  ghost predicate OrdinalLe(s: string, t: string)
  {
    s <= t || exists k :: 0 <= k < |s| && k < |t| && s[..k] == t[..k] && s[k] < t[k]
  }

  /** Ordinal order compares first characters, then the rest. */
  lemma OrdinalLeCons(s: string, t: string)
    requires s != [] && t != []
    ensures OrdinalLe(s, t) <==> s[0] < t[0] || (s[0] == t[0] && OrdinalLe(s[1..], t[1..]))
  {
    if s[0] < t[0] {
      assert s[..0] == t[..0];
    } else if s[0] == t[0] {
      OrdinalLeTails(s, t);
    }
  }

  /** With equal first characters, ordinal order is decided by the rest. */
  lemma OrdinalLeTails(s: string, t: string)
    requires s != [] && t != [] && s[0] == t[0]
    ensures OrdinalLe(s, t) <==> OrdinalLe(s[1..], t[1..])
  {
    assert s <= t <==> s[1..] <= t[1..];
    if k :| 0 <= k < |s| && k < |t| && s[..k] == t[..k] && s[k] < t[k] {
      assert k > 0;
      assert s[1..][..k - 1] == s[..k][1..];
      assert t[1..][..k - 1] == t[..k][1..];
      assert s[1..][k - 1] == s[k] && t[1..][k - 1] == t[k];
    }
    if k :| 0 <= k < |s| - 1 && k < |t| - 1 && s[1..][..k] == t[1..][..k] && s[1..][k] < t[1..][k] {
      assert s[..k + 1] == [s[0]] + s[1..][..k];
      assert t[..k + 1] == [t[0]] + t[1..][..k];
      assert s[k + 1] == s[1..][k] && t[k + 1] == t[1..][k];
    }
  }

  /** The codes of a string are its first character's code, then the codes of the rest. */
  lemma CodesCons(s: string)
    requires s != []
    ensures Codes(s) == [s[0] as int] + Codes(s[1..])
  {
    assert Codes(s)[1..] == Codes(s[1..]);
  }

  /** Comparing character codes lexicographically is the ordinal order of the strings. */
  lemma {:induction false} CodesOrder(s: string, t: string)
    ensures LexLe(Codes(s), Codes(t)) <==> OrdinalLe(s, t)
    decreases |s|
  {
    if s != [] && t != [] {
      CodesOrder(s[1..], t[1..]);
      CodesCons(s);
      CodesCons(t);
      LexLeCons(s[0] as int, t[0] as int, Codes(s[1..]), Codes(t[1..]));
      OrdinalLeCons(s, t);
    }
  }

  /**
   * The Title key orders categories by the ordinal order of their titles, and
   * two categories tie exactly when their titles are equal.
   */
  lemma TitleKeyOrder(a: Category, b: Category)
    ensures LexLe(TitleKey(a), TitleKey(b)) <==> OrdinalLe(a.title, b.title)
    ensures TitleKey(a) == TitleKey(b) <==> a.title == b.title
  {
    CodesOrder(a.title, b.title);
    if TitleKey(a) == TitleKey(b) {
      assert forall i :: 0 <= i < |a.title| ==> a.title[i] as int == TitleKey(a)[i] == TitleKey(b)[i] == b.title[i] as int;
    }
  }

  /** The user's categories, in table order: `Where(x => x.UserId == request.UserId)`. */
  function UserCategories(categories: seq<Category>, userId: string): (r: seq<Category>)
    ensures forall c :: c in r <==> c in categories && c.userId == userId
    ensures forall c :: multiset(r)[c] == if c.userId == userId then multiset(categories)[c] else 0
  {
    Where(categories, (c: Category) => c.userId == userId)
  }

  /** The get-all query before paging, ordered by Title. */
  function CategoryQuery(categories: seq<Category>, userId: string): (r: seq<Category>)
    ensures forall c :: c in r <==> c in categories && c.userId == userId
    ensures |r| == |UserCategories(categories, userId)|
    ensures multiset(r) == multiset(UserCategories(categories, userId))
    ensures SortedBy(r, TitleKey)
  {
    var matches := UserCategories(categories, userId);
    OrderByCount(matches, TitleKey);
    OrderBy(matches, TitleKey)
  }

  /** In ascending Title order, every title is ordinally at most every later one. */
  lemma SortedByTitle(s: seq<Category>)
    requires SortedBy(s, TitleKey)
    ensures forall i, j :: 0 <= i < j < |s| ==> OrdinalLe(s[i].title, s[j].title)
  {
    forall i, j | 0 <= i < j < |s| ensures OrdinalLe(s[i].title, s[j].title) {
      TitleKeyOrder(s[i], s[j]);
    }
  }

  /**
   * A page of the get-all query holds only the user's categories, in
   * ascending Title order, and the query holds exactly the user's categories.
   */
  lemma CategoryPageProperties(categories: seq<Category>, userId: string, pageNumber: int, pageSize: int)
    ensures |CategoryQuery(categories, userId)| == |UserCategories(categories, userId)|
    ensures var page := Page(CategoryQuery(categories, userId), pageNumber, pageSize);
            && (forall i :: 0 <= i < |page| ==> page[i] in categories && page[i].userId == userId)
            && SortedBy(page, TitleKey)
            && (forall i, j :: 0 <= i < j < |page| ==> OrdinalLe(page[i].title, page[j].title))
  {
    var query := CategoryQuery(categories, userId);
    var page := Page(query, pageNumber, pageSize);
    PageOfSorted(query, TitleKey, pageNumber, pageSize);
    SortedByTitle(page);
    forall i | 0 <= i < |page| ensures page[i] in categories && page[i].userId == userId {
      assert page[i] in query;
    }
  }

  /**
   * GetAllAsync: one page of the user's categories in ascending Title order,
   * with the number of all the user's categories.
   */
  function GetAll(categories: seq<Category>, request: GetAllCategoriesRequest, dbFault: bool): (r: PagedResponse<Category>)
    ensures r.PagedFailure? <==> dbFault
    ensures r.PagedFailure? ==> r.status == InternalServerError
    ensures r.Paged? ==>
              && r.pageNumber == request.pageNumber && r.pageSize == request.pageSize
              && r.totalCount == |UserCategories(categories, request.userId)|
              && r.data == Page(CategoryQuery(categories, request.userId), request.pageNumber, request.pageSize)
              && (forall i :: 0 <= i < |r.data| ==> r.data[i] in categories && r.data[i].userId == request.userId)
              && SortedBy(r.data, TitleKey)
              && (forall i, j :: 0 <= i < j < |r.data| ==> OrdinalLe(r.data[i].title, r.data[j].title))
  {
    if dbFault then PagedFailure(InternalServerError)
    else
      var query := CategoryQuery(categories, request.userId);
      CategoryPageProperties(categories, request.userId, request.pageNumber, request.pageSize);
      Paged(Page(query, request.pageNumber, request.pageSize), |query|, request.pageNumber, request.pageSize)
  }

  class CategoryHandler {
    const context: AppDbContext

    constructor (context: AppDbContext)
      ensures this.context == context
    {
      this.context := context;
    }

    /**
     * CreateAsync: stores one new row with the request's UserId, Title and
     * Description and answers 201 with it.  An insert the database refuses (a
     * fault, or a key already taken) answers 500 and stores nothing.
     */
    method Create(request: CreateCategoryRequest, newId: int, dbFault: bool) returns (response: Response<Category>)
      requires context.Valid()
      modifies context
      ensures context.Valid()
      ensures context.Transactions == old(context.Transactions)
      ensures var stored := Category(newId, request.userId, request.title, request.description);
              if dbFault || newId in CategoryIds(old(context.Categories)) then
                response == Response(None, InternalServerError) && context.Categories == old(context.Categories)
              else
                && response == Response(Some(stored), Created)
                && context.Categories == old(context.Categories) + [stored]
                && GetById(context.Categories, GetCategoryByIdRequest(request.userId, newId), false)
                   == Response(Some(stored), DefaultStatus)
    {
      var category := Category(newId, request.userId, request.title, request.description);
      if dbFault || newId in CategoryIds(context.Categories) {
        response := Response(None, InternalServerError);
        return;
      }
      context.Categories := context.Categories + [category];
      response := Response(Some(category), Created);
      GetByIdFindsRow(context.Categories, category);
    }

    /**
     * DeleteAsync: removes the owned row with the request's Id and returns it;
     * 404 and no change when there is none.
     */
    method Delete(request: DeleteCategoryRequest, dbFault: bool) returns (response: Response<Category>)
      requires context.Valid()
      modifies context
      ensures context.Valid()
      ensures context.Transactions == old(context.Transactions)
      ensures var found := FindOwned(old(context.Categories), request.id, request.userId);
              if dbFault then
                response == Response(None, InternalServerError) && context.Categories == old(context.Categories)
              else if found.None? then
                response == Response(None, NotFound) && context.Categories == old(context.Categories)
              else
                var i := found.value;
                && response == Response(Some(old(context.Categories)[i]), DefaultStatus)
                && context.Categories == old(context.Categories)[..i] + old(context.Categories)[i + 1..]
      ensures !dbFault ==> GetById(context.Categories, GetCategoryByIdRequest(request.userId, request.id), false)
                           == Response(None, NotFound)
    {
      if dbFault {
        response := Response(None, InternalServerError);
        return;
      }
      var found := FindOwned(context.Categories, request.id, request.userId);
      if found.None? {
        response := Response(None, NotFound);
        return;
      }
      var i := found.value;
      ghost var before := context.Categories;
      var category := context.Categories[i];
      context.Categories := context.Categories[..i] + context.Categories[i + 1..];
      response := Response(Some(category), DefaultStatus);
      assert forall k :: 0 <= k < |context.Categories| ==>
          context.Categories[k] == before[if k < i then k else k + 1];
    }

    /**
     * UpdateAsync: on the owned row with the request's Id, overwrites Title
     * and Description and returns the row; Id, UserId and every other row
     * stay as they were.  404 and no change when there is no such row.
     */
    method Update(request: UpdateCategoryRequest, dbFault: bool) returns (response: Response<Category>)
      requires context.Valid()
      modifies context
      ensures context.Valid()
      ensures context.Transactions == old(context.Transactions)
      ensures var found := FindOwned(old(context.Categories), request.id, request.userId);
              if dbFault then
                response == Response(None, InternalServerError) && context.Categories == old(context.Categories)
              else if found.None? then
                response == Response(None, NotFound) && context.Categories == old(context.Categories)
              else
                var i := found.value;
                var was := old(context.Categories)[i];
                && |context.Categories| == |old(context.Categories)|
                && (forall k :: 0 <= k < |context.Categories| && k != i ==>
                      context.Categories[k] == old(context.Categories)[k])
                && var row := context.Categories[i];
                && row.id == was.id && row.userId == was.userId
                && row.title == request.title && row.description == request.description
                && response == Response(Some(row), DefaultStatus)
                && GetById(context.Categories, GetCategoryByIdRequest(request.userId, request.id), false)
                   == response
    {
      if dbFault {
        response := Response(None, InternalServerError);
        return;
      }
      var found := FindOwned(context.Categories, request.id, request.userId);
      if found.None? {
        response := Response(None, NotFound);
        return;
      }
      var i := found.value;
      var category := context.Categories[i];
      category := category.(title := request.title, description := request.description);
      context.Categories := context.Categories[i := category];
      response := Response(Some(category), DefaultStatus);
      assert context.Categories[i] == category;
      GetByIdFindsRow(context.Categories, category);
    }
  }
}
