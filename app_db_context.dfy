/**
 * The database context: one table of transactions and one of categories,
 * each row kept in the database's order.  Primary keys are unique within a
 * table.  A handler's staged change and the SaveChangesAsync that commits it
 * are one assignment to the table.
 */
module Data {
  import opened Models

  ghost predicate UniqueTransactionIds(table: seq<Transaction>)
  {
    forall i, j :: 0 <= i < j < |table| ==> table[i].id != table[j].id
  }

  ghost predicate UniqueCategoryIds(table: seq<Category>)
  {
    forall i, j :: 0 <= i < j < |table| ==> table[i].id != table[j].id
  }

  function TransactionIds(table: seq<Transaction>): set<int>
  {
    set t | t in table :: t.id
  }

  function CategoryIds(table: seq<Category>): set<int>
  {
    set c | c in table :: c.id
  }

  class AppDbContext {
    var Transactions: seq<Transaction>
    var Categories: seq<Category>

    /** Primary keys are unique in each table. */
    ghost predicate Valid()
      reads this
    {
      UniqueTransactionIds(Transactions) && UniqueCategoryIds(Categories)
    }
  }
}
