/**
 * The expense and category tables and the handlers that change them:
 * add (POST /expense), update (PUT /expense/<id>), delete
 * (DELETE /expenses/<id>) and get_all (GET /expense). The caller's user id,
 * taken from the access token in the service, is a plain parameter.
 */
module Store {
  import opened Wrappers
  import opened Calendar
  import opened Records

  /** No two categories share a name (the unique constraint on `category.name`). */
  predicate UniqueNames(categories: map<nat, string>)
  {
    forall a, b :: a in categories && b in categories && categories[a] == categories[b] ==> a == b
  }

  /** Appending a row whose id is still unlisted keeps the listed ids distinct and outside what is left. */
  lemma FreshIdKeepsDistinct(rows: seq<Row>, x: Row, left: set<nat>)
    requires x.id in left
    requires forall i :: 0 <= i < |rows| ==> rows[i].id !in left
    requires forall i, j :: 0 <= i < j < |rows| ==> rows[i].id != rows[j].id
    ensures forall i :: 0 <= i < |rows + [x]| ==> (rows + [x])[i].id !in left - {x.id}
    ensures forall i, j :: 0 <= i < j < |rows + [x]| ==> (rows + [x])[i].id != (rows + [x])[j].id
  {
  }

  class Ledger {
    /** The `expense` table, by id. */
    var expenses: map<nat, Expense>
    /** The `category` table: id to name. */
    var categories: map<nat, string>
    /** The ids the database hands out next (a sequence that never reuses an id). */
    var nextExpenseId: nat
    var nextCategoryId: nat

    /** Every expense names an existing category (the foreign key) and carries a real date. */
    ghost predicate Joinable()
      reads this
    {
      forall id :: id in expenses ==> expenses[id].categoryId in categories && ValidDate(expenses[id].date)
    }

    ghost predicate Valid()
      reads this
    {
      && 1 <= nextExpenseId && 1 <= nextCategoryId
      && (forall id :: id in expenses ==> 1 <= id < nextExpenseId)
      && Joinable()
      && (forall c :: c in categories ==> 1 <= c < nextCategoryId)
      && UniqueNames(categories)
    }

    constructor ()
      ensures Valid() && expenses == map[] && categories == map[]
    {
      expenses, categories := map[], map[];
      nextExpenseId, nextCategoryId := 1, 1;
    }

    /** The expense with the given id, joined with its category's name. */
    function RowOf(id: nat): Row
      reads this
      requires id in expenses && expenses[id].categoryId in categories
    {
      var e := expenses[id];
      Row(id, e.date, e.description, e.amount, categories[e.categoryId])
    }

    /** `Category.query.filter_by(name = name).first()`: the category of that name, if any. */
    method FindCategory(name: string) returns (found: Option<nat>)
      ensures found.Some? ==> found.value in categories && categories[found.value] == name
      ensures found.None? ==> name !in categories.Values
    {
      var left := categories.Keys;
      while left != {}
        invariant left <= categories.Keys
        invariant forall c :: c in categories && c !in left ==> categories[c] != name
        decreases left
      {
        var c :| c in left;
        if categories[c] == name {
          return Some(c);
        }
        left := left - {c};
      }
      return None;
    }

    /**
     * POST /expense: with description, amount and category all present, the
     * category of that name is reused or else created, and one expense owned
     * by the caller and dated `created` is added under a fresh id.
     */
    method Add(caller: nat, created: Date, input: NewExpense) returns (r: Result<Row, Fault>)
      requires Valid() && ValidDate(created)
      modifies this
      ensures Valid()
      ensures input.description.None? || input.amount.None? || input.category.None? ==>
                r == Failure(MissingFields) && expenses == old(expenses) && categories == old(categories)
      ensures input.description.Some? && input.amount.Some? && input.category.Some? ==>
                && r.Success? && r.value.id !in old(expenses) && r.value.id in expenses
                && var name := input.category.value;
                   var cid := expenses[r.value.id].categoryId;
                   && expenses == old(expenses)[r.value.id := Expense(created, input.description.value, input.amount.value, cid, caller)]
                   && r.value == RowOf(r.value.id) && r.value.category == name
                   && (forall c :: c in categories && categories[c] == name ==> c == cid)
                   && (name in old(categories.Values) ==> categories == old(categories))
                   && (name !in old(categories.Values) ==> cid !in old(categories) && categories == old(categories)[cid := name])
    {
      if input.description.None? || input.amount.None? || input.category.None? {
        return Failure(MissingFields);
      }
      var name := input.category.value;
      var found := FindCategory(name);
      var cid: nat;
      if found.Some? {
        cid := found.value;
      } else {
        cid := nextCategoryId;
        categories := categories[cid := name];
        nextCategoryId := nextCategoryId + 1;
      }
      var id := nextExpenseId;
      expenses := expenses[id := Expense(created, input.description.value, input.amount.value, cid, caller)];
      nextExpenseId := nextExpenseId + 1;
      r := Success(RowOf(id));
    }

    /**
     * PUT /expense/<id>: a missing id, a caller who is not the owner, or a
     * body without description or amount changes nothing; otherwise only the
     * description and amount of that one expense change.
     */
    method Update(caller: nat, id: nat, change: ExpenseChange) returns (r: Result<Row, Fault>)
      requires Valid()
      modifies this
      ensures Valid() && categories == old(categories)
      ensures id !in old(expenses) ==> r == Failure(NotFound) && expenses == old(expenses)
      ensures id in old(expenses) && old(expenses)[id].userId != caller ==>
                r == Failure(Forbidden) && expenses == old(expenses)
      ensures id in old(expenses) && old(expenses)[id].userId == caller && (change.description.None? || change.amount.None?) ==>
                r == Failure(MissingFields) && expenses == old(expenses)
      ensures id in old(expenses) && old(expenses)[id].userId == caller && change.description.Some? && change.amount.Some? ==>
                && expenses == old(expenses)[id := old(expenses)[id].(description := change.description.value, amount := change.amount.value)]
                && r == Success(RowOf(id))
    {
      if id !in expenses {
        return Failure(NotFound);
      }
      if expenses[id].userId != caller {
        return Failure(Forbidden);
      }
      if change.description.None? || change.amount.None? {
        return Failure(MissingFields);
      }
      expenses := expenses[id := expenses[id].(description := change.description.value, amount := change.amount.value)];
      r := Success(RowOf(id));
    }

    /** DELETE /expenses/<id>: the owner removes that one expense; anyone else, or a missing id, changes nothing. */
    method Delete(caller: nat, id: nat) returns (r: Result<(), Fault>)
      requires Valid()
      modifies this
      ensures Valid() && categories == old(categories)
      ensures id !in old(expenses) ==> r == Failure(NotFound) && expenses == old(expenses)
      ensures id in old(expenses) && old(expenses)[id].userId != caller ==>
                r == Failure(Forbidden) && expenses == old(expenses)
      ensures id in old(expenses) && old(expenses)[id].userId == caller ==>
                r == Success(()) && expenses == old(expenses) - {id}
    {
      if id !in expenses {
        return Failure(NotFound);
      }
      if expenses[id].userId != caller {
        return Failure(Forbidden);
      }
      expenses := expenses - {id};
      r := Success(());
    }

    /**
     * `Expense.query.all()` joined with category names: every expense exactly
     * once, of every owner, in an order the database chooses.
     */
    method Snapshot() returns (rows: seq<Row>)
      requires Joinable()
      ensures |rows| == |expenses| && IdsOf(rows) == expenses.Keys
      ensures forall i :: 0 <= i < |rows| ==> rows[i].id in expenses && rows[i] == RowOf(rows[i].id)
      ensures forall i, j :: 0 <= i < j < |rows| ==> rows[i].id != rows[j].id
      ensures AllDatesValid(rows)
    {
      rows := [];
      var left := expenses.Keys;
      while left != {}
        invariant left <= expenses.Keys
        invariant |rows| + |left| == |expenses|
        invariant IdsOf(rows) + left == expenses.Keys
        invariant forall i :: 0 <= i < |rows| ==> rows[i].id !in left
        invariant forall x :: x in rows ==> x.id in expenses && x == RowOf(x.id)
        invariant forall i, j :: 0 <= i < j < |rows| ==> rows[i].id != rows[j].id
        decreases left
      {
        var id :| id in left;
        var x := RowOf(id);
        assert x.id == id && x == RowOf(x.id);
        IdsOfAppend(rows, x);
        FreshIdKeepsDistinct(rows, x, left);
        assert forall i :: 0 <= i < |rows| ==> (rows + [x])[i] == rows[i];
        rows, left := rows + [x], left - {id};
      }
    }

    /** GET /expense: every expense of every owner, or a "not found" message when there are none. */
    method GetAll() returns (reply: Reply)
      requires Valid()
      ensures expenses == map[] ==> reply == Message("Expense not found")
      ensures expenses != map[] ==> reply.Rows? && |reply.rows| == |expenses| && IdsOf(reply.rows) == expenses.Keys
      ensures reply.Rows? ==> forall x :: x in reply.rows ==> x.id in expenses && x == RowOf(x.id)
    {
      var rows := Snapshot();
      if rows == [] {
        reply := Message("Expense not found");
      } else {
        reply := Rows(rows);
      }
    }
  }
}
