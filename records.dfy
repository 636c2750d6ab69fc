/** The entities of the expense ledger and the outcomes its handlers produce. */
module Records {
  import opened Wrappers
  import opened Calendar

  /** A row of the `expense` table without its id, which is the key it is stored under. */
  datatype Expense = Expense(date: Date, description: string, amount: string, categoryId: nat, userId: nat)

  /** An expense joined with its category's name, as every read handler lists it. */
  datatype Row = Row(id: nat, date: Date, description: string, amount: string, category: string)

  /** The JSON body of POST /expense; `None` is a missing key (a missing body lacks them all). */
  datatype NewExpense = NewExpense(description: Option<string>, amount: Option<string>, category: Option<string>)

  /** The JSON body of PUT /expense/<id>. */
  datatype ExpenseChange = ExpenseChange(description: Option<string>, amount: Option<string>)

  /** The ways a handler fails instead of answering with data. */
  datatype Fault =
    | MissingFields  // ValueError raised when a required key is absent
    | NotFound       // no expense has the requested id
    | Forbidden      // the caller does not own the expense
    | NoDateColumn   // KeyError: the DataFrame of an empty ledger has no "date" column
    | DateOverflow   // OverflowError: date arithmetic would go before 0001-01-01
    | BadAmount      // ValueError: int() rejects an amount

  /** What a read handler answers: a list of rows, a "not found" message, or a failure. */
  datatype Reply = Rows(rows: seq<Row>) | Message(text: string) | Failed(fault: Fault)

  /** The ids of the rows, as a set. */
  function IdsOf(rows: seq<Row>): (ids: set<nat>)
    ensures forall x :: x in rows ==> x.id in ids
  {
    if rows == [] then {} else IdsOf(rows[..|rows| - 1]) + {rows[|rows| - 1].id}
  }

  /** The set holds the rows' ids and nothing else. */
  lemma {:induction false} IdsOfExact(rows: seq<Row>)
    ensures IdsOf(rows) == set x | x in rows :: x.id
    decreases |rows|
  {
    if rows != [] {
      var init := rows[..|rows| - 1];
      IdsOfExact(init);
      assert rows == init + [rows[|rows| - 1]];
      assert forall x :: x in rows <==> x in init || x == rows[|rows| - 1];
    }
  }

  lemma IdsOfAppend(rows: seq<Row>, x: Row)
    ensures IdsOf(rows + [x]) == IdsOf(rows) + {x.id}
  {
    assert (rows + [x])[..|rows|] == rows;
  }

  predicate AllDatesValid(rows: seq<Row>)
  {
    forall x :: x in rows ==> ValidDate(x.date)
  }
}
