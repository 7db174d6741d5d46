/**
 * The three route handlers of server.js over an abstract inquiries table: submit
 * (validate, BEGIN, INSERT, send mail, COMMIT or ROLLBACK), list (newest first) and
 * status update. Each handler takes a pooled connection and gives it back on every path.
 * The relational engine, the mail transport and the pool's failures are boolean inputs.
 */
module InquiryStore {
  import opened Wrappers
  import opened Validator

  const OK := 200
  const BadRequest := 400
  const NotFound := 404
  const ServerError := 500

  /** One row of the inquiries table; updatedAt and isRead are columns no handler writes. */
  datatype Inquiry = Inquiry(
    id: nat,
    name: string,
    email: string,
    message: string,
    createdAt: nat,
    updatedAt: Option<nat>,
    status: string,
    isRead: bool)

  /** Why a request failed; the client sees only the kind, never the underlying cause. */
  datatype Failure = Invalid(field: FieldError) | NoSuchInquiry | Internal

  /** The `data` or `error` part of the JSON envelope. */
  datatype Body = One(row: Inquiry) | Many(rows: seq<Inquiry>) | Error(failure: Failure)

  datatype Response = Response(code: nat, body: Body)

  /** Rows in insertion order: ids come from a serial sequence and created_at from a clock, both increasing. */
  ghost predicate Chronological(rows: seq<Inquiry>) {
    forall i, j | 0 <= i < j < |rows| :: rows[i].id < rows[j].id && rows[i].createdAt < rows[j].createdAt
  }

  /** ORDER BY created_at DESC: no earlier-created row comes before a later-created one. */
  ghost predicate NewestFirstOrder(rows: seq<Inquiry>) {
    forall i, j | 0 <= i < j < |rows| :: rows[i].createdAt >= rows[j].createdAt
  }

  /** The result of the list query over a table kept in insertion order. */
  function NewestFirst(rows: seq<Inquiry>): (r: seq<Inquiry>)
    ensures |r| == |rows|
  {
    if rows == [] then [] else NewestFirst(rows[1..]) + [rows[0]]
  }

  /** The list query returns every row, each once, newest first. */
  lemma NewestFirstIsOrdered(rows: seq<Inquiry>)
    requires Chronological(rows)
    ensures multiset(NewestFirst(rows)) == multiset(rows)
    ensures NewestFirstOrder(NewestFirst(rows))
  {
    NewestFirstKeepsRows(rows);
    var r := NewestFirst(rows);
    forall i, j | 0 <= i < j < |r| ensures r[i].createdAt >= r[j].createdAt {
      NewestFirstAt(rows, i);
      NewestFirstAt(rows, j);
    }
  }

  /** Position k of the list result is the k-th newest row. */
  lemma {:induction false} NewestFirstAt(rows: seq<Inquiry>, k: nat)
    requires k < |rows|
    ensures |NewestFirst(rows)| == |rows| && NewestFirst(rows)[k] == rows[|rows| - 1 - k]
  {
    if |rows| > 1 {
      NewestFirstAt(rows[1..], if k < |rows| - 1 then k else 0);
    }
  }

  lemma {:induction false} NewestFirstKeepsRows(rows: seq<Inquiry>)
    ensures multiset(NewestFirst(rows)) == multiset(rows)
  {
    if rows != [] {
      NewestFirstKeepsRows(rows[1..]);
      assert rows == [rows[0]] + rows[1..];
    }
  }

  /** Position of the row with key id, if there is one. */
  function FindRow(rows: seq<Inquiry>, id: int): (k: Option<nat>)
    ensures k.Some? ==> k.value < |rows| && rows[k.value].id == id
    ensures k.None? ==> forall i | 0 <= i < |rows| :: rows[i].id != id
  {
    if rows == [] then None
    else if rows[0].id == id then Some(0)
    else match FindRow(rows[1..], id)
      case None => None
      case Some(k) => Some(k + 1)
  }

  /** UPDATE inquiries SET status = s WHERE id = id, over the whole table. */
  function SetStatus(rows: seq<Inquiry>, id: int, s: string): (r: seq<Inquiry>)
    ensures |r| == |rows|
    ensures forall i | 0 <= i < |rows| ::
              && r[i].(status := rows[i].status) == rows[i]
              && (rows[i].id == id ==> r[i].status == s)
              && (rows[i].id != id ==> r[i].status == rows[i].status)
  {
    seq(|rows|, i requires 0 <= i < |rows| => if rows[i].id == id then rows[i].(status := s) else rows[i])
  }

  /**
   * With unique ids the update touches exactly the row FindRow locates, and only its status;
   * without a matching row it changes nothing.
   */
  lemma SetStatusTouchesOneRow(rows: seq<Inquiry>, id: int, s: string)
    requires Chronological(rows)
    ensures FindRow(rows, id).None? ==> SetStatus(rows, id, s) == rows
    ensures FindRow(rows, id).Some? ==>
              var k := FindRow(rows, id).value;
              SetStatus(rows, id, s) == rows[k := rows[k].(status := s)]
  {
  }

  /** The row INSERT ... RETURNING * gives back for an accepted submission. */
  function NewRow(sub: Submission, id: nat, createdAt: nat, status: string, isRead: bool): (row: Inquiry)
    requires Validate(sub) == Accepted
  {
    Inquiry(id, sub.name.value, sub.email.value, sub.message.value, createdAt, None, status, isRead)
  }

  /**
   * The inquiries table, its id sequence and clock, and the number of pooled connections
   * currently checked out. defaultStatus and defaultIsRead are the table's column defaults.
   */
  class Store {
    var rows: seq<Inquiry>
    var nextId: nat
    var clock: nat
    var held: nat
    const defaultStatus: string
    const defaultIsRead: bool

    ghost predicate Valid()
      reads this
    {
      && Chronological(rows)
      && 1 <= nextId
      && forall i | 0 <= i < |rows| :: 1 <= rows[i].id < nextId && rows[i].createdAt < clock
    }

    /** An empty table whose serial id starts at 1, with no connection checked out. */
    constructor (defaultStatus: string, defaultIsRead: bool)
      ensures Valid()
      ensures rows == [] && nextId == 1 && clock == 0 && held == 0
      ensures this.defaultStatus == defaultStatus && this.defaultIsRead == defaultIsRead
    {
      rows := [];
      nextId := 1;
      clock := 0;
      held := 0;
      this.defaultStatus := defaultStatus;
      this.defaultIsRead := defaultIsRead;
    }

    /** pool.connect() */
    method Acquire()
      modifies this`held
      ensures held == old(held) + 1
    {
      held := held + 1;
    }

    /** client.release() */
    method Release()
      requires held > 0
      modifies this`held
      ensures held == old(held) - 1
    {
      held := held - 1;
    }

    /**
     * POST /api/inquiries. A rejected submission is answered 400 with its first failing
     * field and never reaches the table. An accepted one is inserted inside a transaction
     * and mailed to the administrator; the row is committed and returned with 200 only when
     * the insert, the mail and the commit all succeed, otherwise the transaction is rolled
     * back and the answer is 500. The rolled-back INSERT still uses up its serial id, and a
     * failed BEGIN or INSERT may or may not have used one up. The
     * returned `mailed` says whether the notification went out.
     */
    method Submit(sub: Submission, insertOk: bool, mailOk: bool, commitOk: bool)
      returns (resp: Response, mailed: bool)
      requires Valid()
      modifies this`rows, this`nextId, this`clock, this`held
      ensures Valid()
      ensures held == old(held)
      ensures Validate(sub).Rejected? ==>
                && resp == Response(BadRequest, Error(Invalid(Validate(sub).error)))
                && !mailed && rows == old(rows) && nextId == old(nextId) && clock == old(clock)
      ensures Validate(sub) == Accepted ==>
                var row := NewRow(sub, old(nextId), old(clock), defaultStatus, defaultIsRead);
                && (insertOk ==> nextId == old(nextId) + 1 && clock == old(clock) + 1)
                && (!insertOk ==> old(nextId) <= nextId <= old(nextId) + 1 && clock - old(clock) == nextId - old(nextId))
                && mailed == (insertOk && mailOk)
                && (forall i | 0 <= i < |old(rows)| :: old(rows)[i].id != row.id)
                && if insertOk && mailOk && commitOk
                   then resp == Response(OK, One(row)) && rows == old(rows) + [row]
                   else resp == Response(ServerError, Error(Internal)) && rows == old(rows)
      ensures resp.code == OK <==> rows != old(rows)
      ensures rows != old(rows) ==> mailed && |rows| == |old(rows)| + 1
    {
      var verdict := Validate(sub);
      if verdict.Rejected? {
        resp := Response(BadRequest, Error(Invalid(verdict.error)));
        mailed := false;
        return;
      }
      Acquire();
      mailed := false;
      var committed := rows;
      if insertOk {
        var row := NewRow(sub, nextId, clock, defaultStatus, defaultIsRead);
        var pending := rows + [row];
        nextId := nextId + 1;
        clock := clock + 1;
        mailed := mailOk;
        if mailOk && commitOk {
          committed := pending;
          resp := Response(OK, One(row));
        } else {
          resp := Response(ServerError, Error(Internal));
        }
      } else {
        // A failed BEGIN draws no id; an INSERT that fails after its id default was taken draws one.
        var drawn: nat :| drawn <= 1;
        nextId, clock := nextId + drawn, clock + drawn;
        resp := Response(ServerError, Error(Internal));
      }
      rows := committed;
      Release();
    }

    /** GET /api/inquiries: every row, newest first, or 500 when the query fails. */
    method List(queryOk: bool) returns (resp: Response)
      requires Valid()
      modifies this`held
      ensures Valid()
      ensures held == old(held)
      ensures queryOk ==> resp == Response(OK, Many(NewestFirst(rows)))
      ensures queryOk ==> multiset(resp.body.rows) == multiset(rows) && NewestFirstOrder(resp.body.rows)
      ensures !queryOk ==> resp == Response(ServerError, Error(Internal))
    {
      NewestFirstIsOrdered(rows);
      Acquire();
      if queryOk {
        resp := Response(OK, Many(NewestFirst(rows)));
      } else {
        resp := Response(ServerError, Error(Internal));
      }
      Release();
    }

    /**
     * POST /api/inquiries/:id/status. id is None when the path segment is not an integer,
     * which makes the query fail. An unknown id is answered 404 and changes nothing; a known
     * one gets the new status, unchecked, and is returned with 200. No other row and no
     * other column changes.
     */
    method UpdateStatus(id: Option<int>, status: string, queryOk: bool) returns (resp: Response)
      requires Valid()
      modifies this`rows, this`held
      ensures Valid()
      ensures held == old(held)
      ensures !queryOk || id.None? ==> resp == Response(ServerError, Error(Internal)) && rows == old(rows)
      ensures queryOk && id.Some? && FindRow(old(rows), id.value).None? ==>
                resp == Response(NotFound, Error(NoSuchInquiry)) && rows == old(rows)
      ensures queryOk && id.Some? && FindRow(old(rows), id.value).Some? ==>
                var k := FindRow(old(rows), id.value).value;
                && rows == old(rows)[k := old(rows)[k].(status := status)]
                && resp == Response(OK, One(rows[k]))
    {
      Acquire();
      if !queryOk || id.None? {
        resp := Response(ServerError, Error(Internal));
        Release();
        return;
      }
      var found := FindRow(rows, id.value);
      SetStatusTouchesOneRow(rows, id.value, status);
      rows := SetStatus(rows, id.value, status);
      if found.None? {
        resp := Response(NotFound, Error(NoSuchInquiry));
        Release();
        return;
      }
      resp := Response(OK, One(rows[found.value]));
      Release();
    }
  }

  /** Two lists with nothing in between give the same answer and leave the table as it was. */
  method ListTwice(store: Store) returns (first: Response, second: Response)
    requires store.Valid()
    modifies store`held
    ensures first == second && first.code == OK
    ensures store.held == old(store.held)
  {
    first := store.List(true);
    second := store.List(true);
  }

  /**
   * Submit an accepted inquiry to an empty table, then set its status: the row first carries
   * the column default, and the list then shows it with the new status and nothing else changed.
   * ScenarioSubmissionAccepted shows that {name: "A", email: "a@b.com", message: "hi"} qualifies.
   */
  method SubmitThenResolveScenario(sub: Submission, defaultStatus: string, newStatus: string)
    returns (submitted: Response, updated: Response, listed: Response)
    requires Validate(sub) == Accepted
    ensures submitted == Response(OK, One(NewRow(sub, 1, 0, defaultStatus, false)))
    ensures updated == Response(OK, One(NewRow(sub, 1, 0, defaultStatus, false).(status := newStatus)))
    ensures listed == Response(OK, Many([NewRow(sub, 1, 0, defaultStatus, false).(status := newStatus)]))
  {
    var row := NewRow(sub, 1, 0, defaultStatus, false);
    var resolved := row.(status := newStatus);
    var store := new Store(defaultStatus, false);
    var mailed;
    submitted, mailed := store.Submit(sub, true, true, true);
    assert store.rows == [row];
    assert FindRow(store.rows, 1) == Some(0);
    updated := store.UpdateStatus(Some(1), newStatus, true);
    assert store.rows == [resolved];
    assert NewestFirst([resolved]) == [resolved] by {
      assert [resolved][1..] == [];
    }
    listed := store.List(true);
  }

  /** The submission of the scenarios passes validation. */
  lemma ScenarioSubmissionAccepted()
    ensures Validate(Submission(Some("A"), Some("a@b.com"), Some("hi"))) == Accepted
  {
    WellFormedExample();
  }

  /** The submission of the scenario with email "bad" fails the email check. */
  lemma BadSubmissionRejected()
    ensures Validate(Submission(Some("A"), Some("bad"), Some("hi"))) == Rejected(InvalidEmail)
  {
    assert !WellFormedEmail("bad") by {
      assert '@' !in "bad";
    }
  }

  /**
   * After one stored inquiry, a submission that fails the email check is answered 400 and the
   * list count stays what it was. BadSubmissionRejected shows that email "bad" qualifies.
   */
  method BadEmailScenario(good: Submission, bad: Submission) returns (before: nat, rejected: Response, after: nat)
    requires Validate(good) == Accepted && Validate(bad) == Rejected(InvalidEmail)
    ensures rejected == Response(BadRequest, Error(Invalid(InvalidEmail)))
    ensures before == after == 1
  {
    var store := new Store("new", false);
    var accepted, mailed := store.Submit(good, true, true, true);
    assert |store.rows| == 1;
    var listed := store.List(true);
    before := |listed.body.rows|;
    rejected, mailed := store.Submit(bad, true, true, true);
    listed := store.List(true);
    after := |listed.body.rows|;
  }

  /**
   * The mail goes out and then COMMIT fails: the answer is 500 and no row is kept, although the
   * administrator was notified.
   */
  method CommitFailureAfterMailScenario() returns (resp: Response, mailed: bool, count: nat)
    ensures resp == Response(ServerError, Error(Internal)) && mailed && count == 0
  {
    ScenarioSubmissionAccepted();
    var store := new Store("new", false);
    resp, mailed := store.Submit(Submission(Some("A"), Some("a@b.com"), Some("hi")), true, true, false);
    count := |store.rows|;
  }
}
