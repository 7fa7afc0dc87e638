/**
 * The `POST /notifications` handler: look for a row with the request's
 * (email, seat, url); answer `{"exists": true}` if there is one, otherwise
 * add one row built from the request, commit it and answer
 * `{"exists": false}`.
 */
module NotificationService {
  import opened Wrappers
  import opened SeatNotificationSchema

  /** The JSON body of the request (NotificationRequest). */
  datatype NotificationRequest = NotificationRequest(
    email: string,
    seatNumber: string,
    url: string,
    showDate: Timestamp)

  /**
   * What the handler produces: the `{"exists": b}` reply (`alreadyExists` is `b`), or the failure of
   * the commit, which the handler does not catch.
   */
  datatype Response = Answer(alreadyExists: bool) | CommitFailed

  /** The filter of the existence query; the show date is not consulted. */
  predicate Matches(row: SeatNotification, request: NotificationRequest) {
    && row.userEmail == request.email
    && row.seatNumber == request.seatNumber
    && row.url == request.url
  }

  /** `.first()` of the existence query: the position of the first matching row. */
  function FirstMatch(rows: seq<SeatNotification>, request: NotificationRequest): (r: Option<nat>)
    ensures r.None? <==> forall i :: 0 <= i < |rows| ==> !Matches(rows[i], request)
    ensures r.Some? ==> r.value < |rows| && Matches(rows[r.value], request)
    ensures r.Some? ==> forall i :: 0 <= i < r.value ==> !Matches(rows[i], request)
  {
    if rows == [] then None
    else if Matches(rows[0], request) then Some(0)
    else match FirstMatch(rows[1..], request) {
      case None => None
      case Some(i) => Some(i + 1)
    }
  }

  /**
   * The row the handler builds: the request's fields, `created_at` from the
   * insertion-time clock `now`, and the id the store assigns.
   */
  function NewRow(request: NotificationRequest, id: nat, now: Timestamp): SeatNotification {
    SeatNotification(id, request.email, request.seatNumber, request.url, now, request.showDate)
  }

  /** The table together with the next id the store will hand out. */
  datatype TableState = TableState(rows: seq<SeatNotification>, nextId: nat)

  /** The schema's constraints hold and every id in use is below `nextId`. */
  predicate ValidState(s: TableState) {
    && ValidTable(s.rows)
    && forall i :: 0 <= i < |s.rows| ==> s.rows[i].id < s.nextId
  }

  /**
   * One call of the handler on a table state: the state afterwards and the
   * response. An overlong column value passes the existence query and is
   * refused by the store at commit, which leaves the table as it was; so is
   * a row once the store has run out of Integer ids.
   */
  function Create(s: TableState, request: NotificationRequest, now: Timestamp): (TableState, Response) {
    if FirstMatch(s.rows, request).Some? then
      (s, Answer(true))
    else if !FitsColumns(request.email, request.seatNumber, request.url) || s.nextId > MaxId then
      (s, CommitFailed)
    else
      (TableState(s.rows + [NewRow(request, s.nextId, now)], s.nextId + 1), Answer(false))
  }

  /** The existence query does not consult the request's show date. */
  lemma FirstMatchIgnoresShowDate(
    rows: seq<SeatNotification>, request: NotificationRequest, showDate: Timestamp)
    ensures FirstMatch(rows, request) == FirstMatch(rows, request.(showDate := showDate))
  {
  }

  /**
   * The existence query looks only at the stored rows' keys: two tables whose
   * rows agree position by position on (user_email, url, seat_number), but
   * may differ in ids, creation times and show dates, give the same result.
   */
  lemma FirstMatchSeesOnlyKeys(
    rows: seq<SeatNotification>, other: seq<SeatNotification>, request: NotificationRequest)
    requires |rows| == |other|
    requires forall i :: 0 <= i < |rows| ==> KeyOf(rows[i]) == KeyOf(other[i])
    ensures FirstMatch(rows, request) == FirstMatch(other, request)
  {
  }

  /**
   * The query finds a row exactly when some row has the key the new row
   * would have, so the handler's check is the unique constraint's check.
   */
  lemma FirstMatchIsKeyLookup(rows: seq<SeatNotification>, request: NotificationRequest, id: nat, now: Timestamp)
    ensures FirstMatch(rows, request).Some? <==> KeyOf(NewRow(request, id, now)) in Keys(rows)
  {
  }

  /** The handler keeps the schema's constraints and the id counter's invariant. */
  lemma CreatePreservesValid(s: TableState, request: NotificationRequest, now: Timestamp)
    requires ValidState(s)
    ensures ValidState(Create(s, request, now).0)
  {
  }

  /**
   * Nothing else changes: the rows present before the call are still there,
   * at the same positions and unmodified, and the table grows by one row
   * exactly when the answer is `{"exists": false}`.
   */
  lemma CreateKeepsOldRows(s: TableState, request: NotificationRequest, now: Timestamp)
    ensures var after := Create(s, request, now).0;
      && |s.rows| <= |after.rows| <= |s.rows| + 1
      && after.rows[..|s.rows|] == s.rows
      && (|after.rows| == |s.rows| + 1 <==> Create(s, request, now).1 == Answer(false))
  {
  }

  /**
   * Repeating an identical request (at any later time) changes nothing and,
   * unless the first commit failed, answers `{"exists": true}`.
   */
  lemma CreateIdempotent(s: TableState, request: NotificationRequest, now: Timestamp, later: Timestamp)
    ensures var first := Create(s, request, now);
      var second := Create(first.0, request, later);
      && second.0 == first.0
      && (first.1 == CommitFailed ==> second.1 == CommitFailed)
      && (first.1 != CommitFailed ==> second.1 == Answer(true))
  {
    var first := Create(s, request, now);
    if first.1 == Answer(false) {
      assert Matches(first.0.rows[|s.rows|], request);
    }
  }

  /**
   * A request that differs from a stored row only in its show date is
   * reported as existing, and the stored show date is left as it was.
   */
  lemma OtherShowDateReportsExisting(s: TableState, request: NotificationRequest, now: Timestamp, i: nat)
    requires i < |s.rows|
    requires Matches(s.rows[i], request) && s.rows[i].showDate != request.showDate
    // The state is returned unchanged, so row i keeps its stored show date.
    ensures Create(s, request, now) == (s, Answer(true))
  {
  }

  /**
   * The notification table as the handler sees it through its database
   * session: the committed rows and the store's id counter.
   */
  class NotificationTable {
    var rows: seq<SeatNotification>
    var nextId: nat

    function State(): TableState
      reads this
    {
      TableState(rows, nextId)
    }

    ghost predicate Valid()
      reads this
    {
      ValidState(State())
    }

    /** An empty table; the store's ids start at 1. */
    constructor ()
      ensures Valid()
      ensures rows == [] && nextId == 1
    {
      rows := [];
      nextId := 1;
    }

    /** The existence query `query(...).filter(email, seat, url).first()`. */
    method FindFirst(request: NotificationRequest) returns (existing: Option<SeatNotification>)
      ensures existing.None? <==> forall i :: 0 <= i < |rows| ==> !Matches(rows[i], request)
      ensures existing.Some? ==> existing.value in rows && Matches(existing.value, request)
    {
      match FirstMatch(rows, request) {
        case None =>
          existing := None;
        case Some(i) =>
          existing := Some(rows[i]);
      }
    }

    /**
     * `db.add` followed by `db.commit`: the store assigns the next id and
     * commits exactly when the table with the new row still satisfies every
     * constraint of the schema; otherwise it leaves the table as it was.
     * Given the existing rows, that means the values fit their columns, the
     * id fits the Integer column and the (user_email, url, seat_number) key
     * is new: by UniqueKeysSnoc a repeated key would break the unique
     * constraint.
     */
    method Insert(userEmail: string, seatNumber: string, url: string, createdAt: Timestamp, showDate: Timestamp)
      returns (committed: bool)
      requires Valid()
      modifies this
      ensures Valid()
      ensures committed <==>
        && FitsColumns(userEmail, seatNumber, url)
        && old(nextId) <= MaxId
        && Key(userEmail, url, seatNumber) !in Keys(old(rows))
      // The store's rule itself, restated: the extended table meets the schema.
      ensures committed <==>
        ValidTable(old(rows) + [SeatNotification(old(nextId), userEmail, seatNumber, url, createdAt, showDate)])
      ensures committed ==>
        && rows == old(rows) + [SeatNotification(old(nextId), userEmail, seatNumber, url, createdAt, showDate)]
        && nextId == old(nextId) + 1
      ensures !committed ==> rows == old(rows) && nextId == old(nextId)
    {
      var n := SeatNotification(nextId, userEmail, seatNumber, url, createdAt, showDate);
      AppendValidIff(rows, n);
      committed := ValidTable(rows + [n]);
      if committed {
        rows := rows + [n];
        nextId := nextId + 1;
      }
    }

    /**
     * The `POST /notifications` handler, with `now` standing for the UTC
     * clock that supplies `created_at`. It fails at commit, writing nothing,
     * when a value is overlong or the store has no id left.
     */
    method CreateNotification(request: NotificationRequest, now: Timestamp) returns (response: Response)
      requires Valid()
      modifies this
      ensures Valid()
      ensures (State(), response) == Create(old(State()), request, now)
      ensures response == Answer(true) <==>
        exists i :: 0 <= i < |old(rows)| && Matches(old(rows)[i], request)
      ensures response == CommitFailed <==>
        && (forall i :: 0 <= i < |old(rows)| ==> !Matches(old(rows)[i], request))
        && (!FitsColumns(request.email, request.seatNumber, request.url) || old(nextId) > MaxId)
      ensures response == Answer(false) ==>
        && rows == old(rows) + [NewRow(request, old(nextId), now)]
        && nextId == old(nextId) + 1
      ensures response != Answer(false) ==> rows == old(rows) && nextId == old(nextId)
    {
      var existing := FindFirst(request);
      if existing.Some? {
        return Answer(true);
      }
      FirstMatchIsKeyLookup(rows, request, nextId, now);
      var committed := Insert(request.email, request.seatNumber, request.url, now, request.showDate);
      if !committed {
        return CommitFailed;
      }
      response := Answer(false);
    }
  }
}
