/**
 * The `seat_notifications` table: the shape of one row and the constraints
 * the schema declares on the table as a whole (primary key, column lengths,
 * NOT NULL columns and the unique constraint on user_email, url and
 * seat_number).
 */
module SeatNotificationSchema {

  /** A DateTime column value, treated as an opaque ordered instant. */
  type Timestamp = int

  /** Length limits of the three String columns. */
  const MaxUserEmailLength: nat := 255
  const MaxSeatNumberLength: nat := 10
  const MaxUrlLength: nat := 60

  /** Largest value of the Integer primary-key column (32-bit signed). */
  const MaxId: nat := 0x7FFF_FFFF

  /**
   * One row. Every column is NOT NULL in the schema, so every field is a
   * plain value here and no field is optional.
   */
  datatype SeatNotification = SeatNotification(
    id: nat,
    userEmail: string,
    seatNumber: string,
    url: string,
    createdAt: Timestamp,
    showDate: Timestamp)

  /** The columns of the unique constraint, in the order it names them. */
  datatype Key = Key(userEmail: string, url: string, seatNumber: string)

  function KeyOf(n: SeatNotification): Key {
    Key(n.userEmail, n.url, n.seatNumber)
  }

  /** The three String columns are within their declared lengths. */
  predicate FitsColumns(userEmail: string, seatNumber: string, url: string) {
    && |userEmail| <= MaxUserEmailLength
    && |seatNumber| <= MaxSeatNumberLength
    && |url| <= MaxUrlLength
  }

  predicate RowFits(n: SeatNotification) {
    FitsColumns(n.userEmail, n.seatNumber, n.url)
  }

  /** No two rows share the (user_email, url, seat_number) triple. */
  predicate UniqueKeys(rows: seq<SeatNotification>) {
    forall i, j :: 0 <= i < j < |rows| ==> KeyOf(rows[i]) != KeyOf(rows[j])
  }

  /** No two rows share a primary key. */
  predicate DistinctIds(rows: seq<SeatNotification>) {
    forall i, j :: 0 <= i < j < |rows| ==> rows[i].id != rows[j].id
  }

  /** Every id fits the Integer column. */
  predicate IdsInRange(rows: seq<SeatNotification>) {
    forall i :: 0 <= i < |rows| ==> rows[i].id <= MaxId
  }

  predicate AllRowsFit(rows: seq<SeatNotification>) {
    forall i :: 0 <= i < |rows| ==> RowFits(rows[i])
  }

  /** Every constraint the schema declares holds of the table. */
  predicate ValidTable(rows: seq<SeatNotification>) {
    UniqueKeys(rows) && DistinctIds(rows) && IdsInRange(rows) && AllRowsFit(rows)
  }

  /** The keys present in the table. */
  function Keys(rows: seq<SeatNotification>): set<Key> {
    set i | 0 <= i < |rows| :: KeyOf(rows[i])
  }

  lemma {:induction false} KeysOfSnoc(rows: seq<SeatNotification>, n: SeatNotification)
    ensures Keys(rows + [n]) == Keys(rows) + {KeyOf(n)}
  {
    var extended := rows + [n];
    forall k | k in Keys(extended) ensures k in Keys(rows) + {KeyOf(n)} {
      var i :| 0 <= i < |extended| && KeyOf(extended[i]) == k;
      if i < |rows| {
        assert extended[i] == rows[i];
      }
    }
    forall k | k in Keys(rows) + {KeyOf(n)} ensures k in Keys(extended) {
      if k == KeyOf(n) {
        assert KeyOf(extended[|rows|]) == k;
      } else {
        var i :| 0 <= i < |rows| && KeyOf(rows[i]) == k;
        assert KeyOf(extended[i]) == k;
      }
    }
  }

  /** A table never has more distinct keys than rows. */
  lemma {:induction false} KeysBound(rows: seq<SeatNotification>)
    ensures |Keys(rows)| <= |rows|
  {
    if rows != [] {
      var prefix := rows[..|rows| - 1];
      assert rows == prefix + [rows[|rows| - 1]];
      KeysOfSnoc(prefix, rows[|rows| - 1]);
      KeysBound(prefix);
    }
  }

  /** Appending a row keeps the keys unique exactly when its key is new. */
  lemma {:induction false} UniqueKeysSnoc(rows: seq<SeatNotification>, n: SeatNotification)
    ensures UniqueKeys(rows + [n]) <==> UniqueKeys(rows) && KeyOf(n) !in Keys(rows)
  {
    var extended := rows + [n];
    if UniqueKeys(extended) {
      forall i, j | 0 <= i < j < |rows| ensures KeyOf(rows[i]) != KeyOf(rows[j]) {
        assert extended[i] == rows[i] && extended[j] == rows[j];
      }
      forall i | 0 <= i < |rows| ensures KeyOf(rows[i]) != KeyOf(n) {
        assert extended[i] == rows[i] && extended[|rows|] == n;
      }
    }
    if UniqueKeys(rows) && KeyOf(n) !in Keys(rows) {
      forall i, j | 0 <= i < j < |extended| ensures KeyOf(extended[i]) != KeyOf(extended[j]) {
        if j < |rows| {
          assert extended[i] == rows[i] && extended[j] == rows[j];
        } else {
          assert extended[i] == rows[i] && KeyOf(rows[i]) in Keys(rows);
        }
      }
    }
  }

  /**
   * The unique constraint holds exactly when the table has as many distinct
   * (user_email, url, seat_number) keys as it has rows.
   */
  lemma {:induction false} UniqueKeysIffKeyCount(rows: seq<SeatNotification>)
    ensures UniqueKeys(rows) <==> |Keys(rows)| == |rows|
  {
    if rows == [] {
      assert Keys(rows) == {};
    } else {
      var prefix, last := rows[..|rows| - 1], rows[|rows| - 1];
      assert rows == prefix + [last];
      KeysOfSnoc(prefix, last);
      UniqueKeysSnoc(prefix, last);
      UniqueKeysIffKeyCount(prefix);
      KeysBound(prefix);
      if KeyOf(last) in Keys(prefix) {
        assert Keys(rows) == Keys(prefix);
      } else {
        assert |Keys(rows)| == |Keys(prefix)| + 1;
      }
    }
  }

  /**
   * Appending a row with a fresh id keeps every constraint exactly when the
   * row fits the column lengths, its id fits the Integer column and its key
   * is not already present.
   */
  lemma AppendValidIff(rows: seq<SeatNotification>, n: SeatNotification)
    requires ValidTable(rows)
    requires forall i :: 0 <= i < |rows| ==> rows[i].id != n.id
    ensures ValidTable(rows + [n]) <==> RowFits(n) && n.id <= MaxId && KeyOf(n) !in Keys(rows)
  {
    UniqueKeysSnoc(rows, n);
    var extended := rows + [n];
    assert extended[|rows|] == n;
    if RowFits(n) && n.id <= MaxId {
      forall i | 0 <= i < |extended| ensures RowFits(extended[i]) && extended[i].id <= MaxId {
        if i < |rows| { assert extended[i] == rows[i]; }
      }
      forall i, j | 0 <= i < j < |extended| ensures extended[i].id != extended[j].id {
        assert extended[i] == rows[i];
      }
    }
  }
}
