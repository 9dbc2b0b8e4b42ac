/**
 The `reference_data` table as a map from its unique key
 (product_type, exchange, exchange_symbol) to the row's remaining columns, and
 the `INSERT ... ON CONFLICT ... DO UPDATE` statement as an update of that map.
 `CURRENT_TIMESTAMP` is a counter that each statement advances.
 */
module Store {
  import opened RefData

  /** The columns of the uniqueness constraint. */
  datatype Key = Key(productType: string, exchange: string, exchangeSymbol: string)

  /** The columns a row holds besides its key. */
  datatype Row = Row(tickSize: string, lotSize: string, updatedAt: nat)

  function KeyOf(r: ReferenceData): Key
  {
    Key(r.productType, r.exchange, r.exchangeSymbol)
  }

  /** The keys a list of records touches. */
  function KeysOf(recs: seq<ReferenceData>): set<Key>
  {
    set i | 0 <= i < |recs| :: KeyOf(recs[i])
  }

  /** One statement: insert `r` stamped `now`, or overwrite the row with its key. */
  function Upserted(rows: map<Key, Row>, r: ReferenceData, now: nat): map<Key, Row>
  {
    rows[KeyOf(r) := Row(r.tickSize, r.lotSize, now)]
  }

  /**
   The statements for `recs`, in list order, starting from clock value `clock`;
   the record at position i is stamped clock + i + 1.
   */
  function UpsertAll(rows: map<Key, Row>, recs: seq<ReferenceData>, clock: nat): map<Key, Row>
  {
    if recs == [] then rows
    else Upserted(UpsertAll(rows, recs[..|recs| - 1], clock), recs[|recs| - 1], clock + |recs|)
  }

  /** The table with timestamps left out: what a synchronization writes. */
  function Sizes(rows: map<Key, Row>): map<Key, (string, string)>
  {
    map k | k in rows :: (rows[k].tickSize, rows[k].lotSize)
  }

  /** No row is stamped later than the clock. */
  ghost predicate StampedBy(rows: map<Key, Row>, clock: nat)
  {
    forall k :: k in rows ==> rows[k].updatedAt <= clock
  }

  // ---------------------------------------------------------------------------
  // Properties of a run of upserts

  /** The table afterwards holds the old keys and the keys of the records, and no other. */
  lemma {:induction false} UpsertAllKeys(rows: map<Key, Row>, recs: seq<ReferenceData>, clock: nat)
    ensures UpsertAll(rows, recs, clock).Keys == rows.Keys + KeysOf(recs)
    decreases |recs|
  {
    if recs != [] {
      var n := |recs| - 1;
      UpsertAllKeys(rows, recs[..n], clock);
      assert KeysOf(recs) == KeysOf(recs[..n]) + {KeyOf(recs[n])} by {
        forall k | k in KeysOf(recs) ensures k in KeysOf(recs[..n]) + {KeyOf(recs[n])} {
          var i :| 0 <= i < |recs| && k == KeyOf(recs[i]);
          if i < n { assert recs[..n][i] == recs[i]; }
        }
        forall k | k in KeysOf(recs[..n]) ensures k in KeysOf(recs) {
          var i :| 0 <= i < n && k == KeyOf(recs[..n][i]);
          assert recs[..n][i] == recs[i];
        }
      }
    }
  }

  /** A row whose key no record carries is left exactly as it was. */
  lemma {:induction false} UpsertAllUntouched(rows: map<Key, Row>, recs: seq<ReferenceData>, clock: nat, k: Key)
    requires k in rows
    requires forall i :: 0 <= i < |recs| ==> KeyOf(recs[i]) != k
    ensures k in UpsertAll(rows, recs, clock) && UpsertAll(rows, recs, clock)[k] == rows[k]
    decreases |recs|
  {
    if recs != [] {
      var n := |recs| - 1;
      forall i | 0 <= i < n ensures KeyOf(recs[..n][i]) != k {
        assert recs[..n][i] == recs[i];
      }
      UpsertAllUntouched(rows, recs[..n], clock, k);
    }
  }

  /**
   Last write wins: the row for the key of the record at position i, when no
   later record has that key, holds that record's sizes and its stamp.
   */
  lemma {:induction false} UpsertAllLastWins(rows: map<Key, Row>, recs: seq<ReferenceData>, clock: nat, i: nat)
    requires i < |recs|
    requires forall j :: i < j < |recs| ==> KeyOf(recs[j]) != KeyOf(recs[i])
    ensures KeyOf(recs[i]) in UpsertAll(rows, recs, clock)
    ensures UpsertAll(rows, recs, clock)[KeyOf(recs[i])] == Row(recs[i].tickSize, recs[i].lotSize, clock + i + 1)
    decreases |recs|
  {
    var n := |recs| - 1;
    if i < n {
      assert recs[..n][i] == recs[i];
      forall j | i < j < n ensures KeyOf(recs[..n][j]) != KeyOf(recs[..n][i]) {
        assert recs[..n][j] == recs[j];
      }
      UpsertAllLastWins(rows, recs[..n], clock, i);
    }
  }

  /** Every key a record carries has a last record carrying it. */
  lemma {:induction false} LastWithKey(recs: seq<ReferenceData>, k: Key) returns (i: nat)
    requires k in KeysOf(recs)
    ensures i < |recs| && KeyOf(recs[i]) == k
    ensures forall j :: i < j < |recs| ==> KeyOf(recs[j]) != k
    decreases |recs|
  {
    var n := |recs| - 1;
    if KeyOf(recs[n]) == k {
      i := n;
    } else {
      var j :| 0 <= j < |recs| && k == KeyOf(recs[j]);
      assert recs[..n][j] == recs[j];
      i := LastWithKey(recs[..n], k);
      assert recs[..n][i] == recs[i];
      forall m | i < m < |recs| ensures KeyOf(recs[m]) != k {
        if m < n { assert recs[..n][m] == recs[m]; }
      }
    }
  }

  /**
   Timestamps never go backwards: with the table stamped by `clock`, the run
   leaves it stamped by clock + |recs|, and every old row keeps or advances its stamp.
   */
  lemma {:induction false} UpsertAllStamps(rows: map<Key, Row>, recs: seq<ReferenceData>, clock: nat)
    requires StampedBy(rows, clock)
    ensures StampedBy(UpsertAll(rows, recs, clock), clock + |recs|)
    ensures forall k :: k in rows ==>
              k in UpsertAll(rows, recs, clock) && rows[k].updatedAt <= UpsertAll(rows, recs, clock)[k].updatedAt
    decreases |recs|
  {
    if recs != [] {
      var n := |recs| - 1;
      UpsertAllStamps(rows, recs[..n], clock);
    }
  }

  /**
   Re-running a synchronization with the same records writes nothing new:
   apart from timestamps, the table after two runs equals the table after one.
   */
  lemma UpsertAllIdempotent(rows: map<Key, Row>, recs: seq<ReferenceData>, clock: nat, clock': nat)
    ensures Sizes(UpsertAll(UpsertAll(rows, recs, clock), recs, clock')) == Sizes(UpsertAll(rows, recs, clock))
  {
    var once := UpsertAll(rows, recs, clock);
    var twice := UpsertAll(once, recs, clock');
    UpsertAllKeys(rows, recs, clock);
    UpsertAllKeys(once, recs, clock');
    assert twice.Keys == once.Keys;
    forall k | k in once ensures twice[k].tickSize == once[k].tickSize && twice[k].lotSize == once[k].lotSize {
      if k in KeysOf(recs) {
        var i := LastWithKey(recs, k);
        UpsertAllLastWins(rows, recs, clock, i);
        UpsertAllLastWins(once, recs, clock', i);
      } else {
        UpsertAllUntouched(once, recs, clock', k);
      }
    }
  }

  // ---------------------------------------------------------------------------
  // The table

  class Table {
    var rows: map<Key, Row>
    /** The value CURRENT_TIMESTAMP had at the last statement. */
    var clock: nat

    ghost predicate Valid()
      reads this
    {
      StampedBy(rows, clock)
    }

    /** A freshly created, empty `reference_data` table. */
    constructor ()
      ensures Valid() && rows == map[] && clock == 0
    {
      rows := map[];
      clock := 0;
    }

    /**
     One `INSERT ... ON CONFLICT DO UPDATE`: a new key gets a row; an existing
     key keeps its row but with the new tick size, lot size and a later stamp;
     every other row is unchanged.
     */
    method Upsert(r: ReferenceData)
      requires Valid()
      modifies this
      ensures Valid()
      ensures clock == old(clock) + 1
      ensures rows.Keys == old(rows).Keys + {KeyOf(r)}
      ensures rows[KeyOf(r)] == Row(r.tickSize, r.lotSize, clock)
      ensures KeyOf(r) in old(rows) ==> rows[KeyOf(r)].updatedAt > old(rows)[KeyOf(r)].updatedAt
      ensures forall k :: k in old(rows) && k != KeyOf(r) ==> rows[k] == old(rows)[k]
      ensures rows == Upserted(old(rows), r, clock)
    {
      clock := clock + 1;
      rows := rows[KeyOf(r) := Row(r.tickSize, r.lotSize, clock)];
    }

    /** The loop of `save_to_sqlite`: one upsert per record, in list order. */
    method SaveAll(data: seq<ReferenceData>)
      requires Valid()
      modifies this
      ensures Valid()
      ensures clock == old(clock) + |data|
      ensures rows == UpsertAll(old(rows), data, old(clock))
    {
      for i := 0 to |data|
        invariant Valid()
        invariant clock == old(clock) + i
        invariant rows == UpsertAll(old(rows), data[..i], old(clock))
      {
        assert data[..i + 1][..i] == data[..i];
        Upsert(data[i]);
      }
      assert data[..|data|] == data;
    }
  }
}
