/** The stores behind the two-factor service, updated in place: the share rows of one node, the
    2FA tables, and the Redis keys. They serve many users; each method says what it does to the
    user it is called for and that it leaves the others alone. */
module TwoFAStores {
  import opened Common
  import opened TwoFA

  /** The shares table of one node, with its uniqueness constraint on user and index. */
  class ShareNode {
    var rows: map<Id, Rows>

    constructor ()
      ensures rows == map[]
    {
      rows := map[];
    }

    function RowsOf(user: Id): Rows
      reads this
    {
      if user in rows then rows[user] else map[]
    }

    method Store(user: Id, index: nat, share: StoredShare, o: Outcome) returns (ok: bool)
      modifies this
      ensures (RowsOf(user), ok) == CreateShare(old(RowsOf(user)), index, share, o)
      ensures forall v :: v != user ==> RowsOf(v) == old(RowsOf(v))
    {
      var mine := RowsOf(user);
      if index in mine {
        return false;
      }
      if o != FailedBefore {
        rows := rows[user := mine[index := share]];
      }
      return o == Done;
    }

    method GetShare(user: Id, index: nat) returns (data: Option<seq<Byte>>)
      ensures data == if index in RowsOf(user) then Some(RowsOf(user)[index].data) else None
    {
      if index in RowsOf(user) {
        return Some(RowsOf(user)[index].data);
      }
      return None;
    }

    method DeleteSharesByUserID(user: Id, o: Outcome) returns (ok: bool)
      modifies this
      ensures RowsOf(user) == DeleteShares(old(RowsOf(user)), o) && ok == o.Done?
      ensures forall v :: v != user ==> RowsOf(v) == old(RowsOf(v))
    {
      if o != FailedBefore {
        rows := rows - {user};
      }
      return o == Done;
    }
  }

  datatype OwnedRow = OwnedRow(user: Id, row: CodeRow)

  datatype BackupCodeRow = BackupCodeRow(id: Id, codeHash: string)

  /** The tables twofa_records and backup_codes. */
  class PgStorage {
    var records: map<Id, bool>
    var codes: map<Id, OwnedRow>

    constructor ()
      ensures records == map[] && codes == map[]
    {
      records, codes := map[], map[];
    }

    function RecordOf(user: Id): Option<bool>
      reads this
    {
      if user in records then Some(records[user]) else None
    }

    function CodesOf(user: Id): map<Id, CodeRow>
      reads this
    {
      RowsOfUser(codes, user)
    }

    /** INSERT; a second record of a user violates the primary key. */
    method CreateTwoFARecord(user: Id, o: Outcome) returns (ok: bool)
      modifies this
      ensures RecordOf(user) ==
              if old(RecordOf(user)).Some? || o.FailedBefore? then old(RecordOf(user)) else Some(false)
      ensures ok <==> old(RecordOf(user)).None? && o.Done?
      ensures codes == old(codes) && forall v :: v != user ==> RecordOf(v) == old(RecordOf(v))
    {
      if user in records {
        return false;
      }
      if o != FailedBefore {
        records := records[user := false];
      }
      return o == Done;
    }

    /** UPDATE; it is an error when it finds no row. */
    method EnableTwoFA(user: Id, o: Outcome) returns (ok: bool)
      modifies this
      ensures RecordOf(user) ==
              if old(RecordOf(user)).None? || o.FailedBefore? then old(RecordOf(user)) else Some(true)
      ensures ok <==> old(RecordOf(user)).Some? && o.Done?
      ensures codes == old(codes) && forall v :: v != user ==> RecordOf(v) == old(RecordOf(v))
    {
      if user !in records {
        return false;
      }
      if o != FailedBefore {
        records := records[user := true];
      }
      return o == Done;
    }

    method DeleteTwoFARecord(user: Id, o: Outcome) returns (ok: bool)
      modifies this
      ensures RecordOf(user) == (if o.FailedBefore? then old(RecordOf(user)) else None) && ok == o.Done?
      ensures codes == old(codes) && forall v :: v != user ==> RecordOf(v) == old(RecordOf(v))
    {
      if o != FailedBefore {
        records := records - {user};
      }
      return o == Done;
    }

    method DeleteBackupCodes(user: Id, o: Outcome) returns (ok: bool)
      modifies this
      ensures CodesOf(user) == (if o.FailedBefore? then old(CodesOf(user)) else map[]) && ok == o.Done?
      ensures records == old(records) && forall v :: v != user ==> CodesOf(v) == old(CodesOf(v))
    {
      if o != FailedBefore {
        codes := map id | id in codes && codes[id].user != user :: codes[id];
      }
      return o == Done;
    }

    /** The rows of a query for the unused codes, appended in the order the cursor meets them. */
    method GetUnusedBackupCodeHashes(user: Id, cursor: seq<Id>) returns (rows: seq<BackupCodeRow>)
      requires ScanFits(CodesOf(user), cursor)
      ensures |rows| == |cursor|
      ensures forall i :: 0 <= i < |rows| ==>
                cursor[i] in CodesOf(user) && rows[i] == BackupCodeRow(cursor[i], CodesOf(user)[cursor[i]].hash)
    {
      assert forall id :: id in cursor ==> id in CodesOf(user);
      rows := [];
      for i := 0 to |cursor|
        invariant |rows| == i
        invariant forall k :: 0 <= k < i ==>
                    cursor[k] in CodesOf(user) && rows[k] == BackupCodeRow(cursor[k], CodesOf(user)[cursor[k]].hash)
      {
        assert cursor[i] in CodesOf(user);
        rows := rows + [BackupCodeRow(cursor[i], codes[cursor[i]].row.hash)];
      }
    }

    /** UPDATE by the identifier of the row; it is no error when it finds no row. */
    method MarkBackupCodeUsed(codeID: Id, o: Outcome) returns (ok: bool)
      modifies this
      ensures forall v :: CodesOf(v) == if o.FailedBefore? || codeID !in old(CodesOf(v)) then old(CodesOf(v))
                                        else MarkUsed(old(CodesOf(v)), codeID)
      ensures ok == o.Done? && records == old(records)
    {
      if o != FailedBefore && codeID in codes {
        codes := codes[codeID := OwnedRow(codes[codeID].user, codes[codeID].row.(used := true))];
      }
      return o == Done;
    }

    /** The rows of the batch, inserted one by one and committed together. */
    method StoreBatchBackupCodes(user: Id, ids: seq<Id>, hashes: seq<string>, o: Outcome) returns (ok: bool)
      requires |ids| == |hashes|
      requires forall i :: 0 <= i < |ids| ==> ids[i] !in codes
      requires forall i, j :: 0 <= i < j < |ids| ==> ids[i] != ids[j]
      modifies this
      ensures CodesOf(user) ==
              if o.FailedBefore? then old(CodesOf(user)) else old(CodesOf(user)) + NewCodes(ids, hashes)
      ensures ok == o.Done?
      ensures records == old(records) && forall v :: v != user ==> CodesOf(v) == old(CodesOf(v))
    {
      var inserted := codes;
      for i := 0 to |ids|
        invariant codes == old(codes)
        invariant forall id :: id in inserted <==> id in codes || id in ids[..i]
        invariant forall id :: id in codes ==> inserted[id] == codes[id]
        invariant forall k :: 0 <= k < i ==>
                    ids[k] in inserted && inserted[ids[k]] == OwnedRow(user, CodeRow(hashes[k], false))
      {
        inserted := inserted[ids[i] := OwnedRow(user, CodeRow(hashes[i], false))];
        assert ids[..i + 1] == ids[..i] + [ids[i]];
      }
      assert ids[..|ids|] == ids;
      if o == FailedBefore {
        return false;
      }
      InsertedCodes(codes, inserted, user, ids, hashes);
      codes := inserted;
      return o == Done;
    }
  }

  function RowsOfUser(codes: map<Id, OwnedRow>, user: Id): map<Id, CodeRow> {
    map id | id in codes && codes[id].user == user :: codes[id].row
  }

  lemma InsertedCodes(before: map<Id, OwnedRow>, after: map<Id, OwnedRow>, user: Id, ids: seq<Id>, hashes: seq<string>)
    requires |ids| == |hashes|
    requires forall i :: 0 <= i < |ids| ==> ids[i] !in before
    requires forall i, j :: 0 <= i < j < |ids| ==> ids[i] != ids[j]
    requires forall id :: id in after <==> id in before || id in ids
    requires forall id :: id in before ==> after[id] == before[id]
    requires forall k :: 0 <= k < |ids| ==>
               ids[k] in after && after[ids[k]] == OwnedRow(user, CodeRow(hashes[k], false))
    ensures RowsOfUser(after, user) == RowsOfUser(before, user) + NewCodes(ids, hashes)
    ensures forall v :: v != user ==> RowsOfUser(after, v) == RowsOfUser(before, v)
  {
    forall id | id in ids
      ensures after[id] == OwnedRow(user, CodeRow(HashFor(ids, hashes, id), false))
    {
      var k :| 0 <= k < |ids| && ids[k] == id;
      HashAt(ids, hashes, k);
    }
    hide HashFor;
  }

  /** The Redis keys of the service. */
  class RedisStorage {
    var now: Time
    var limits: map<Id, Limit>
    var used: map<Id, UsedOtp>

    constructor (start: Time)
      ensures now == start && limits == map[] && used == map[]
    {
      now := start;
      limits, used := map[], map[];
    }

    function LimitOf(user: Id): Option<Limit>
      reads this
    {
      if user in limits then Some(limits[user]) else None
    }

    function UsedOf(user: Id): Option<UsedOtp>
      reads this
    {
      if user in used then Some(used[user]) else None
    }

    method Pass(d: nat)
      modifies this
      ensures now == old(now) + d && limits == old(limits) && used == old(used)
    {
      now := now + d;
    }

    /** INCR, then EXPIRE for the first attempt of a window of length ttl. */
    method IncrementRateLimit(user: Id, ttl: nat, fate: LimitFate) returns (count: Option<nat>)
      modifies this
      ensures (LimitOf(user), count) == Increment(old(LimitOf(user)), old(now), ttl, fate)
      ensures now == old(now) && used == old(used) && forall v :: v != user ==> LimitOf(v) == old(LimitOf(v))
    {
      if fate == IncrFails(false) {
        return None;
      }
      var live := user in limits && (limits[user].expiry.None? || now < limits[user].expiry.value);
      if live {
        limits := limits[user := limits[user].(count := limits[user].count + 1)];
      } else {
        limits := limits[user := Limit(1, None)];
      }
      if fate.IncrFails? {
        return None;
      }
      var n := limits[user].count;
      if n == 1 {
        if !fate.ExpireFails? || fate.applied {
          limits := limits[user := Limit(1, Some(now + ttl))];
        }
        if fate.ExpireFails? {
          if fate.deleted {
            limits := limits - {user};
          }
          return None;
        }
      }
      return Some(n);
    }

    method SetUsedOTPCounter(user: Id, counter: int, ttl: nat, o: Outcome)
      modifies this
      ensures UsedOf(user) == if o.FailedBefore? then old(UsedOf(user)) else Some(UsedOtp(counter, now + ttl))
      ensures now == old(now) && limits == old(limits) && forall v :: v != user ==> UsedOf(v) == old(UsedOf(v))
    {
      if o != FailedBefore {
        used := used[user := UsedOtp(counter, now + ttl)];
      }
    }

    method GetUsedOTPCounter(user: Id, fails: bool) returns (counter: Option<int>)
      ensures counter == if !fails && UsedOf(user).Some? && now < UsedOf(user).value.expiry
                         then Some(UsedOf(user).value.counter) else None
    {
      if !fails && user in used && now < used[user].expiry {
        return Some(used[user].counter);
      }
      return None;
    }

    method DeleteKeys(user: Id, o: Outcome)
      modifies this
      ensures LimitOf(user) == if o.FailedBefore? then old(LimitOf(user)) else None
      ensures UsedOf(user) == if o.FailedBefore? then old(UsedOf(user)) else None
      ensures now == old(now)
      ensures forall v :: v != user ==> LimitOf(v) == old(LimitOf(v)) && UsedOf(v) == old(UsedOf(v))
    {
      if o != FailedBefore {
        limits := limits - {user};
        used := used - {user};
      }
    }
  }
}
