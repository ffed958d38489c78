/**
 * The log store: one bucket mapping a timestamp key to an encoded record,
 * and the operations that read and write it. Each mutating operation is one
 * transaction: it either changes the bucket as stated or leaves it as it was.
 */
module Storage {
  import opened Calendar
  import opened LogRecord
  import opened Analytics
  import opened Backup
  import opened Export


  /** A stored value: a record that decodes, or bytes that do not. */
  datatype Entry = Decoded(log: Log) | Corrupt

  type Bucket = map<Instant, Entry>

  /** Every record that decodes carries the timestamp it is stored under. */
  ghost predicate KeysMatchDates(bucket: Bucket)
  {
    forall k :: k in bucket && bucket[k].Decoded? ==> bucket[k].log.date == k
  }

  predicate IsMin(k: Instant, s: set<Instant>)
  {
    k in s && forall x :: x in s ==> k <= x
  }

  /** Some element of a non-empty set. */
  lemma Pick<T>(s: set<T>) returns (x: T)
    requires s != {}
    ensures x in s
  {
    x :| x in s;
  }

  lemma {:induction false} MinExists(s: set<Instant>)
    requires s != {}
    ensures exists k :: IsMin(k, s)
    decreases |s|
  {
    var x := Pick(s);
    var rest := s - {x};
    if rest == {} {
      assert s == {x};
      assert IsMin(x, s);
    } else {
      assert |rest| < |s|;
      MinExists(rest);
      var m :| IsMin(m, rest);
      var k := if x < m then x else m;
      forall y | y in s ensures k <= y {
        if y != x {
          assert y in rest;
        }
      }
      assert IsMin(k, s);
    }
  }

  ghost predicate Increasing(keys: seq<Instant>)
  {
    forall i, j :: 0 <= i < j < |keys| ==> keys[i] < keys[j]
  }

  /** The keys of a bucket in the order a cursor visits them: smallest first. */
  ghost function SortedKeys(s: set<Instant>): seq<Instant>
    decreases s
  {
    if s == {} then []
    else
      MinExists(s);
      var m :| IsMin(m, s);
      [m] + SortedKeys(s - {m})
  }

  /** The cursor visits every key exactly once, in strictly increasing order. */
  lemma {:induction false} SortedKeysOrder(s: set<Instant>)
    ensures Increasing(SortedKeys(s))
    ensures forall k :: k in SortedKeys(s) <==> k in s
    ensures |SortedKeys(s)| == |s|
    decreases s
  {
    if s != {} {
      MinExists(s);
      var m :| IsMin(m, s);
      SortedKeysFirst(s, m);
      SortedKeysOrder(s - {m});
      var rest := SortedKeys(s - {m});
      assert forall k :: k in rest ==> m < k;
      assert |s - {m}| == |s| - 1;
      forall i, j | 0 <= i < j < |s| ensures ([m] + rest)[i] < ([m] + rest)[j] {
        if i == 0 {
          assert rest[j - 1] in rest;
        }
      }
    }
  }

  lemma SortedKeysFirst(s: set<Instant>, k: Instant)
    requires IsMin(k, s)
    ensures SortedKeys(s) == [k] + SortedKeys(s - {k})
  {
  }

  /** The records that decode among the values at `keys`, in the order of `keys`. */
  ghost function DecodedAt(bucket: Bucket, keys: seq<Instant>): (r: seq<Log>)
    requires forall k :: k in keys ==> k in bucket
    ensures |r| <= |keys|
  {
    if keys == [] then []
    else
      var last := keys[|keys| - 1];
      var prefix := DecodedAt(bucket, keys[..|keys| - 1]);
      match bucket[last]
      case Decoded(l) => prefix + [l]
      case Corrupt => prefix
  }

  /** The records read at `keys` are exactly the decodable values at those keys. */
  lemma {:induction false} DecodedAtMembers(bucket: Bucket, keys: seq<Instant>)
    requires forall k :: k in keys ==> k in bucket
    ensures forall l :: l in DecodedAt(bucket, keys) <==> exists k :: k in keys && bucket[k] == Decoded(l)
  {
    if keys != [] {
      var init := keys[..|keys| - 1];
      DecodedAtMembers(bucket, init);
      assert keys == init + [keys[|keys| - 1]];
    }
  }

  lemma DecodedAtSnoc(bucket: Bucket, keys: seq<Instant>, k: Instant)
    requires forall x :: x in keys ==> x in bucket
    requires k in bucket
    ensures DecodedAt(bucket, keys + [k])
         == DecodedAt(bucket, keys) + (if bucket[k].Decoded? then [bucket[k].log] else [])
  {
    assert (keys + [k])[..|keys|] == keys;
  }

  /** Moving the cursor from the visited keys to the smallest remaining one. */
  lemma CursorStep(bucket: Bucket, visited: seq<Instant>, remaining: set<Instant>, k: Instant)
    requires remaining <= bucket.Keys && IsMin(k, remaining)
    requires forall x :: x in visited ==> x in bucket
    requires SortedKeys(bucket.Keys) == visited + SortedKeys(remaining)
    ensures forall x :: x in visited + [k] ==> x in bucket
    ensures SortedKeys(bucket.Keys) == (visited + [k]) + SortedKeys(remaining - {k})
    ensures DecodedAt(bucket, visited + [k])
         == DecodedAt(bucket, visited) + (if bucket[k].Decoded? then [bucket[k].log] else [])
  {
    var rest := SortedKeys(remaining - {k});
    SortedKeysFirst(remaining, k);
    assert visited + ([k] + rest) == (visited + [k]) + rest;
    DecodedAtSnoc(bucket, visited, k);
  }

  lemma CursorDone(bucket: Bucket, visited: seq<Instant>, remaining: set<Instant>)
    requires remaining == {}
    requires forall x :: x in visited ==> x in bucket
    requires SortedKeys(bucket.Keys) == visited + SortedKeys(remaining)
    ensures DecodedAt(bucket, visited) == StoredLogs(bucket)
  {
    SortedKeysOrder(bucket.Keys);
    assert visited + SortedKeys(remaining) == visited;
  }

  /** What a full read of the bucket returns. */
  ghost function StoredLogs(bucket: Bucket): seq<Log>
  {
    SortedKeysOrder(bucket.Keys);
    DecodedAt(bucket, SortedKeys(bucket.Keys))
  }

  /** A read returns at most one record per key, and every decodable record. */
  lemma StoredLogsContents(bucket: Bucket)
    ensures |StoredLogs(bucket)| <= |bucket|
    ensures forall l :: l in StoredLogs(bucket) <==> exists k :: k in bucket && bucket[k] == Decoded(l)
  {
    SortedKeysOrder(bucket.Keys);
    assert |SortedKeys(bucket.Keys)| == |bucket.Keys| == |bucket|;
    DecodedAtMembers(bucket, SortedKeys(bucket.Keys));
  }

  lemma {:induction false} DecodedAtOrdered(bucket: Bucket, keys: seq<Instant>)
    requires forall k :: k in keys ==> k in bucket
    requires Increasing(keys) && KeysMatchDates(bucket)
    ensures forall i, j :: 0 <= i < j < |DecodedAt(bucket, keys)| ==>
              DecodedAt(bucket, keys)[i].date < DecodedAt(bucket, keys)[j].date
    ensures forall l :: l in DecodedAt(bucket, keys) ==> l.date in keys
  {
    if keys != [] {
      var last := keys[|keys| - 1];
      var init := keys[..|keys| - 1];
      DecodedAtOrdered(bucket, init);
      var prefix := DecodedAt(bucket, init);
      assert keys == init + [last];
      forall l | l in prefix ensures l.date < last {
        var i :| 0 <= i < |init| && init[i] == l.date;
      }
    }
  }

  /** When keys match dates, a read returns records in strictly increasing date order. */
  lemma StoredLogsOrdered(bucket: Bucket)
    requires KeysMatchDates(bucket)
    ensures forall i, j :: 0 <= i < j < |StoredLogs(bucket)| ==>
              StoredLogs(bucket)[i].date < StoredLogs(bucket)[j].date
  {
    SortedKeysOrder(bucket.Keys);
    DecodedAtOrdered(bucket, SortedKeys(bucket.Keys));
  }

  /** Writing a record under the key of its own date. */
  ghost function PutRecord(bucket: Bucket, l: Log): Bucket
  {
    bucket[l.date := Decoded(l)]
  }

  /**
   * A put replaces whatever was at the record's key, leaves every other key
   * alone, adds at most one key, and keeps keys matching dates.
   */
  lemma PutRecordEffect(bucket: Bucket, l: Log)
    ensures l.date in PutRecord(bucket, l) && PutRecord(bucket, l)[l.date] == Decoded(l)
    ensures forall k :: k != l.date ==>
              (k in PutRecord(bucket, l) <==> k in bucket) &&
              (k in bucket ==> PutRecord(bucket, l)[k] == bucket[k])
    ensures |PutRecord(bucket, l)| == if l.date in bucket then |bucket| else |bucket| + 1
    ensures KeysMatchDates(bucket) ==> KeysMatchDates(PutRecord(bucket, l))
  {
  }

  /**
   * After a put, a read returns the record exactly once at its date, and no
   * other record carries that date.
   */
  lemma PutReadBack(bucket: Bucket, l: Log)
    requires KeysMatchDates(bucket)
    ensures l in StoredLogs(PutRecord(bucket, l))
    ensures forall i :: 0 <= i < |StoredLogs(PutRecord(bucket, l))| ==>
              (StoredLogs(PutRecord(bucket, l))[i].date == l.date ==> StoredLogs(PutRecord(bucket, l))[i] == l)
    ensures forall i, j :: 0 <= i < j < |StoredLogs(PutRecord(bucket, l))| ==>
              StoredLogs(PutRecord(bucket, l))[i].date != StoredLogs(PutRecord(bucket, l))[j].date
  {
    var b := PutRecord(bucket, l);
    StoredLogsContents(b);
    StoredLogsOrdered(b);
    assert b[l.date] == Decoded(l);
    forall i | 0 <= i < |StoredLogs(b)| && StoredLogs(b)[i].date == l.date
      ensures StoredLogs(b)[i] == l
    {
      var r := StoredLogs(b)[i];
      assert r in StoredLogs(b);
      var k :| k in b && b[k] == Decoded(r);
    }
  }

  datatype Snapshot = Snapshot(document: JsonDoc, deleted: seq<string>, retained: seq<string>)

  datatype BackupError = BackupLogsUnavailable(cause: StoreError) | WriteFailed | ListFailed

  datatype ExportedFile = ExportedFile(path: string, sheetName: string, sheet: Sheet)

  datatype ExportError = ExportLogsUnavailable(cause: StoreError) | NoHomeDir | SaveFailed

  /** Where the export is saved under a home directory. */
  function ExportPath(homeDir: string): string
  {
    homeDir + "/Desktop/" + ExportFileName
  }

  /** The error a mutating transaction on `key` ends with. */
  function MutationError(key: Instant, beginFails: bool, commitFails: bool): Option<StoreError>
  {
    if beginFails then Some(TransactionFailed)
    else if !KeyEncodable(key) then Some(KeyOutOfRange)
    else if commitFails then Some(TransactionFailed)
    else None
  }

  /**
   * The opened store. A mutating transaction can fail to begin
   * (`beginFails`), before its body runs, or fail to commit
   * (`commitFails`), after its body ran without error; a read transaction
   * can fail to begin (`txFails`). A failed transaction changes nothing.
   */
  class LogStore {
    var bucket: Bucket

    /** Every decodable record sits under the key of its own date. */
    ghost predicate Valid()
      reads this
    {
      KeysMatchDates(bucket)
    }

    /** Opens a store whose file already holds `existing`. */
    constructor Open(existing: Bucket)
      requires KeysMatchDates(existing)
      ensures bucket == existing
      ensures Valid()
    {
      bucket := existing;
    }

    /** Stamps the record with `now` and writes it under that key. */
    method SaveLog(entry: Log, now: Instant, beginFails: bool, commitFails: bool) returns (saved: Log, err: Option<StoreError>)
      requires Valid()
      modifies this
      ensures saved == if beginFails then entry else entry.(date := now)
      ensures err == MutationError(now, beginFails, commitFails)
      ensures err.None? ==> bucket == PutRecord(old(bucket), saved)
      ensures err.Some? ==> bucket == old(bucket)
      ensures err.None? ==> saved in StoredLogs(bucket)
      ensures err.None? ==> forall i :: 0 <= i < |StoredLogs(bucket)| && StoredLogs(bucket)[i].date == now ==>
                StoredLogs(bucket)[i] == saved
      ensures Valid()
    {
      if beginFails {
        return entry, Some(TransactionFailed);
      }
      saved := entry.(date := now);
      if !KeyEncodable(saved.date) {
        return saved, Some(KeyOutOfRange);
      }
      if commitFails {
        return saved, Some(TransactionFailed);
      }
      PutRecordEffect(bucket, saved);
      PutReadBack(bucket, saved);
      bucket := bucket[saved.date := Decoded(saved)];
      err := None;
    }

    /** Rewrites the record under the key of the date it already carries. */
    method UpdateLog(entry: Log, beginFails: bool, commitFails: bool) returns (err: Option<StoreError>)
      requires Valid()
      modifies this
      ensures err == MutationError(entry.date, beginFails, commitFails)
      ensures err.None? ==> bucket == PutRecord(old(bucket), entry)
      ensures err.Some? ==> bucket == old(bucket)
      ensures err.None? ==> entry in StoredLogs(bucket)
      ensures err.None? ==> forall i :: 0 <= i < |StoredLogs(bucket)| && StoredLogs(bucket)[i].date == entry.date ==>
                StoredLogs(bucket)[i] == entry
      ensures Valid()
    {
      if beginFails {
        return Some(TransactionFailed);
      }
      if !KeyEncodable(entry.date) {
        return Some(KeyOutOfRange);
      }
      if commitFails {
        return Some(TransactionFailed);
      }
      PutRecordEffect(bucket, entry);
      PutReadBack(bucket, entry);
      bucket := bucket[entry.date := Decoded(entry)];
      err := None;
    }

    /** Removes the value at `date`'s key; an absent key is not an error. */
    method DeleteLog(date: Instant, beginFails: bool, commitFails: bool) returns (err: Option<StoreError>)
      requires Valid()
      modifies this
      ensures err == MutationError(date, beginFails, commitFails)
      ensures err.None? ==> bucket == old(bucket) - {date}
      ensures err.Some? || date !in old(bucket) ==> bucket == old(bucket)
      ensures date !in bucket || bucket == old(bucket)
      ensures Valid()
    {
      if beginFails {
        return Some(TransactionFailed);
      }
      if !KeyEncodable(date) {
        return Some(KeyOutOfRange);
      }
      if commitFails {
        return Some(TransactionFailed);
      }
      bucket := bucket - {date};
      err := None;
    }

    /**
     * Walks the keys in ascending order and collects the records that
     * decode, skipping the values that do not.
     */
    method GetAllLogs(txFails: bool) returns (res: Result<seq<Log>, StoreError>)
      ensures txFails ==> res == Failure(TransactionFailed)
      ensures !txFails ==> res == Success(StoredLogs(bucket))
    {
      if txFails {
        return Failure(TransactionFailed);
      }
      var logs: seq<Log> := [];
      var remaining := bucket.Keys;
      ghost var visited: seq<Instant> := [];
      while remaining != {}
        invariant remaining <= bucket.Keys
        invariant forall k :: k in visited ==> k in bucket
        invariant SortedKeys(bucket.Keys) == visited + SortedKeys(remaining)
        invariant logs == DecodedAt(bucket, visited)
        decreases remaining
      {
        MinExists(remaining);
        var k :| IsMin(k, remaining);
        CursorStep(bucket, visited, remaining, k);
        if bucket[k].Decoded? {
          logs := logs + [bucket[k].log];
        }
        visited := visited + [k];
        remaining := remaining - {k};
      }
      CursorDone(bucket, visited, remaining);
      return Success(logs);
    }

    /**
     * Records solved today (strictly after today's midnight), the minutes
     * they took, and the current streak.
     */
    method GetDailyStats(now: Instant, txFails: bool) returns (res: Result<DailyStats, StoreError>)
      ensures txFails ==> res == Failure(TransactionFailed)
      ensures !txFails ==> res.Success?
      ensures res.Success? ==>
                var logs := StoredLogs(bucket);
                var today := TodayLogs(logs, NormalizeDate(now));
                && res.value.solvedToday == |today|
                && res.value.timeToday == TotalTime(today)
                && res.value.solvedToday <= |logs|
                && IsStreak(LoggedDays(logs), now, res.value.streak)
                && res.value.streak <= |LoggedDays(logs)|
    {
      var all := GetAllLogs(txFails);
      if all.Failure? {
        return Failure(all.error);
      }
      var solvedToday, timeToday := CountToday(all.value, now);
      var streak := CalculateStreak(all.value, now);
      return Success(DailyStats(solvedToday, timeToday, streak));
    }

    /**
     * Snapshots every record as a JSON array and rotates the snapshot files
     * of the backup directory, whose listing is `listing` (None when it
     * cannot be read). `writeFails` stands for creating the directory or
     * writing the snapshot failing.
     */
    method BackupToJSON(txFails: bool, writeFails: bool, listing: Option<seq<DirEntry>>)
      returns (res: Result<Snapshot, BackupError>)
      ensures txFails ==> res == Failure(BackupLogsUnavailable(TransactionFailed))
      ensures !txFails && writeFails ==> res == Failure(WriteFailed)
      ensures !txFails && !writeFails && listing.None? ==> res == Failure(ListFailed)
      ensures !txFails && !writeFails && listing.Some? ==> res.Success?
      ensures res.Success? ==>
                && listing.Some?
                && res.value.document == JsonArray(StoredLogs(bucket))
                && IsRotation(listing.value, res.value.deleted, res.value.retained)
    {
      var all := GetAllLogs(txFails);
      if all.Failure? {
        return Failure(BackupLogsUnavailable(all.error));
      }
      // The read leaves its slice nil when it appends nothing.
      var logs := if all.value == [] then NilSlice else Slice(all.value);
      var document := SnapshotDocument(logs);
      if writeFails {
        return Failure(WriteFailed);
      }
      if listing.None? {
        return Failure(ListFailed);
      }
      var deleted, retained := SelectForDeletion(listing.value);
      return Success(Snapshot(document, deleted, retained));
    }

    /**
     * Lays every record out in a sheet named "Logs" and saves it on the
     * desktop of `homeDir` (None when the home directory is unknown).
     */
    method ExportToExcel(txFails: bool, formatDate: Instant -> string, homeDir: Option<string>, saveFails: bool)
      returns (res: Result<ExportedFile, ExportError>)
      ensures txFails ==> res == Failure(ExportLogsUnavailable(TransactionFailed))
      ensures !txFails && homeDir.None? ==> res == Failure(NoHomeDir)
      ensures !txFails && homeDir.Some? && saveFails ==> res == Failure(SaveFailed)
      ensures !txFails && homeDir.Some? && !saveFails ==> res.Success?
      ensures res.Success? ==>
                && homeDir.Some?
                && res.value.path == ExportPath(homeDir.value)
                && res.value.sheetName == SheetName
                && IsExportOf(res.value.sheet, StoredLogs(bucket), formatDate)
    {
      var all := GetAllLogs(txFails);
      if all.Failure? {
        return Failure(ExportLogsUnavailable(all.error));
      }
      var sheet := BuildSheet(all.value, formatDate);
      if homeDir.None? {
        return Failure(NoHomeDir);
      }
      if saveFails {
        return Failure(SaveFailed);
      }
      return Success(ExportedFile(ExportPath(homeDir.value), SheetName, sheet));
    }
  }
}
