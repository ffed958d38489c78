/**
 * The JSON snapshot of all records, and the retention of snapshot files:
 * from a listing of the backup directory, pick the snapshot files to delete
 * so that only the newest MaxBackups remain.
 */
module Backup {
  import opened LogRecord

  /** A Go slice of records, which may be nil. */
  datatype LogSlice = NilSlice | Slice(items: seq<Log>)

  /** The shape of the JSON document a slice marshals to. */
  datatype JsonDoc = JsonNull | JsonArray(records: seq<Log>)

  /** Go marshals a nil slice to `null` and any other slice to an array of its items. */
  function Marshal(logs: LogSlice): JsonDoc
  {
    match logs
    case NilSlice => JsonNull
    case Slice(items) => JsonArray(items)
  }

  /**
   * The snapshot document: a nil slice is replaced by an empty one first, so
   * that zero records give an empty array and never null.
   */
  function SnapshotDocument(logs: LogSlice): (doc: JsonDoc)
    ensures doc.JsonArray?
    ensures doc.records == if logs.NilSlice? then [] else logs.items
  {
    var nonNil := if logs.NilSlice? then Slice([]) else logs;
    Marshal(nonNil)
  }

  const MaxBackups: nat := 150
  const BackupPrefix: string := "backup-"
  const BackupSuffix: string := ".json"

  /** One entry of a directory listing. */
  datatype DirEntry = DirEntry(name: string, isDir: bool)

  predicate HasPrefix(s: string, prefix: string)
  {
    |prefix| <= |s| && s[..|prefix|] == prefix
  }

  predicate HasSuffix(s: string, suffix: string)
  {
    |suffix| <= |s| && s[|s| - |suffix|..] == suffix
  }

  /** A regular file named like a snapshot: `backup-*.json`. */
  predicate IsSnapshot(e: DirEntry)
  {
    !e.isDir && HasPrefix(e.name, BackupPrefix) && HasSuffix(e.name, BackupSuffix)
  }

  /**
   * Go's string order: lexicographic on the encoded bytes. UTF-8 preserves
   * code-point order, so comparing characters gives the same order.
   */
  predicate LessEq(a: string, b: string)
  {
    a == [] || (b != [] && (a[0] < b[0] || (a[0] == b[0] && LessEq(a[1..], b[1..]))))
  }

  lemma {:induction false} LessEqTotal(a: string, b: string)
    ensures LessEq(a, b) || LessEq(b, a)
  {
    if a != [] && b != [] && a[0] == b[0] {
      LessEqTotal(a[1..], b[1..]);
    }
  }

  lemma {:induction false} LessEqTransitive(a: string, b: string, c: string)
    requires LessEq(a, b) && LessEq(b, c)
    ensures LessEq(a, c)
  {
    if a != [] && b != [] && c != [] && a[0] == b[0] && b[0] == c[0] {
      LessEqTransitive(a[1..], b[1..], c[1..]);
    }
  }

  lemma {:induction false} LessEqAntisymmetric(a: string, b: string)
    requires LessEq(a, b) && LessEq(b, a)
    ensures a == b
  {
    if a != [] && b != [] {
      LessEqAntisymmetric(a[1..], b[1..]);
      assert a == [a[0]] + a[1..] && b == [b[0]] + b[1..];
    }
  }

  ghost predicate Sorted(s: seq<string>)
  {
    forall i, j :: 0 <= i < j < |s| ==> LessEq(s[i], s[j])
  }

  /** Inserts `x` into a sorted sequence, before the first element it does not exceed. */
  function Insert(x: string, s: seq<string>): (r: seq<string>)
    requires Sorted(s)
    ensures multiset(r) == multiset(s) + multiset{x}
    ensures Sorted(r)
  {
    if s == [] then [x]
    else if LessEq(x, s[0]) then
      InsertFront(x, s)
    else
      LessEqTotal(x, s[0]);
      var tail := Insert(x, s[1..]);
      assert s == [s[0]] + s[1..];
      assert forall y | y in multiset(tail) :: LessEq(s[0], y) by {
        forall y | y in multiset(tail) ensures LessEq(s[0], y) {
          assert y == x || y in multiset(s[1..]);
        }
      }
      ConsSorted(s[0], tail);
      [s[0]] + tail
  }

  lemma InsertFrontSorted(x: string, s: seq<string>)
    requires Sorted(s) && s != [] && LessEq(x, s[0])
    ensures Sorted([x] + s)
  {
    forall j | 1 < j < |s| + 1 ensures LessEq(x, ([x] + s)[j]) {
      LessEqTransitive(x, s[0], s[j - 1]);
    }
  }

  function InsertFront(x: string, s: seq<string>): (r: seq<string>)
    requires Sorted(s) && s != [] && LessEq(x, s[0])
    ensures r == [x] + s && Sorted(r)
  {
    InsertFrontSorted(x, s);
    [x] + s
  }

  lemma ConsSorted(h: string, t: seq<string>)
    requires Sorted(t)
    requires forall y | y in multiset(t) :: LessEq(h, y)
    ensures Sorted([h] + t)
  {
    forall i, j | 0 <= i < j < |t| + 1 ensures LessEq(([h] + t)[i], ([h] + t)[j]) {
      if i == 0 {
        assert t[j - 1] in multiset(t);
      }
    }
  }

  /** The library sort of a list of names, as an insertion sort. */
  function SortStrings(s: seq<string>): (r: seq<string>)
    ensures multiset(r) == multiset(s)
    ensures Sorted(r)
  {
    if s == [] then []
    else
      assert s == [s[0]] + s[1..];
      Insert(s[0], SortStrings(s[1..]))
  }

  /** The names of the snapshot files of a listing, in listing order. */
  function Snapshots(listing: seq<DirEntry>): (r: seq<string>)
    ensures |r| <= |listing|
    ensures forall n :: n in r <==> exists e :: e in listing && IsSnapshot(e) && e.name == n
  {
    if listing == [] then []
    else
      assert listing == [listing[0]] + listing[1..];
      (if IsSnapshot(listing[0]) then [listing[0].name] else []) + Snapshots(listing[1..])
  }

  lemma {:induction false} SnapshotsAppend(listing: seq<DirEntry>, e: DirEntry)
    ensures Snapshots(listing + [e]) == Snapshots(listing) + (if IsSnapshot(e) then [e.name] else [])
  {
    if listing == [] {
      assert [e] + [] == [e];
    } else {
      assert (listing + [e])[1..] == listing[1..] + [e];
      SnapshotsAppend(listing[1..], e);
    }
  }

  /**
   * `deleted` and `retained` split the snapshot files of `listing`: every
   * deleted name is a snapshot file of the listing, only the excess over
   * MaxBackups is deleted, and every deleted name sorts before every
   * retained one.
   */
  ghost predicate IsRotation(listing: seq<DirEntry>, deleted: seq<string>, retained: seq<string>)
  {
    var snapshots := Snapshots(listing);
    && multiset(deleted) + multiset(retained) == multiset(snapshots)
    && (|snapshots| <= MaxBackups ==> deleted == [])
    && (|snapshots| > MaxBackups ==> |deleted| == |snapshots| - MaxBackups)
    && |retained| == (if |snapshots| > MaxBackups then MaxBackups else |snapshots|)
    && (forall n :: n in deleted ==> exists e :: e in listing && IsSnapshot(e) && e.name == n)
    && (forall i, j :: 0 <= i < |deleted| && 0 <= j < |retained| ==> LessEq(deleted[i], retained[j]))
    && Sorted(deleted) && Sorted(retained)
  }

  /**
   * Filters the listing to snapshot files, sorts their names and splits them
   * into the oldest ones beyond the retention cap (`deleted`) and the rest.
   */
  method SelectForDeletion(listing: seq<DirEntry>) returns (deleted: seq<string>, retained: seq<string>)
    ensures IsRotation(listing, deleted, retained)
  {
    var backupFiles: seq<string> := [];
    for k := 0 to |listing|
      invariant backupFiles == Snapshots(listing[..k])
    {
      assert listing[..k + 1] == listing[..k] + [listing[k]];
      SnapshotsAppend(listing[..k], listing[k]);
      if IsSnapshot(listing[k]) {
        backupFiles := backupFiles + [listing[k].name];
      }
    }
    assert listing[..|listing|] == listing;
    var sorted := SortStrings(backupFiles);
    var cut := if |sorted| > MaxBackups then |sorted| - MaxBackups else 0;
    deleted, retained := sorted[..cut], sorted[cut..];
    SplitSorted(sorted, cut);
    DeletedAreSnapshots(listing, sorted, cut);
  }

  lemma SplitSorted(sorted: seq<string>, cut: nat)
    requires Sorted(sorted) && cut <= |sorted|
    ensures multiset(sorted[..cut]) + multiset(sorted[cut..]) == multiset(sorted)
    ensures forall i, j :: 0 <= i < cut && 0 <= j < |sorted| - cut ==> LessEq(sorted[..cut][i], sorted[cut..][j])
    ensures Sorted(sorted[..cut]) && Sorted(sorted[cut..])
  {
    assert sorted == sorted[..cut] + sorted[cut..];
  }

  lemma DeletedAreSnapshots(listing: seq<DirEntry>, sorted: seq<string>, cut: nat)
    requires multiset(sorted) == multiset(Snapshots(listing)) && cut <= |sorted|
    ensures forall n :: n in sorted[..cut] ==> exists e :: e in listing && IsSnapshot(e) && e.name == n
  {
    forall n | n in sorted[..cut] ensures n in Snapshots(listing) {
      assert n in multiset(sorted);
    }
  }
}
