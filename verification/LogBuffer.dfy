/** The log buffer: appending records one after the other, and the scan that Redo makes over them. */
module LogBuffer {
  import opened ByteCodec
  import opened LogCodec

  /** Where record i begins. */
  function Offset(recs: seq<LogRecord>, i: nat): nat
    requires i <= |recs|
  {
    if i == 0 then 0 else Offset(recs, i - 1) + Size(recs[i - 1])
  }

  lemma {:induction false} OffsetPrefix(recs: seq<LogRecord>, r: LogRecord, i: nat)
    requires i <= |recs|
    ensures Offset(recs + [r], i) == Offset(recs, i)
  {
    if i > 0 { OffsetPrefix(recs, r, i - 1); }
  }

  lemma {:induction false} OffsetGrows(recs: seq<LogRecord>, i: nat, j: nat)
    requires i < j <= |recs|
    ensures Offset(recs, i) + Size(recs[i]) <= Offset(recs, j)
    decreases j
  {
    if i < j - 1 { OffsetGrows(recs, i, j - 1); }
  }

  ghost predicate RecordAt(b: Bytes, recs: seq<LogRecord>, first: int, i: int)
    requires 0 <= i < |recs|
  {
    recs[i].lsn == first + i && RecordOk(recs[i]) && At(b, Offset(recs, i), Written(recs[i]))
  }

  /** The buffer holds the records back to back, then zeros; their LSNs are consecutive. */
  ghost predicate Holds(b: Bytes, recs: seq<LogRecord>, first: int) {
    && Offset(recs, |recs|) <= |b|
    && (forall i {:trigger RecordAt(b, recs, first, i)} :: 0 <= i < |recs| ==> RecordAt(b, recs, first, i))
    && (forall x :: Offset(recs, |recs|) <= x < |b| ==> b[x] == 0)
  }

  lemma AtKept(b: Bytes, k: nat, s: Bytes, m: nat, t: Bytes)
    requires At(b, k, s) && k + |s| <= m && m + |t| <= |b|
    ensures At(Patch(b, m, t), k, s)
  {
    PatchBeside(b, m, t, k, k + |s|);
  }

  lemma AppendKeepsRecord(b: Bytes, recs: seq<LogRecord>, first: int, r: LogRecord, i: nat)
    requires i < |recs| && RecordAt(b, recs, first, i) && RecordOk(r) && Offset(recs, |recs|) + Size(r) <= |b|
    ensures RecordAt(Patch(b, Offset(recs, |recs|), Written(r)), recs + [r], first, i)
  {
    OffsetPrefix(recs, r, i);
    OffsetGrows(recs, i, |recs|);
    AtKept(b, Offset(recs, i), Written(recs[i]), Offset(recs, |recs|), Written(r));
  }

  lemma AppendAddsRecord(b: Bytes, recs: seq<LogRecord>, first: int, r: LogRecord)
    requires RecordOk(r) && r.lsn == first + |recs| && Offset(recs, |recs|) + Size(r) <= |b|
    ensures RecordAt(Patch(b, Offset(recs, |recs|), Written(r)), recs + [r], first, |recs|)
    ensures Offset(recs + [r], |recs| + 1) == Offset(recs, |recs|) + Size(r)
  {
    OffsetPrefix(recs, r, |recs|);
    PatchAt(b, Offset(recs, |recs|), Written(r));
  }

  lemma AppendRecordAt(b: Bytes, recs: seq<LogRecord>, first: int, r: LogRecord, c: Bytes, s: seq<LogRecord>, i: nat)
    requires Holds(b, recs, first) && RecordOk(r) && r.lsn == first + |recs| && Offset(recs, |recs|) + Size(r) <= |b|
      && i <= |recs|
    requires c == Patch(b, Offset(recs, |recs|), Written(r)) && s == recs + [r]
    ensures RecordAt(c, s, first, i)
  {
    if i < |recs| {
      assert RecordAt(b, recs, first, i);
      AppendKeepsRecord(b, recs, first, r, i);
    } else {
      AppendAddsRecord(b, recs, first, r);
    }
  }

  lemma PatchZeros(b: Bytes, k: nat, s: Bytes, m: nat)
    requires k + |s| <= m <= |b| && forall x :: k <= x < |b| ==> b[x] == 0
    ensures forall x :: m <= x < |b| ==> Patch(b, k, s)[x] == 0
  {
  }

  lemma AppendHolds(b: Bytes, recs: seq<LogRecord>, first: int, r: LogRecord)
    requires Holds(b, recs, first) && RecordOk(r) && r.lsn == first + |recs| && Offset(recs, |recs|) + Size(r) <= |b|
    ensures Holds(Patch(b, Offset(recs, |recs|), Written(r)), recs + [r], first)
  {
    var s, c := recs + [r], Patch(b, Offset(recs, |recs|), Written(r));
    AppendAddsRecord(b, recs, first, r);
    forall i | 0 <= i < |s| ensures RecordAt(c, s, first, i) {
      AppendRecordAt(b, recs, first, r, c, s, i);
    }
    PatchZeros(b, Offset(recs, |recs|), Written(r), Offset(s, |s|));
  }

  /** One copy after another, the second beginning inside or at the end of the first and reaching past it. */
  lemma PatchOver(b: Bytes, k: nat, s: Bytes, m: nat, t: Bytes)
    requires m <= |s| <= m + |t| && k + m + |t| <= |b|
    ensures Patch(Patch(b, k, s), k + m, t) == Patch(b, k, s[..m] + t)
  {
  }

  class LogManager {
    const buffer: array<Byte>
    const firstLsn: int
    var offset: nat
    var nextLsn: int
    ghost var recs: seq<LogRecord>

    ghost predicate Valid()
      reads this, buffer
    {
      Holds(buffer[..], recs, firstLsn) && offset == Offset(recs, |recs|) && nextLsn == firstLsn + |recs|
    }

    constructor (size: nat, lsn: int)
      ensures Valid() && recs == [] && buffer.Length == size && firstLsn == nextLsn == lsn && fresh(buffer)
    {
      buffer := new Byte[size](_ => 0);
      firstLsn, nextLsn, offset, recs := lsn, lsn, 0, [];
    }

    /** Writes t where position m of what began at k ends. */
    method Extend(k: nat, ghost b: Bytes, ghost s: Bytes, m: nat, t: Bytes)
      requires m <= |s| <= m + |t| && k + m + |t| <= |b| == buffer.Length && buffer[..] == Patch(b, k, s)
      modifies buffer
      ensures buffer[..] == Patch(b, k, s[..m] + t)
    {
      PatchOver(b, k, s, m, t);
      CopyIn(buffer, k + m, t);
    }

    /** A rid and one serialized tuple. */
    method WriteOneTuple(rid: LogRid, t: Bytes, ghost b: Bytes, ghost s: Bytes)
      requires RidOk(rid) && Int32(|t|) && |s| == HEADER_SIZE && offset + 32 + |t| <= |b| == buffer.Length
        && buffer[..] == Patch(b, offset, s)
      modifies buffer
      ensures buffer[..] == Patch(b, offset, s + (RidBytes(rid) + Serialize(t)))
    {
      Extend(offset, b, s, 20, RidBytes(rid));
      ghost var u := s + RidBytes(rid);
      assert s[..20] == s;
      Extend(offset, b, u, 28, Serialize(t));
      assert u[..28] == u;
      assert u + Serialize(t) == s + (RidBytes(rid) + Serialize(t));
    }

    /** A rid and two tuples, the second one written too early by four bytes. */
    method WriteUpdate(rid: LogRid, o: Bytes, n: Bytes, ghost b: Bytes, ghost s: Bytes)
      requires RidOk(rid) && Int32(|o|) && Int32(|n|) && |s| == HEADER_SIZE
      requires offset + 36 + |o| + |n| <= |b| == buffer.Length && buffer[..] == Patch(b, offset, s)
      modifies buffer
      ensures buffer[..] == Patch(b, offset, s + (RidBytes(rid) + (Serialize(o)[..|o|] + Serialize(n))))
    {
      WriteOneTuple(rid, o, b, s);
      ghost var u := s + (RidBytes(rid) + Serialize(o));
      Extend(offset, b, u, 28 + |o|, Serialize(n));
      assert u[..28 + |o|] == s + (RidBytes(rid) + Serialize(o)[..|o|]);
      assert u[..28 + |o|] + Serialize(n) == s + (RidBytes(rid) + (Serialize(o)[..|o|] + Serialize(n)));
    }

    method WritePayload(body: Body, ghost b: Bytes, ghost s: Bytes)
      requires RecordOk(LogRecord(0, 0, 0, body)) && |s| == HEADER_SIZE
      requires offset + HEADER_SIZE + BodySize(body) <= |b| == buffer.Length && buffer[..] == Patch(b, offset, s)
      modifies buffer
      ensures buffer[..] == Patch(b, offset, s + Payload(body))
    {
      assert s + [] == s;
      match body {
        case Insert(rid, t) => WriteOneTuple(rid, t, b, s);
        case MarkDelete(rid, t) => WriteOneTuple(rid, t, b, s);
        case ApplyDelete(rid, t) => WriteOneTuple(rid, t, b, s);
        case RollbackDelete(rid, t) => WriteOneTuple(rid, t, b, s);
        case Update(rid, o, n) => WriteUpdate(rid, o, n, b, s);
        case NewPage(p) =>
          Extend(offset, b, s, 20, EncodeInt(p));
          assert s[..20] == s;
        case _ =>
      }
    }

    /** AppendLogRecord gives the record the next LSN and writes it at the end of the buffer. */
    method AppendLogRecord(txn: int, prevLsn: int, body: Body) returns (lsn: int)
      requires Valid() && RecordOk(LogRecord(nextLsn, txn, prevLsn, body))
      requires offset + Size(LogRecord(nextLsn, txn, prevLsn, body)) <= buffer.Length
      modifies this, buffer
      ensures Valid() && lsn == old(nextLsn) && nextLsn == lsn + 1
        && recs == old(recs) + [LogRecord(lsn, txn, prevLsn, body)]
    {
      lsn := nextLsn;
      ghost var r, b := LogRecord(lsn, txn, prevLsn, body), buffer[..];
      AppendHolds(b, recs, firstLsn, r);
      nextLsn := nextLsn + 1;
      CopyIn(buffer, offset, HeaderBytes(LogRecord(lsn, txn, prevLsn, body)));
      WritePayload(body, b, HeaderBytes(r));
      offset := offset + Size(LogRecord(lsn, txn, prevLsn, body));
      recs := recs + [r];
      OffsetPrefix(recs[..|recs| - 1], r, |recs| - 1);
      assert recs[..|recs| - 1] == old(recs);
    }
  }

  // ---- The scan ----

  /** What a record tells about the open transactions. */
  function Noted(active: map<int, int>, r: LogRecord): map<int, int> {
    if r.body.Commit? || r.body.Abort? then active - {r.txn} else active[r.txn := r.lsn]
  }

  /** The transactions still open after the first n records, with the LSN of their latest record. */
  function ActiveAfter(recs: seq<LogRecord>, n: nat): map<int, int>
    requires n <= |recs|
  {
    if n == 0 then map[] else Noted(ActiveAfter(recs, n - 1), recs[n - 1])
  }

  lemma ActiveStep(recs: seq<LogRecord>, n: nat, r: LogRecord)
    requires n < |recs| && SameHeader(r, recs[n]) && !recs[n].body.Unknown?
    ensures ActiveAfter(recs, n + 1) == Noted(ActiveAfter(recs, n), r)
  {
  }

  /** The first n LSNs, and no others, lead to the offsets of their records. */
  ghost predicate Mapped(m: map<int, int>, recs: seq<LogRecord>, first: int, base: int, n: nat)
    requires n <= |recs|
  {
    forall l :: (l in m <==> first <= l < first + n) && (first <= l < first + n ==>
      m[l] == base + Offset(recs, l - first))
  }

  lemma MappedStep(m: map<int, int>, recs: seq<LogRecord>, first: int, base: int, n: nat)
    requires n < |recs| && Mapped(m, recs, first, base, n)
    ensures Mapped(m[first + n := base + Offset(recs, n)], recs, first, base, n + 1)
  {
  }

  /** The record is read back as it was written. */
  predicate Survives(r: LogRecord) {
    RecordOk(LogRecord(0, 0, 0, r.body)) && Faithful(r.body)
  }

  /** What is read where record i begins: its header and, exactly if it survives, its body. */
  ghost predicate ReadAs(got: Parsed<(LogRecord, int)>, recs: seq<LogRecord>, i: nat)
    requires i <= |recs|
  {
    if i == |recs| then got == Stop
    else
      && got != Stop && (got.Got? && got.value.0 == recs[i] <==> Survives(recs[i]))
      && (got.Got? ==> got.value.1 == Size(recs[i]) && SameHeader(got.value.0, recs[i]))
  }

  /** DeserializeLogRecord at the place where record i begins. */
  method ReadNext(buffer: array<Byte>, k: nat, ghost recs: seq<LogRecord>, ghost first: int, ghost i: nat)
    returns (r: Parsed<(LogRecord, int)>)
    requires Holds(buffer[..], recs, first) && Offset(recs, |recs|) + HEADER_SIZE <= buffer.Length && i <= |recs|
      && k == Offset(recs, i)
    ensures ReadAs(r, recs, i)
    ensures i < |recs| ==> recs[i].lsn == first + i && !recs[i].body.Unknown?
  {
    NextRecord(buffer[..], recs, first, i);
    assert i < |recs| ==> RecordAt(buffer[..], recs, first, i);
    r := ReadRecord(buffer[..], k);
  }

  /** The scan has found the headers of the first records, and the bodies that survive. */
  ghost predicate FoundSoFar(found: seq<LogRecord>, recs: seq<LogRecord>) {
    |found| <= |recs| && forall i :: 0 <= i < |found| ==>
      SameHeader(found[i], recs[i]) && (found[i] == recs[i] <==> Survives(recs[i]))
  }

  lemma FoundStep(found: seq<LogRecord>, recs: seq<LogRecord>, r: LogRecord)
    requires FoundSoFar(found, recs) && |found| < |recs|
    requires SameHeader(r, recs[|found|]) && (r == recs[|found|] <==> Survives(recs[|found|]))
    ensures FoundSoFar(found + [r], recs)
  {
  }

  /** The scan finds the records in order, each LSN at its offset, and the open transactions; it comes to a halt
    * early only on a record that does not survive, whose tuple length leads out of the buffer. */
  method Scan(buffer: array<Byte>, base: int, ghost recs: seq<LogRecord>, ghost first: int)
    returns (found: seq<LogRecord>, lsnMapping: map<int, int>, active: map<int, int>)
    requires Holds(buffer[..], recs, first) && Offset(recs, |recs|) + HEADER_SIZE <= buffer.Length
    ensures FoundSoFar(found, recs) && (|found| < |recs| ==> !Survives(recs[|found|]))
    ensures active == ActiveAfter(recs, |found|) && Mapped(lsnMapping, recs, first, base, |found|)
  {
    found, lsnMapping, active := [], map[], map[];
    var k := 0;
    var go := true;
    while go
      invariant FoundSoFar(found, recs) && k == Offset(recs, |found|)
      invariant !go && |found| < |recs| ==> !Survives(recs[|found|])
      invariant active == ActiveAfter(recs, |found|)
      invariant Mapped(lsnMapping, recs, first, base, |found|)
      decreases |recs| - |found|, go
    {
      var parsed := ReadNext(buffer, k, recs, first, |found|);
      if parsed.Got? {
        var (r, size) := parsed.value;
        MappedStep(lsnMapping, recs, first, base, |found|);
        ActiveStep(recs, |found|, r);
        FoundStep(found, recs, r);
        lsnMapping := lsnMapping[r.lsn := base + k];
        active := Noted(active, r);
        found := found + [r];
        k := k + size;
      } else {
        go := false;
      }
    }
  }

  lemma NextRecord(b: Bytes, recs: seq<LogRecord>, first: int, i: nat)
    requires Holds(b, recs, first) && Offset(recs, |recs|) + HEADER_SIZE <= |b| && i <= |recs|
    ensures Offset(recs, i) + HEADER_SIZE <= |b|
    ensures ReadAs(ReadRecord(b, Offset(recs, i)), recs, i)
  {
    if i < |recs| {
      assert RecordAt(b, recs, first, i);
      OffsetGrows(recs, i, |recs|);
      RecordRoundTrip(b, Offset(recs, i), recs[i]);
    } else {
      ZerosStop(b, Offset(recs, i));
    }
  }

  /** Reading of ActiveAfter: a transaction is open exactly when its latest record ends it not, and then with that
    * record's LSN. */
  lemma {:induction false} ActiveMeans(recs: seq<LogRecord>, n: nat, txn: int)
    requires n <= |recs|
    ensures txn in ActiveAfter(recs, n) <==>
      exists i :: 0 <= i < n && recs[i].txn == txn && !recs[i].body.Commit? && !recs[i].body.Abort?
        && forall j :: i < j < n ==> recs[j].txn != txn
    ensures txn in ActiveAfter(recs, n) ==>
      forall i :: 0 <= i < n && recs[i].txn == txn && (forall j :: i < j < n ==> recs[j].txn != txn) ==>
        ActiveAfter(recs, n)[txn] == recs[i].lsn
  {
    if n > 0 {
      ActiveMeans(recs, n - 1, txn);
      if recs[n - 1].txn == txn {
        assert !recs[n - 1].body.Commit? && !recs[n - 1].body.Abort? ==> txn in ActiveAfter(recs, n);
      }
    }
  }

  // ---- From append to scan ----

  datatype Entry = Entry(txn: int, prevLsn: int, body: Body)

  /** The entries with consecutive LSNs from lsn on. */
  function Stamped(entries: seq<Entry>, lsn: int): (r: seq<LogRecord>)
    ensures |r| == |entries|
    ensures forall i :: 0 <= i < |entries| ==>
      r[i] == LogRecord(lsn + i, entries[i].txn, entries[i].prevLsn, entries[i].body)
  {
    seq(|entries|, i requires 0 <= i < |entries| =>
      LogRecord(lsn + i, entries[i].txn, entries[i].prevLsn, entries[i].body))
  }

  lemma {:induction false} OffsetOfPrefix(recs: seq<LogRecord>, n: nat, i: nat)
    requires i <= n <= |recs|
    ensures Offset(recs[..n], i) == Offset(recs, i)
  {
    if i > 0 { OffsetOfPrefix(recs, n, i - 1); }
  }

  ghost predicate AllRecordsOk(recs: seq<LogRecord>) {
    forall r {:trigger RecordOk(r)} :: r in recs ==> RecordOk(r)
  }

  method AppendAll(entries: seq<Entry>, size: nat, lsn: int) returns (log: LogManager)
    requires AllRecordsOk(Stamped(entries, lsn)) && Offset(Stamped(entries, lsn), |entries|) + HEADER_SIZE <= size
    ensures fresh(log) && fresh(log.buffer) && log.Valid() && log.recs == Stamped(entries, lsn) && log.firstLsn == lsn
      && log.buffer.Length == size
  {
    log := new LogManager(size, lsn);
    ghost var recs := Stamped(entries, lsn);
    for i := 0 to |entries|
      invariant log.Valid() && log.recs == recs[..i] && log.firstLsn == lsn && log.buffer.Length == size && fresh(log)
        && fresh(log.buffer)
    {
      assert recs[i] in recs && RecordOk(recs[i]);
      OffsetOfPrefix(recs, i, i);
      OffsetGrows(recs, i, |recs|);
      var _ := log.AppendLogRecord(entries[i].txn, entries[i].prevLsn, entries[i].body);
      assert recs[..i + 1] == recs[..i] + [recs[i]];
    }
    assert recs[..|entries|] == recs;
  }

  /** The first record that does not survive is one that is not found. */
  lemma FoundExactly(found: seq<LogRecord>, recs: seq<LogRecord>)
    requires FoundSoFar(found, recs) && (|found| < |recs| ==> !Survives(recs[|found|]))
    ensures found == recs <==> forall r :: r in recs ==> Survives(r)
  {
    if found == recs {
      forall r | r in recs ensures Survives(r) { var i :| 0 <= i < |recs| && recs[i] == r; }
    } else if |found| == |recs| {
      var i :| 0 <= i < |recs| && found[i] != recs[i];
      assert recs[i] in recs;
    } else {
      assert recs[|found|] in recs;
    }
  }

  /** Any list of records that fits the buffer with one header to spare comes back from the scan, in order and with
    * consecutive LSNs, exactly if every one of them survives. Each LSN found leads to its record's offset. */
  method AppendThenScan(entries: seq<Entry>, size: nat, lsn: int, base: int)
    returns (found: seq<LogRecord>, lsnMapping: map<int, int>, active: map<int, int>)
    requires AllRecordsOk(Stamped(entries, lsn)) && Offset(Stamped(entries, lsn), |entries|) + HEADER_SIZE <= size
    ensures found == Stamped(entries, lsn) <==> forall r :: r in Stamped(entries, lsn) ==> Survives(r)
    ensures |found| <= |entries| && Mapped(lsnMapping, Stamped(entries, lsn), lsn, base, |found|)
    ensures active == ActiveAfter(Stamped(entries, lsn), |found|)
  {
    var log := AppendAll(entries, size, lsn);
    ghost var recs := Stamped(entries, lsn);
    found, lsnMapping, active := Scan(log.buffer, base, recs, lsn);
    FoundExactly(found, recs);
  }
}
