/** Log records, the bytes AppendLogRecord writes for them, and what DeserializeLogRecord reads back. */
module LogCodec {
  import opened Config
  import opened ByteCodec

  const HEADER_SIZE: nat := 20

  datatype LogRid = LogRid(page: int, slot: int)

  datatype Body =
    | Begin | Commit | Abort
    | Insert(rid: LogRid, tuple: Bytes)
    | MarkDelete(rid: LogRid, tuple: Bytes)
    | ApplyDelete(rid: LogRid, tuple: Bytes)
    | RollbackDelete(rid: LogRid, tuple: Bytes)
    | Update(rid: LogRid, before: Bytes, after: Bytes)
    | NewPage(prevPage: int)
    | Unknown(code: int)

  datatype LogRecord = LogRecord(lsn: int, txn: int, prevLsn: int, body: Body)

  function TypeCode(b: Body): int {
    match b
    case Insert(_, _) => 1
    case MarkDelete(_, _) => 2
    case ApplyDelete(_, _) => 3
    case RollbackDelete(_, _) => 4
    case Update(_, _, _) => 5
    case Begin => 6
    case Commit => 7
    case Abort => 8
    case NewPage(_) => 9
    case Unknown(code) => code
  }

  /** The size the constructors compute. */
  function BodySize(b: Body): nat {
    match b
    case Insert(_, t) => 12 + |t|
    case MarkDelete(_, t) => 12 + |t|
    case ApplyDelete(_, t) => 12 + |t|
    case RollbackDelete(_, t) => 12 + |t|
    case Update(_, o, n) => 16 + |o| + |n|
    case NewPage(_) => 4
    case _ => 0
  }

  function Size(r: LogRecord): nat { HEADER_SIZE + BodySize(r.body) }

  /** A record a transaction can hand in: 32-bit fields, a transaction, a known type. */
  predicate RidOk(r: LogRid) { Int32(r.page) && Int32(r.slot) }

  predicate RecordOk(r: LogRecord) {
    && Int32(r.lsn) && r.lsn != INVALID_LSN && Int32(r.txn) && r.txn != INVALID_TXN_ID && Int32(r.prevLsn)
    && Int32(Size(r))
    && match r.body
       case Insert(rid, _) => RidOk(rid)
       case MarkDelete(rid, _) => RidOk(rid)
       case ApplyDelete(rid, _) => RidOk(rid)
       case RollbackDelete(rid, _) => RidOk(rid)
       case Update(rid, _, _) => RidOk(rid)
       case NewPage(p) => Int32(p)
       case Unknown(_) => false
       case _ => true
  }

  // ---- Writing ----

  function RidBytes(r: LogRid): (b: Bytes)
    requires RidOk(r)
    ensures |b| == 8
  {
    EncodeInt(r.page) + EncodeInt(r.slot)
  }

  /** Tuple::SerializeTo: the length, then the bytes. */
  function Serialize(t: Bytes): (b: Bytes)
    requires Int32(|t|)
    ensures |b| == 4 + |t|
  {
    EncodeInt(|t|) + t
  }

  function HeaderBytes(r: LogRecord): (b: Bytes)
    requires RecordOk(r)
    ensures |b| == HEADER_SIZE
  {
    EncodeInt(Size(r)) + EncodeInt(r.lsn) + EncodeInt(r.txn) + EncodeInt(r.prevLsn) + EncodeInt(TypeCode(r.body))
  }

  /** The payload as written. For an update the new tuple goes only as far behind the start of the old one as the
    * old one is long, over the last four bytes of its serialized form. */
  function Payload(b: Body): (s: Bytes)
    requires RecordOk(LogRecord(0, 0, 0, b))
    ensures |s| == BodySize(b) - if b.Update? then 4 else 0
  {
    match b
    case Insert(rid, t) => RidBytes(rid) + Serialize(t)
    case MarkDelete(rid, t) => RidBytes(rid) + Serialize(t)
    case ApplyDelete(rid, t) => RidBytes(rid) + Serialize(t)
    case RollbackDelete(rid, t) => RidBytes(rid) + Serialize(t)
    case Update(rid, o, n) => RidBytes(rid) + (Serialize(o)[..|o|] + Serialize(n))
    case NewPage(p) => EncodeInt(p)
    case _ => []
  }

  /** All the bytes written for a record. */
  function Written(r: LogRecord): (s: Bytes)
    requires RecordOk(r)
    ensures |s| == Size(r) - if r.body.Update? then 4 else 0
  {
    HeaderBytes(r) + Payload(r.body)
  }

  /** Nothing of the old tuple is lost: the bytes written over it are the bytes that were there. */
  predicate Faithful(b: Body)
    requires RecordOk(LogRecord(0, 0, 0, b))
  {
    b.Update? ==> Serialize(b.before)[|b.before|..] == EncodeInt(|b.after|)
  }

  // ---- Reading ----

  datatype Parsed<T> = Stop | Overrun | Got(value: T)

  /** Tuple::DeserializeFrom. */
  function Deserialize(b: Bytes, k: nat): Parsed<Bytes> {
    if k + 4 > |b| then Overrun
    else
      var n := ReadInt(b, k);
      if n < 0 || k + 4 + n > |b| then Overrun else Got(b[k + 4..k + 4 + n])
  }

  function ReadRid(b: Bytes, k: nat): LogRid
    requires k + 8 <= |b|
  {
    LogRid(ReadInt(b, k), ReadInt(b, k + 4))
  }

  function ReadOneTuple(b: Bytes, k: nat, code: int): Parsed<Body>
    requires 1 <= code <= 4
  {
    if k + 8 > |b| then Overrun
    else
      match Deserialize(b, k + 8)
      case Got(t) =>
        var rid := ReadRid(b, k);
        Got(if code == 1 then Insert(rid, t) else if code == 2 then MarkDelete(rid, t)
            else if code == 3 then ApplyDelete(rid, t) else RollbackDelete(rid, t))
      case _ => Overrun
  }

  function ReadUpdate(b: Bytes, k: nat): Parsed<Body> {
    if k + 8 > |b| then Overrun
    else
      match Deserialize(b, k + 8)
      case Got(o) =>
        (match Deserialize(b, k + 8 + |o|)
         case Got(n) => Got(Update(ReadRid(b, k), o, n))
         case _ => Overrun)
      case _ => Overrun
  }

  function ReadBody(b: Bytes, k: nat, code: int): Parsed<Body> {
    if 1 <= code <= 4 then ReadOneTuple(b, k, code)
    else if code == 5 then ReadUpdate(b, k)
    else if code == 6 then Got(Begin)
    else if code == 7 then Got(Commit)
    else if code == 8 then Got(Abort)
    else if code == 9 then (if k + 4 > |b| then Overrun else Got(NewPage(ReadInt(b, k))))
    else Got(Unknown(code))
  }

  /** DeserializeLogRecord at position k: the record and its size field, or no record there. */
  function ReadRecord(b: Bytes, k: nat): Parsed<(LogRecord, int)>
    requires k + HEADER_SIZE <= |b|
  {
    var size, lsn, txn, prev, code := ReadInt(b, k), ReadInt(b, k + 4), ReadInt(b, k + 8), ReadInt(b, k + 12),
      ReadInt(b, k + 16);
    if size < 0 || lsn == INVALID_LSN || txn == INVALID_TXN_ID || code == 0 then Stop
    else
      match ReadBody(b, k + HEADER_SIZE, code)
      case Got(body) => Got((LogRecord(lsn, txn, prev, body), size))
      case _ => Overrun
  }

  // ---- Reading back what was written ----

  predicate Carries(body: Body, rid: LogRid, t: Bytes) {
    match body
    case Insert(q, u) => (q, u) == (rid, t)
    case MarkDelete(q, u) => (q, u) == (rid, t)
    case ApplyDelete(q, u) => (q, u) == (rid, t)
    case RollbackDelete(q, u) => (q, u) == (rid, t)
    case _ => false
  }

  lemma CarriedPayload(r: LogRecord, rid: LogRid, t: Bytes)
    requires RecordOk(r) && Carries(r.body, rid, t)
    ensures RidOk(rid) && Int32(|t|) && RecordOk(LogRecord(0, 0, 0, r.body)) && Size(r) == 32 + |t|
    ensures Payload(r.body) == RidBytes(rid) + Serialize(t)
  {
  }

  /** The layout of a record that carries one tuple: the record id after the header, then the length and the bytes. */
  lemma TupleLayout(b: Bytes, k: nat, r: LogRecord, rid: LogRid, t: Bytes)
    requires RecordOk(r) && At(b, k, Written(r))
    requires Carries(r.body, rid, t)
    ensures k + 32 + |t| <= |b| && b[k + 32..k + 32 + |t|] == t
    ensures ReadInt(b, k + 20) == rid.page && ReadInt(b, k + 24) == rid.slot && ReadInt(b, k + 28) == |t|
    ensures ReadInt(b, k) == 28 + |Serialize(t)|
  {
    CarriedPayload(r, rid, t);
    AtSplit(b, k, HeaderBytes(r), RidBytes(rid) + Serialize(t));
    HeaderBack(b, k, r);
    AtSplit(b, k + 20, RidBytes(rid), Serialize(t));
    RidBack(b, k + 20, rid);
    AtSplit(b, k + 28, EncodeInt(|t|), t);
    ReadBack(b, k + 28, |t|);
  }

  /** The layout of an update: the old tuple without its last four bytes, then the length and the bytes of the new
    * one. The size field counts both tuples in full. */
  lemma UpdateLayout(b: Bytes, k: nat, r: LogRecord)
    requires RecordOk(r) && r.body.Update? && At(b, k, Written(r))
    ensures var Update(rid, o, n) := r.body;
      && k + 32 + |o| + |n| <= |b| && b[k + 28..k + 28 + |o|] == (EncodeInt(|o|) + o)[..|o|]
      && ReadInt(b, k + 20) == rid.page && ReadInt(b, k + 24) == rid.slot
      && ReadInt(b, k + 28 + |o|) == |n| && b[k + 32 + |o|..k + 32 + |o| + |n|] == n
      && ReadInt(b, k) == 28 + |Serialize(o)| + |Serialize(n)|
  {
    var Update(rid, o, n) := r.body;
    AtSplit(b, k, HeaderBytes(r), Payload(r.body));
    HeaderBack(b, k, r);
    UpdateParts(b, k + 20, rid, o, n);
    RidBack(b, k + 20, rid);
    AtSplit(b, k + 28 + |o|, EncodeInt(|n|), n);
    ReadBack(b, k + 28 + |o|, |n|);
  }

  /** The records differ at most in the bodies, which are of the same kind. */
  predicate SameHeader(s: LogRecord, r: LogRecord) {
    s.lsn == r.lsn && s.txn == r.txn && s.prevLsn == r.prevLsn
    && TypeCode(s.body) == TypeCode(r.body) && (s.body.Unknown? <==> r.body.Unknown?)
  }

  ghost predicate At(b: Bytes, k: nat, s: Bytes) {
    k + |s| <= |b| && b[k..k + |s|] == s
  }

  lemma AtSplit(b: Bytes, k: nat, s: Bytes, t: Bytes)
    ensures At(b, k, s + t) <==> At(b, k, s) && At(b, k + |s|, t)
  {
    if At(b, k, s + t) {
      assert b[k..k + |s|] == (s + t)[..|s|];
      assert b[k + |s|..k + |s| + |t|] == (s + t)[|s|..];
    }
  }

  lemma ReadBack(b: Bytes, k: nat, v: int)
    requires Int32(v) && k + 4 <= |b|
    ensures At(b, k, EncodeInt(v)) <==> ReadInt(b, k) == v
  {
    IntRoundTrip(v);
    BytesRoundTrip(b[k..k + 4]);
  }

  lemma RidBack(b: Bytes, k: nat, rid: LogRid)
    requires RidOk(rid) && At(b, k, RidBytes(rid))
    ensures k + 8 <= |b| && ReadRid(b, k) == rid
  {
    AtSplit(b, k, EncodeInt(rid.page), EncodeInt(rid.slot));
    ReadBack(b, k, rid.page);
    ReadBack(b, k + 4, rid.slot);
  }

  lemma TupleBack(b: Bytes, k: nat, t: Bytes)
    requires Int32(|t|)
    ensures At(b, k, Serialize(t)) <==> Deserialize(b, k) == Got(t)
  {
    AtSplit(b, k, EncodeInt(|t|), t);
    if k + 4 <= |b| { ReadBack(b, k, |t|); }
  }

  lemma HeaderBack(b: Bytes, k: nat, r: LogRecord)
    requires RecordOk(r) && At(b, k, HeaderBytes(r))
    ensures k + HEADER_SIZE <= |b| && ReadInt(b, k) == Size(r) && ReadInt(b, k + 4) == r.lsn
      && ReadInt(b, k + 8) == r.txn
    ensures ReadInt(b, k + 12) == r.prevLsn && ReadInt(b, k + 16) == TypeCode(r.body)
  {
    var a, c, d, e, f := EncodeInt(Size(r)), EncodeInt(r.lsn), EncodeInt(r.txn), EncodeInt(r.prevLsn),
      EncodeInt(TypeCode(r.body));
    AtSplit(b, k, a + c + d + e, f);
    AtSplit(b, k, a + c + d, e);
    AtSplit(b, k, a + c, d);
    AtSplit(b, k, a, c);
    ReadBack(b, k, Size(r));
    ReadBack(b, k + 4, r.lsn);
    ReadBack(b, k + 8, r.txn);
    ReadBack(b, k + 12, r.prevLsn);
    ReadBack(b, k + 16, TypeCode(r.body));
  }

  lemma OneTupleBack(b: Bytes, k: nat, rid: LogRid, t: Bytes, code: int)
    requires RidOk(rid) && Int32(|t|) && 1 <= code <= 4 && At(b, k, RidBytes(rid) + Serialize(t))
    ensures ReadOneTuple(b, k, code) ==
      Got(if code == 1 then Insert(rid, t) else if code == 2 then MarkDelete(rid, t)
        else if code == 3 then ApplyDelete(rid, t) else RollbackDelete(rid, t))
  {
    AtSplit(b, k, RidBytes(rid), Serialize(t));
    RidBack(b, k, rid);
    TupleBack(b, k + 8, t);
  }

  lemma OverlapBack(b: Bytes, m: nat, s: Bytes, l: nat, e: Bytes)
    requires |s| == l + 4 && |e| == 4 && At(b, m, s[..l]) && At(b, m + l, e)
    ensures At(b, m, s) <==> s[l..] == e
  {
    AtSplit(b, m, s[..l], s[l..]);
    assert s == s[..l] + s[l..];
  }

  lemma ReadUpdateIs(b: Bytes, k: nat, rid: LogRid, o: Bytes, n: Bytes)
    requires k + 8 <= |b| && ReadRid(b, k) == rid && Deserialize(b, k + 8 + |o|) == Got(n)
    ensures ReadUpdate(b, k) == Got(Update(rid, o, n)) <==> Deserialize(b, k + 8) == Got(o)
  {
  }

  lemma UpdateParts(b: Bytes, k: nat, rid: LogRid, o: Bytes, n: Bytes)
    requires RidOk(rid) && Int32(|o|) && Int32(|n|) && At(b, k, RidBytes(rid) + (Serialize(o)[..|o|] + Serialize(n)))
    ensures At(b, k, RidBytes(rid)) && At(b, k + 8, Serialize(o)[..|o|]) && At(b, k + 8 + |o|, Serialize(n))
      && At(b, k + 8 + |o|, EncodeInt(|n|))
  {
    AtSplit(b, k, RidBytes(rid), Serialize(o)[..|o|] + Serialize(n));
    AtSplit(b, k + 8, Serialize(o)[..|o|], Serialize(n));
    AtSplit(b, k + 8 + |o|, EncodeInt(|n|), n);
  }

  /** An update comes back as it was exactly when the overlap destroyed nothing. */
  lemma UpdateBack(b: Bytes, k: nat, rid: LogRid, o: Bytes, n: Bytes)
    requires RidOk(rid) && Int32(|o|) && Int32(|n|) && At(b, k, RidBytes(rid) + (Serialize(o)[..|o|] + Serialize(n)))
    ensures ReadUpdate(b, k) == Got(Update(rid, o, n)) <==> Serialize(o)[|o|..] == EncodeInt(|n|)
  {
    UpdateParts(b, k, rid, o, n);
    RidBack(b, k, rid);
    TupleBack(b, k + 8, o);
    TupleBack(b, k + 8 + |o|, n);
    OverlapBack(b, k + 8, Serialize(o), |o|, EncodeInt(|n|));
    ReadUpdateIs(b, k, rid, o, n);
  }

  lemma BodyBack(b: Bytes, k: nat, body: Body)
    requires RecordOk(LogRecord(0, 0, 0, body)) && At(b, k, Payload(body))
    ensures ReadBody(b, k, TypeCode(body)) == Got(body) <==> Faithful(body)
  {
    match body
    case Insert(rid, t) => OneTupleBack(b, k, rid, t, 1);
    case MarkDelete(rid, t) => OneTupleBack(b, k, rid, t, 2);
    case ApplyDelete(rid, t) => OneTupleBack(b, k, rid, t, 3);
    case RollbackDelete(rid, t) => OneTupleBack(b, k, rid, t, 4);
    case Update(rid, o, n) => UpdateBack(b, k, rid, o, n);
    case NewPage(p) => ReadBack(b, k, p);
    case _ =>
  }

  /** A written record is read back, with its size, exactly when it is faithful: always, but for an update
    * whose new length does not match the bytes it is written over. Even then its header is read back, size and all. */
  lemma RecordRoundTrip(b: Bytes, k: nat, r: LogRecord)
    requires RecordOk(r) && At(b, k, Written(r))
    ensures RecordOk(LogRecord(0, 0, 0, r.body)) && k + HEADER_SIZE <= |b|
    ensures ReadRecord(b, k) == Got((r, Size(r))) <==> Faithful(r.body)
    ensures ReadRecord(b, k) != Stop
    ensures ReadRecord(b, k).Got? ==> var (s, size) := ReadRecord(b, k).value; size == Size(r) && SameHeader(s, r)
  {
    AtSplit(b, k, HeaderBytes(r), Payload(r.body));
    HeaderBack(b, k, r);
    BodyBack(b, k + HEADER_SIZE, r.body);
  }

  /** Zeros hold no record. */
  lemma ZerosStop(b: Bytes, k: nat)
    requires k + HEADER_SIZE <= |b| && forall i :: k <= i < k + HEADER_SIZE ==> b[i] == 0
    ensures ReadRecord(b, k) == Stop
  {
    assert ReadInt(b, k + 16) == 0;
  }

  /** Old tuple "aaaa", new tuple "b": the overlap is not faithful. */
  lemma OverlapExample()
    ensures var u := Update(LogRid(0, 0), [97, 97, 97, 97], [98]); RecordOk(LogRecord(0, 0, 0, u)) && !Faithful(u)
  {
    assert EncodeInt(1)[0] == 1;
    assert Serialize([97, 97, 97, 97])[4] == 97;
  }
}
