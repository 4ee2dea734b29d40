// What the storage image guarantees.

module StorageTheorems {
  import opened Bytes
  import opened Crc16
  import opened MessageFrame
  import opened ParameterStore
  import opened StorageImage

  // ---- the image header ----

  lemma HeaderParts(count: u16)
    ensures var s := ImageHeader(count);
            && s[..4] == IMAGE_MAGIC && s[4..6] == LittleBytes(IMAGE_VERSION, 2)
            && s[6..8] == LittleBytes(count, 2) && s[..8] == ImageHeaderBase(count)
            && s[8..10] == LittleBytes(Crc(ImageHeaderBase(count)), 2)
  {
    hide LittleBytes, Crc;
  }

  // The checks pass for exactly one string of ten bytes.
  lemma HeaderAcceptedExactly(image: seq<byte>)
    ensures CheckImageHeader(image) == Ok
       <==> |image| >= IMAGE_HEADER_SIZE && image[..IMAGE_HEADER_SIZE] == ImageHeader(PARAMETER_COUNT)
  {
    hide LittleBytes, Crc, Word, ImageHeader, ImageHeaderBase;
    if |image| >= IMAGE_HEADER_SIZE {
      var s := image[..IMAGE_HEADER_SIZE];
      var h := ImageHeader(PARAMETER_COUNT);
      HeaderParts(PARAMETER_COUNT);
      WordBytes(IMAGE_VERSION);
      WordBytes(PARAMETER_COUNT);
      WordBytes(Crc(ImageHeaderBase(PARAMETER_COUNT)));
      assert image[..4] == s[..4] && image[4..6] == s[4..6] && image[6..8] == s[6..8];
      assert image[8..10] == s[8..10] && image[..8] == s[..8];
      if CheckImageHeader(image) == Ok {
        WordInjective(s[4..6], h[4..6]);
        WordInjective(s[6..8], h[6..8]);
        assert s[..8] == s[..4] + s[4..6] + s[6..8];
        assert h[..8] == h[..4] + h[4..6] + h[6..8];
        WordInjective(s[8..10], h[8..10]);
        assert s == s[..8] + s[8..10] && h == h[..8] + h[8..10];
      }
    }
  }

  // ---- the walk reads back what was joined ----

  lemma FrameSizeField(frame: seq<byte>)
    requires ReadFrame(frame).Frame?
    ensures |frame| >= HEADER_SIZE
    ensures |frame| == HEADER_SIZE + DecodeHeader(frame[..HEADER_SIZE]).payloadSize
  {
  }

  // Where the parts of a joined record lie.
  lemma RecordPlaced(before: seq<byte>, r: Record, rest: seq<byte>)
    requires |r.frame| >= HEADER_SIZE
    ensures var image, start := before + RecordBytes(r) + rest, |before| + 2;
            && |image| >= start + |r.frame|
            && image[|before|..start] == LittleBytes(Index(r.id), 2)
            && image[start..start + HEADER_SIZE] == r.frame[..HEADER_SIZE]
            && image[start..start + |r.frame|] == r.frame
  {
    hide LittleBytes;
    var id, frame := LittleBytes(Index(r.id), 2), r.frame;
    SliceInside(before, id + frame, rest, 0, 2);
    SliceInside(before, id + frame, rest, 2, HEADER_SIZE);
    SliceInside(before, id + frame, rest, 2, |frame|);
    SliceInside([], id, frame, 0, 2);
    SliceInside(id, frame, [], 0, HEADER_SIZE);
    SliceInside(id, frame, [], 0, |frame|);
    assert [] + id + frame == id + frame && id + frame + [] == id + frame;
  }

  lemma IdOfIndex(id: ParameterId)
    ensures IdAt(Index(id)) == id
  {
  }

  // At the start of a joined record the walk finds that record.
  lemma NextIsRecord(before: seq<byte>, r: Record, rest: seq<byte>, seen: set<ParameterId>)
    requires Framed(r) && r.id !in seen && r.offset == |before| + 2
    ensures NextRecord(before + RecordBytes(r) + rest, |before|, seen) == Next(r)
  {
    hide LittleBytes, Word, DecodeHeader, ReadFrame, RecordBytes, Index, IdAt;
    FrameSizeField(r.frame);
    RecordPlaced(before, r, rest);
    WordBytes(Index(r.id));
    IdOfIndex(r.id);
  }

  // Conversely, what the walk finds is a joined record.
  lemma RecordIsNext(image: seq<byte>, offset: nat, seen: set<ParameterId>)
    requires offset <= |image| && NextRecord(image, offset, seen).Next?
    ensures var r := NextRecord(image, offset, seen).record;
            && Framed(r)
            && image[offset..] == RecordBytes(r) + image[offset + 2 + |r.frame|..]
  {
    hide LittleBytes, Word, DecodeHeader, ReadFrame;
    var r := NextRecord(image, offset, seen).record;
    var start := offset + 2;
    WordValue(image[offset..start]);
    assert image[start..start + |r.frame|] == r.frame;
    assert image[offset..] == image[offset..start] + image[start..start + |r.frame|] + image[start + |r.frame|..];
  }

  ghost predicate Fresh(records: seq<Record>, seen: set<ParameterId>) {
    forall k :: 0 <= k < |records| ==> records[k].id !in seen
  }

  lemma JoinSplit(before: seq<byte>, records: seq<Record>)
    requires records != []
    ensures before + Join(records) == before + RecordBytes(records[0]) + Join(records[1..])
    ensures |before + RecordBytes(records[0])| == |before| + 2 + |records[0].frame|
  {
    RecordSize(records[0]);
    hide RecordBytes;
    Regroup(before, RecordBytes(records[0]), Join(records[1..]));
  }

  lemma RecordSize(r: Record)
    ensures |RecordBytes(r)| == 2 + |r.frame|
  {
    hide LittleBytes;
  }

  lemma Regroup(a: seq<byte>, b: seq<byte>, c: seq<byte>)
    ensures a + (b + c) == a + b + c
  {
  }

  lemma TailFresh(records: seq<Record>, seen: set<ParameterId>)
    requires records != [] && DistinctIds(records) && Fresh(records, seen)
    ensures DistinctIds(records[1..]) && Fresh(records[1..], seen + {records[0].id})
  {
  }

  // Walking joined records is folding the callback over them.
  lemma {:induction false} WalkIsFold<S>(before: seq<byte>, records: seq<Record>, index: nat, seen: set<ParameterId>,
                                         s: S, callback: Callback<S>)
    requires index + |records| == PARAMETER_COUNT
    requires forall k :: 0 <= k < |records| ==> Framed(records[k])
    requires InPlace(records, |before|) && DistinctIds(records) && Fresh(records, seen)
    ensures WalkFrom(before + Join(records), |before|, index, seen, s, callback)
         == FoldFrom(records, index, s, callback)
    decreases |records|
  {
    hide NextRecord, Framed, RecordBytes, DistinctIds;
    if records == [] {
      assert before + Join(records) == before;
    } else {
      var r, tail := records[0], records[1..];
      JoinSplit(before, records);
      NextIsRecord(before, r, Join(tail), seen);
      TailFresh(records, seen);
      hide Join, Fresh;
      WalkIsFold(before + RecordBytes(r), tail, index + 1, seen + {r.id}, callback(s, r).1, callback);
    }
  }

  lemma WalkComposed<S>(image: seq<byte>, records: seq<Record>, s: S, callback: Callback<S>)
    requires Composed(image, records)
    ensures Walk(image, s, callback) == FoldFrom(records, 0, s, callback)
  {
    hide CheckImageHeader, ImageHeader, WalkFrom, FoldFrom, Framed;
    var header := ImageHeader(PARAMETER_COUNT);
    HeaderAcceptedExactly(image);
    assert image[..IMAGE_HEADER_SIZE] == header;
    WalkIsFold(header, records, 0, {}, s, callback);
  }

  // A walk that succeeds has seen joined records, whatever the callback.
  lemma {:induction false} WalkFinds<S>(image: seq<byte>, offset: nat, index: nat, seen: set<ParameterId>,
                                        s: S, callback: Callback<S>)
      returns (records: seq<Record>)
    requires index <= PARAMETER_COUNT && offset <= |image|
    requires WalkFrom(image, offset, index, seen, s, callback).0.Succeeded()
    ensures index + |records| == PARAMETER_COUNT && image[offset..] == Join(records)
    ensures forall k :: 0 <= k < |records| ==> Framed(records[k])
    ensures InPlace(records, offset) && DistinctIds(records) && Fresh(records, seen)
    decreases PARAMETER_COUNT - index
  {
    hide NextRecord, Framed;
    if index == PARAMETER_COUNT {
      records := [];
    } else {
      var r := NextRecord(image, offset, seen).record;
      RecordIsNext(image, offset, seen);
      var tail := WalkFinds(image, offset + 2 + |r.frame|, index + 1, seen + {r.id}, callback(s, r).1, callback);
      records := [r] + tail;
      assert records[1..] == tail;
    }
  }

  lemma WalkComposes<S>(image: seq<byte>, s: S, callback: Callback<S>) returns (records: seq<Record>)
    requires Walk(image, s, callback).0.Succeeded()
    ensures Composed(image, records)
    ensures Walk(image, s, callback) == FoldFrom(records, 0, s, callback)
  {
    hide CheckImageHeader, ImageHeader, WalkFrom, FoldFrom, Framed;
    HeaderAcceptedExactly(image);
    records := WalkFinds(image, IMAGE_HEADER_SIZE, 0, {}, s, callback);
    assert image == image[..IMAGE_HEADER_SIZE] + image[IMAGE_HEADER_SIZE..];
    WalkComposed(image, records, s, callback);
  }

  // A callback that accepts every record.
  function AcceptAll<S(!new)>(s: S): Callback<S> {
    (t: S, r: Record) => (Ok, t)
  }

  lemma {:induction false} FoldAcceptAll(records: seq<Record>, index: nat)
    ensures FoldFrom(records, index, (), AcceptAll(())).0 == PersistenceResult(Ok, index + |records|, None)
    decreases |records|
  {
    if records != [] {
      FoldAcceptAll(records[1..], index + 1);
    }
  }

  // A byte string is accepted exactly when it is the header followed by one well-framed record per
  // parameter, in some order, and nothing else.
  lemma AcceptedExactly(image: seq<byte>)
    ensures Walk(image, (), AcceptAll(())).0.Succeeded() <==> exists records :: Composed(image, records)
  {
    hide Composed, Walk;
    if Walk(image, (), AcceptAll(())).0.Succeeded() {
      var records := WalkComposes(image, (), AcceptAll(()));
    }
    if records :| Composed(image, records) {
      WalkComposed(image, records, (), AcceptAll(()));
      FoldAcceptAll(records, 0);
      ComposedCount(image, records);
    }
  }

  lemma ComposedCount(image: seq<byte>, records: seq<Record>)
    requires Composed(image, records)
    ensures |records| == PARAMETER_COUNT
  {
  }

  // The ids of an accepted image are a permutation of all parameters.
  lemma EveryParameterOnce(image: seq<byte>, records: seq<Record>, id: ParameterId) returns (k: nat)
    requires Composed(image, records)
    ensures k < |records| && records[k].id == id
    ensures forall j :: 0 <= j < |records| && records[j].id == id ==> j == k
  {
    var a, b, c := records[0].id, records[1].id, records[2].id;
    assert a != b && a != c && b != c;
    k := if a == id then 0 else if b == id then 1 else 2;
  }

  // ---- what a walk that fails reports ----

  function IdsOf(records: seq<Record>): set<ParameterId> {
    if records == [] then {} else {records[0].id} + IdsOf(records[1..])
  }

  // Over records that the callback accepts the walk moves on to what lies behind them.
  lemma {:induction false} WalkOver<S>(before: seq<byte>, records: seq<Record>, rest: seq<byte>, index: nat,
                                       seen: set<ParameterId>, s: S, callback: Callback<S>)
    requires index + |records| <= PARAMETER_COUNT
    requires forall k :: 0 <= k < |records| ==> Framed(records[k])
    requires InPlace(records, |before|) && DistinctIds(records) && Fresh(records, seen)
    requires FoldFrom(records, index, s, callback).0.Succeeded()
    ensures WalkFrom(before + Join(records) + rest, |before|, index, seen, s, callback)
         == WalkFrom(before + Join(records) + rest, |before + Join(records)|, index + |records|,
                     seen + IdsOf(records), FoldFrom(records, index, s, callback).1, callback)
    decreases |records|
  {
    hide NextRecord, Framed, RecordBytes, DistinctIds;
    if records == [] {
      assert before + Join(records) == before && seen + IdsOf(records) == seen;
    } else {
      var r, tail := records[0], records[1..];
      JoinSplit(before, records);
      assert before + Join(records) + rest == before + RecordBytes(r) + (Join(tail) + rest);
      assert before + Join(records) + rest == before + RecordBytes(r) + Join(tail) + rest;
      NextIsRecord(before, r, Join(tail) + rest, seen);
      TailFresh(records, seen);
      assert seen + {r.id} + IdsOf(tail) == seen + IdsOf(records);
      hide Join, Fresh, IdsOf;
      WalkOver(before + RecordBytes(r), tail, rest, index + 1, seen + {r.id}, callback(s, r).1, callback);
    }
  }

  // The image header and some records, then anything.
  ghost predicate Begins(image: seq<byte>, records: seq<Record>, rest: seq<byte>) {
    && image == ImageHeader(PARAMETER_COUNT) + Join(records) + rest
    && (forall k :: 0 <= k < |records| ==> Framed(records[k]))
    && InPlace(records, IMAGE_HEADER_SIZE) && DistinctIds(records) && |records| <= PARAMETER_COUNT
  }

  lemma WalkBegins<S>(image: seq<byte>, records: seq<Record>, rest: seq<byte>, s: S, callback: Callback<S>)
    requires Begins(image, records, rest) && FoldFrom(records, 0, s, callback).0.Succeeded()
    ensures |Join(records)| + IMAGE_HEADER_SIZE + |rest| == |image|
    ensures Walk(image, s, callback)
         == WalkFrom(image, IMAGE_HEADER_SIZE + |Join(records)|, |records|, IdsOf(records),
                     FoldFrom(records, 0, s, callback).1, callback)
  {
    hide CheckImageHeader, ImageHeader, WalkFrom, FoldFrom, Framed, Join;
    var header := ImageHeader(PARAMETER_COUNT);
    HeaderAcceptedExactly(image);
    assert image[..IMAGE_HEADER_SIZE] == header;
    WalkOver(header, records, rest, 0, {}, s, callback);
    assert {} + IdsOf(records) == IdsOf(records);
  }

  // A frame lies at the front of the bytes, by the size its header gives.
  predicate HasFrame(bytes: seq<byte>) {
    && |bytes| >= HEADER_SIZE
    && var size := HEADER_SIZE + DecodeHeader(bytes[..HEADER_SIZE]).payloadSize;
       size <= MAX_IMAGE && size <= |bytes|
  }

  function FirstFrame(bytes: seq<byte>): (frame: seq<byte>)
    requires HasFrame(bytes)
    ensures |frame| <= |bytes|
  {
    bytes[..HEADER_SIZE + DecodeHeader(bytes[..HEADER_SIZE]).payloadSize]
  }

  // What the walk finds depends only on the bytes from there on.
  lemma NextBehind(image: seq<byte>, offset: nat, rest: seq<byte>, seen: set<ParameterId>)
    requires offset <= |image| && image[offset..] == rest
    ensures var next := NextRecord(image, offset, seen);
            if |rest| < 2 then next == Stop(ReadFailed, None)
            else if Word(rest[..2]) >= PARAMETER_COUNT then next == Stop(UnknownParameter, None)
            else
              var id := IdAt(Word(rest[..2]));
              if id in seen then next == Stop(DuplicateParameter, Some(id))
              else if !HasFrame(rest[2..]) || ReadFrame(FirstFrame(rest[2..])).Rejected? then
                next == Stop(InvalidBdsMessage, Some(id))
              else
                var frame := FirstFrame(rest[2..]);
                next == Next(Record(id, offset + 2, frame, ReadFrame(frame).header, ReadFrame(frame).payload))
  {
    hide Word, DecodeHeader, ReadFrame, IdAt;
    assert offset + |rest| == |image|;
    if |rest| >= 2 {
      assert image[offset..offset + 2] == rest[..2];
      var start, bytes := offset + 2, rest[2..];
      assert bytes == image[start..];
      if |bytes| >= HEADER_SIZE {
        assert image[start..start + HEADER_SIZE] == bytes[..HEADER_SIZE];
        var size := HEADER_SIZE + DecodeHeader(bytes[..HEADER_SIZE]).payloadSize;
        if size <= |bytes| {
          assert image[start..start + size] == bytes[..size];
        }
      }
    }
  }

  lemma {:induction false} JoinAppend(records: seq<Record>, r: Record)
    ensures Join(records + [r]) == Join(records) + RecordBytes(r)
  {
    hide RecordBytes;
    if records == [] {
      assert [r][1..] == [] && [] + [r] == [r];
      assert RecordBytes(r) + [] == [] + RecordBytes(r);
    } else {
      JoinAppend(records[1..], r);
      assert (records + [r])[1..] == records[1..] + [r];
      Regroup(RecordBytes(records[0]), Join(records[1..]), RecordBytes(r));
    }
  }

  lemma {:induction false} InPlaceAppend(records: seq<Record>, r: Record, start: nat)
    requires InPlace(records, start) && r.offset == start + |Join(records)| + 2
    ensures InPlace(records + [r], start)
    decreases |records|
  {
    if records == [] {
      assert ([] + [r])[1..] == [];
    } else {
      RecordSize(records[0]);
      hide RecordBytes;
      InPlaceAppend(records[1..], r, start + 2 + |records[0].frame|);
      assert (records + [r])[1..] == records[1..] + [r];
    }
  }

  lemma {:induction false} IdInside(records: seq<Record>, k: nat)
    requires k < |records|
    ensures records[k].id in IdsOf(records)
  {
    if k > 0 {
      IdInside(records[1..], k - 1);
    }
  }

  lemma DistinctAppend(records: seq<Record>, r: Record)
    requires DistinctIds(records) && r.id !in IdsOf(records)
    ensures DistinctIds(records + [r])
  {
    hide IdsOf;
    forall k | 0 <= k < |records| ensures records[k].id != r.id {
      IdInside(records, k);
    }
  }

  lemma {:induction false} FoldAppend<S>(records: seq<Record>, r: Record, index: nat, s: S, callback: Callback<S>)
    requires FoldFrom(records, index, s, callback).0.Succeeded()
    ensures FoldFrom(records, index, s, callback).0 == PersistenceResult(Ok, index + |records|, None)
    ensures var (status, t) := callback(FoldFrom(records, index, s, callback).1, r);
            FoldFrom(records + [r], index, s, callback)
            == (if status == Ok then PersistenceResult(Ok, index + |records| + 1, None)
                else PersistenceResult(status, index + |records|, Some(r.id)), t)
    decreases |records|
  {
    if records == [] {
      assert ([] + [r])[1..] == [];
    } else {
      FoldAppend(records[1..], r, index + 1, callback(s, records[0]).1, callback);
      assert (records + [r])[1..] == records[1..] + [r];
    }
  }

  lemma BeginsAppend(image: seq<byte>, records: seq<Record>, rest: seq<byte>, r: Record)
    requires Begins(image, records, rest) && |records| < PARAMETER_COUNT
    requires |rest| >= 2 + |r.frame| && rest[..2 + |r.frame|] == RecordBytes(r) && Framed(r)
    requires r.id !in IdsOf(records) && r.offset == IMAGE_HEADER_SIZE + |Join(records)| + 2
    ensures Begins(image, records + [r], rest[2 + |r.frame|..])
  {
    hide ImageHeader, Join, Framed, RecordBytes, IdsOf, InPlace, DistinctIds;
    JoinAppend(records, r);
    InPlaceAppend(records, r, IMAGE_HEADER_SIZE);
    DistinctAppend(records, r);
    Regrouped(ImageHeader(PARAMETER_COUNT), Join(records), rest, 2 + |r.frame|);
  }

  lemma Regrouped(a: seq<byte>, b: seq<byte>, c: seq<byte>, n: nat)
    requires n <= |c|
    ensures a + b + c == a + (b + c[..n]) + c[n..]
  {
    assert c == c[..n] + c[n..];
    Regroup(a, b, c[..n]);
  }

  // The whole decision at the first place where no accepted record lies yet: it is reported with the
  // number of records before it, with its id once that is known, and with the reason. Nothing there,
  // an unknown id, an id seen before; no frame, because the header or the size does not fit or a
  // checksum fails; or the callback's own refusal. Otherwise one more record is in place.
  lemma FailureReported<S>(image: seq<byte>, records: seq<Record>, rest: seq<byte>, s: S, callback: Callback<S>)
    requires Begins(image, records, rest) && FoldFrom(records, 0, s, callback).0.Succeeded()
    requires |records| < PARAMETER_COUNT
    ensures var (result, n) := (Walk(image, s, callback).0, |records|);
            if |rest| < 2 then result == PersistenceResult(ReadFailed, n, None)
            else if Word(rest[..2]) >= PARAMETER_COUNT then result == PersistenceResult(UnknownParameter, n, None)
            else
              var id := IdAt(Word(rest[..2]));
              if id in IdsOf(records) then result == PersistenceResult(DuplicateParameter, n, Some(id))
              else if !HasFrame(rest[2..]) || ReadFrame(FirstFrame(rest[2..])).Rejected? then
                result == PersistenceResult(InvalidBdsMessage, n, Some(id))
              else
                var frame := FirstFrame(rest[2..]);
                var r := Record(id, IMAGE_HEADER_SIZE + |Join(records)| + 2, frame, ReadFrame(frame).header,
                                ReadFrame(frame).payload);
                var status := callback(FoldFrom(records, 0, s, callback).1, r).0;
                if status != Ok then result == PersistenceResult(status, n, Some(id))
                else
                  && Begins(image, records + [r], rest[2 + |frame|..])
                  && FoldFrom(records + [r], 0, s, callback).0.Succeeded()
  {
    hide Join, FoldFrom, Begins, Word, DecodeHeader, ReadFrame, Walk, NextRecord, IdsOf, HasFrame, FirstFrame;
    hide LittleBytes, IdAt, Framed;
    WalkBegins(image, records, rest, s, callback);
    var offset := IMAGE_HEADER_SIZE + |Join(records)|;
    RestBehind(image, records, rest);
    NextBehind(image, offset, rest, IdsOf(records));
    var next := NextRecord(image, offset, IdsOf(records));
    if next.Next? {
      var r := next.record;
      FoundRecord(image, offset, rest, IdsOf(records));
      BeginsAppend(image, records, rest, r);
      FoldAppend(records, r, 0, s, callback);
    }
  }

  lemma FoundRecord(image: seq<byte>, offset: nat, rest: seq<byte>, seen: set<ParameterId>)
    requires offset <= |image| && image[offset..] == rest && NextRecord(image, offset, seen).Next?
    ensures var r := NextRecord(image, offset, seen).record;
            && Framed(r) && r.id !in seen && r.offset == offset + 2
            && |rest| >= 2 + |r.frame| && rest[..2 + |r.frame|] == RecordBytes(r)
  {
    RecordIsNext(image, offset, seen);
    var r := NextRecord(image, offset, seen).record;
    RecordSize(r);
    hide NextRecord, Framed, RecordBytes;
  }

  lemma RestBehind(image: seq<byte>, records: seq<Record>, rest: seq<byte>)
    requires Begins(image, records, rest)
    ensures IMAGE_HEADER_SIZE + |Join(records)| + |rest| == |image|
    ensures image[IMAGE_HEADER_SIZE + |Join(records)|..] == rest
  {
    hide ImageHeader, Join, Framed;
  }

  // Bytes behind the last record are an error of their own.
  lemma TrailingBytesReported<S>(image: seq<byte>, records: seq<Record>, rest: seq<byte>, s: S, callback: Callback<S>)
    requires Begins(image, records, rest) && FoldFrom(records, 0, s, callback).0.Succeeded()
    requires |records| == PARAMETER_COUNT && rest != []
    ensures Walk(image, s, callback).0 == PersistenceResult(InvalidRecordCount, PARAMETER_COUNT, None)
  {
    hide Join, FoldFrom, Begins, NextRecord, Walk;
    WalkBegins(image, records, rest, s, callback);
  }
}
