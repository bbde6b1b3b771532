/** Reading a damaged log (db/log_reader.cc): with checksums on, what is returned was written, piece by piece; and damage
    ends with the blocks it is in. */
module DamagedLog {
  import opened InternalKeys
  import opened Coding
  import opened LogWriter
  import opened LogReader

  // ---------------------------------------------------------------- what is returned was written

  /** A physical record stands in the file, with its checksum. */
  ghost predicate StandsAt(crc: Checksum, file: Slice, at: nat, kind: nat, data: Slice) {
    && FULL <= kind <= LAST && |data| < 0x1_0000 && at + HEADER_SIZE + |data| <= |file|
    && file[at..at + HEADER_SIZE + |data|] == Physical(crc, kind, data)
  }

  /** The record, or the rest of one, stands in the file from `from` on, in pieces of the right kinds and in order. */
  ghost predicate InPieces(crc: Checksum, file: Slice, from: nat, data: Slice, begin: bool)
    decreases if from <= |file| then |file| - from else 0
  {
    || (exists at: nat :: from <= at && StandsAt(crc, file, at, KindOf(begin, true), data))
    || (exists at: nat, n: nat ::
          && from <= at && n <= |data| && StandsAt(crc, file, at, KindOf(begin, false), data[..n])
          && InPieces(crc, file, at + HEADER_SIZE + n, data[n..], false))
  }

  lemma PiecesFromEarlier(crc: Checksum, file: Slice, early: nat, late: nat, data: Slice, begin: bool)
    requires early <= late && InPieces(crc, file, late, data, begin)
    ensures InPieces(crc, file, early, data, begin)
  {
    hide StandsAt;
  }

  /** Bytes whose length and checksum are right are a physical record. */
  lemma PhysicalBytes(crc: Checksum, b: Slice)
    requires |b| >= HEADER_SIZE && FULL <= b[6] as nat <= LAST && |b| - HEADER_SIZE == b[4] as nat + 0x100 * b[5] as nat
    requires Unmask(DecodeFixed32(b)) == crc(b[6..])
    ensures |b| - HEADER_SIZE < 0x1_0000 && b == Physical(crc, b[6] as nat, b[HEADER_SIZE..])
  {
    hide Fixed32, DecodeFixed32, Mask, Unmask;
    var data := b[HEADER_SIZE..];
    SameStart(b);
    Fixed32Unique(b[..4]);
    UnmaskRoundTrip(DecodeFixed32(b));
    assert b[6..] == [b[6]] + data;
    assert |data| % 0x100 == b[4] as nat && |data| / 0x100 == b[5] as nat;
    assert b == b[..4] + [b[4], b[5], b[6]] + data;
  }

  /** With checksums on, a physical read of one of the four types gives what stands there. */
  lemma ParseIsWritten(crc: Checksum, file: Slice, c: Cursor)
    requires InStep(file, c) && c.end - c.start >= HEADER_SIZE && FULL <= ParsePhysical(crc, true, file, c).code <= LAST
    ensures var r := ParsePhysical(crc, true, file, c);
            StandsAt(crc, file, c.start, r.code, r.data) && r.next.start == c.start + HEADER_SIZE + |r.data|
  {
    hide DecodeFixed32, Unmask, Physical, InStep;
    Inside(file, c);
    var header := file[c.start..c.end];
    var length := header[4] as nat + 0x100 * header[5] as nat;
    ParsedWhole(crc, file, c, header, length);
    var piece := header[..HEADER_SIZE + length];
    SamePiece(header, HEADER_SIZE + length);
    assert file[c.start..c.start + HEADER_SIZE + length] == piece;
    PhysicalBytes(crc, piece);
  }

  lemma Inside(file: Slice, c: Cursor)
    requires InStep(file, c)
    ensures c.start <= c.end <= |file|
  {
  }

  lemma ParsedWhole(crc: Checksum, file: Slice, c: Cursor, header: Slice, length: nat)
    requires InStep(file, c) && c.end - c.start >= HEADER_SIZE && FULL <= ParsePhysical(crc, true, file, c).code <= LAST
    requires header == file[c.start..c.end] && length == header[4] as nat + 0x100 * header[5] as nat
    ensures HEADER_SIZE + length <= |header| && Unmask(DecodeFixed32(header)) == crc(header[6..7 + length])
    ensures ParsePhysical(crc, true, file, c) == Read(header[6] as nat, header[7..7 + length], c.(start := c.start + HEADER_SIZE + length), [])
  {
    hide DecodeFixed32, Unmask, InStep;
  }

  lemma SamePiece(header: Slice, n: nat)
    requires HEADER_SIZE <= n <= |header|
    ensures var b := header[..n];
            DecodeFixed32(b) == DecodeFixed32(header) && b[6..] == header[6..n] && b[7..] == header[7..n]
    ensures header[..n][4] == header[4] && header[..n][5] == header[5] && header[..n][6] == header[6]
  {
  }

  lemma SameStart(b: Slice)
    requires |b| >= 4
    ensures DecodeFixed32(b) == DecodeFixed32(b[..4])
  {
  }

  lemma {:induction false} PhysicalIsWritten(crc: Checksum, file: Slice, c: Cursor)
    requires InStep(file, c) && FULL <= NextPhysical(crc, true, file, c).code <= LAST
    ensures var r := NextPhysical(crc, true, file, c);
            && r.next.start >= c.start + HEADER_SIZE + |r.data|
            && StandsAt(crc, file, r.next.start - HEADER_SIZE - |r.data|, r.code, r.data)
    decreases if c.eof then 0 else if c.end - c.start >= HEADER_SIZE then 1 else 2
  {
    hide ParsePhysical, StandsAt, NextPhysical;
    NextUnfolds(crc, true, file, c);
    if c.end - c.start >= HEADER_SIZE {
      ParseIsWritten(crc, file, c);
    } else {
      RefilledOnce(file, c);
      PhysicalIsWritten(crc, file, Refill(file, c));
    }
  }

  /** A short block is the last one. */
  lemma RefilledOnce(file: Slice, c: Cursor)
    requires InStep(file, c)
    ensures Refill(file, c).start >= c.start && (Refill(file, c).eof || Refill(file, c).end - Refill(file, c).start >= HEADER_SIZE)
  {
  }

  /** What one call of ReadRecord returns stands in the file as one record, or completes the fragments collected before. */
  lemma {:induction false} RecordIsWritten(crc: Checksum, file: Slice, c: Cursor, partial: Option<Slice>)
    requires InStep(file, c) && NextRecord(crc, true, file, c, partial).record.Some?
    ensures var x := NextRecord(crc, true, file, c, partial).record.value;
            || InPieces(crc, file, c.start, x, true)
            || (partial.Some? && partial.value <= x && InPieces(crc, file, c.start, x[|partial.value|..], false))
    decreases |file| - c.start
  {
    hide NextPhysical, StandsAt, InPieces, InStep, Refill;
    var p := NextPhysical(crc, true, file, c);
    AtStart(file, c);
    AtStart(file, p.next);
    var x := NextRecord(crc, true, file, c, partial).record.value;
    if FULL <= p.code <= LAST {
      PhysicalIsWritten(crc, file, c);
    }
    match Collect(p.code, p.data, partial)
    case Done(_, _) => LastPiece(crc, file, c.start, p.next.start, p.code, p.data, partial, x);
    case Again(next, _) =>
      RecordIsWritten(crc, file, p.next, next);
      Advances(file, c, crc, partial);
      if InPieces(crc, file, p.next.start, x, true) {
        PiecesFromEarlier(crc, file, c.start, p.next.start, x, true);
      } else {
        FirstPiece(crc, file, c.start, p.next.start, p.code, p.data, partial, next, x);
      }
  }

  lemma Advances(file: Slice, c: Cursor, crc: Checksum, partial: Option<Slice>)
    requires InStep(file, c) && Collect(NextPhysical(crc, true, file, c).code, NextPhysical(crc, true, file, c).data, partial).Again?
    ensures NextPhysical(crc, true, file, c).next.start > c.start
  {
    hide NextPhysical;
  }

  /** The piece that completes a record. */
  lemma LastPiece(crc: Checksum, file: Slice, start: nat, end: nat, code: nat, data: Slice, partial: Option<Slice>, x: Slice)
    requires Collect(code, data, partial).Done? && Collect(code, data, partial).record == Some(x)
    requires FULL <= code <= LAST ==> end >= start + HEADER_SIZE + |data| && StandsAt(crc, file, end - HEADER_SIZE - |data|, code, data)
    ensures InPieces(crc, file, start, x, true) ||
            (partial.Some? && partial.value <= x && InPieces(crc, file, start, x[|partial.value|..], false))
  {
    hide StandsAt;
    var at: nat := end - HEADER_SIZE - |data|;
    if code == FULL {
      assert StandsAt(crc, file, at, KindOf(true, true), x);
    } else {
      assert x[|partial.value|..] == data;
      assert StandsAt(crc, file, at, KindOf(false, true), data);
    }
  }

  /** A piece before others: the first of a record, or one that goes on. */
  lemma FirstPiece(crc: Checksum, file: Slice, start: nat, end: nat, code: nat, data: Slice, partial: Option<Slice>,
                   next: Option<Slice>, x: Slice)
    requires Collect(code, data, partial).Again? && Collect(code, data, partial).partial == next
    requires FULL <= code <= LAST ==> end >= start + HEADER_SIZE + |data| && StandsAt(crc, file, end - HEADER_SIZE - |data|, code, data)
    requires next.Some? && next.value <= x && InPieces(crc, file, end, x[|next.value|..], false)
    ensures InPieces(crc, file, start, x, true) ||
            (partial.Some? && partial.value <= x && InPieces(crc, file, start, x[|partial.value|..], false))
  {
    hide StandsAt;
    var at: nat := end - HEADER_SIZE - |data|;
    if code == FIRST {
      assert next.value == data && x[..|data|] == data;
      assert StandsAt(crc, file, at, KindOf(true, false), x[..|data|]);
    } else {
      var rest := x[|partial.value|..];
      assert rest[..|data|] == data && rest[|data|..] == x[|next.value|..];
      assert StandsAt(crc, file, at, KindOf(false, false), rest[..|data|]);
    }
  }

  /** Every record that is returned from any file was written there as a record: each of its pieces has a right checksum. */
  lemma {:induction false} ReturnedWasWritten(crc: Checksum, file: Slice, c: Cursor, i: nat)
    requires InStep(file, c) && i < |AllRecords(crc, true, file, c).0|
    ensures InPieces(crc, file, c.start, AllRecords(crc, true, file, c).0[i], true)
    decreases |file| - c.start
  {
    hide NextRecord, InPieces, InStep;
    var r := NextRecord(crc, true, file, c, None);
    AtStart(file, c);
    AtStart(file, r.next);
    if i == 0 {
      RecordIsWritten(crc, file, c, None);
    } else {
      ReturnedWasWritten(crc, file, r.next, i - 1);
      PiecesFromEarlier(crc, file, c.start, r.next.start, AllRecords(crc, true, file, c).0[i], true);
    }
  }

  // ---------------------------------------------------------------- damage ends with its blocks

  /** A record of type 5, with a right checksum, which the reader takes for its own sign of the end of the file. No writer
      makes one. */
  ghost predicate FalseEnd(crc: Checksum, file: Slice, at: nat) {
    && at + HEADER_SIZE <= |file| && file[at + 6] as nat == EOF
    && var length := file[at + 4] as nat + 0x100 * file[at + 5] as nat;
       && at + HEADER_SIZE + length <= |file|
       && Unmask(DecodeFixed32(file[at..])) == crc(file[at + 6..at + 7 + length])
  }

  /** One physical read does not go beyond the block, nor end the reading within the file. */
  lemma StaysInBlocks(crc: Checksum, file: Slice, c: Cursor, p: nat)
    requires InStep(file, c) && c.start + HEADER_SIZE <= p <= |file| && p % BLOCK_SIZE == 0
    requires forall at :: 0 <= at < p ==> !FalseEnd(crc, file, at)
    ensures var r := NextPhysical(crc, true, file, c);
            r.next.start <= p && r.code != EOF && InStep(file, r.next)
  {
    hide NextPhysical, ParsePhysical, FalseEnd;
    NextUnfolds(crc, true, file, c);
    BlocksBefore(file, c, p);
    if c.end - c.start >= HEADER_SIZE {
      ParseInBlock(crc, file, c, p);
    } else {
      NextUnfolds(crc, true, file, Refill(file, c));
      ParseInBlock(crc, file, Refill(file, c), p);
    }
  }

  lemma BlocksBefore(file: Slice, c: Cursor, p: nat)
    requires InStep(file, c) && c.start + HEADER_SIZE <= p <= |file| && p % BLOCK_SIZE == 0
    ensures c.end - c.start >= HEADER_SIZE ==> c.end <= p
    ensures c.end - c.start < HEADER_SIZE ==>
              !c.eof && var d := Refill(file, c); d.start < p && d.end <= p && d.end - d.start >= HEADER_SIZE && InStep(file, d)
  {
  }

  lemma ParseInBlock(crc: Checksum, file: Slice, c: Cursor, p: nat)
    requires InStep(file, c) && c.end - c.start >= HEADER_SIZE && c.end <= p <= |file| && c.start < p
    requires p % BLOCK_SIZE == 0 && forall at :: 0 <= at < p ==> !FalseEnd(crc, file, at)
    ensures var r := ParsePhysical(crc, true, file, c);
            r.next.start <= p && r.code != EOF && InStep(file, r.next)
  {
    hide Unmask, DecodeFixed32, FalseEnd;
    var header := file[c.start..c.end];
    var length := header[4] as nat + 0x100 * header[5] as nat;
    assert !FalseEnd(crc, file, c.start);
    NotAtEnd(file, c, p);
    if HEADER_SIZE + length <= |header| && header[6] as nat == EOF {
      if Unmask(DecodeFixed32(header)) == crc(header[6..7 + length]) {
        IsFalseEnd(crc, file, c, header, length);
      }
    }
  }

  lemma IsFalseEnd(crc: Checksum, file: Slice, c: Cursor, header: Slice, length: nat)
    requires c.start <= c.end <= |file| && header == file[c.start..c.end] && |header| >= HEADER_SIZE && header[6] as nat == EOF
    requires length == header[4] as nat + 0x100 * header[5] as nat && HEADER_SIZE + length <= |header|
    requires Unmask(DecodeFixed32(header)) == crc(header[6..7 + length])
    ensures FalseEnd(crc, file, c.start)
  {
    hide Unmask;
    var part := file[c.start + 6..c.start + 7 + length];
    forall i | 0 <= i < |part| ensures part[i] == header[6..7 + length][i] {
      assert header[6 + i] == file[c.start + 6 + i];
    }
    assert header[6..7 + length] == part;
    assert DecodeFixed32(file[c.start..]) == DecodeFixed32(header);
  }

  lemma NotAtEnd(file: Slice, c: Cursor, p: nat)
    requires InStep(file, c) && c.end - c.start >= HEADER_SIZE && c.end <= p <= |file| && p % BLOCK_SIZE == 0 && c.start < p
    ensures !c.eof
  {
  }

  /** The first piece of a record makes the reader forget what it had collected. */
  lemma FirstPieceForgets(crc: Checksum, file: Slice, c: Cursor, partial: Option<Slice>)
    requires InStep(file, c)
    requires NextPhysical(crc, true, file, c).code == FULL || NextPhysical(crc, true, file, c).code == FIRST
    ensures NextRecord(crc, true, file, c, partial).record == NextRecord(crc, true, file, c, None).record
    ensures NextRecord(crc, true, file, c, partial).next == NextRecord(crc, true, file, c, None).next
  {
    hide NextPhysical;
  }

  lemma BeginsWithFirst(crc: Checksum, file: Slice, c: Cursor, data: Slice)
    requires InStep(file, c) && Holds(file, c.start, Encoded(crc, c.start, data, true))
    requires c.start + |Encoded(crc, c.start, data, true)| <= |file|
    ensures NextPhysical(crc, true, file, c).code == FULL || NextPhysical(crc, true, file, c).code == FIRST
  {
    hide NextPhysical, Encoded, Physical, Pad, KindOf, Zeros, FragmentLength, InStep, Holds;
    EncodedStep(crc, c.start, data, true);
    var at := c.start + Pad(c.start);
    var n := FragmentLength(at, |data|);
    var piece := Physical(crc, KindOf(true, n == |data|), data[..n]);
    var more := if n == |data| then [] else Encoded(crc, at + HEADER_SIZE + n, data[n..], false);
    assert Zeros(Pad(c.start)) + piece + more == Zeros(Pad(c.start)) + (piece + more);
    PieceStands(file, c.start, piece, more);
    WholeStep(crc, true, file, c, KindOf(true, n == |data|), data[..n]);
    FirstKinds(n == |data|);
  }

  lemma FirstKinds(end: bool)
    ensures KindOf(true, end) == FULL || KindOf(true, end) == FIRST
  {
  }

  /** At the start of a block from which on the log is whole, the reader gets the first record there, whatever it had
      collected, and then the others. */
  lemma ReadsFromBlock(crc: Checksum, file: Slice, c: Cursor, partial: Option<Slice>, records: seq<Slice>)
    requires InStep(file, c) && records != [] && c.start <= |file| && file[c.start..] == Log(crc, c.start, records)
    ensures var r := NextRecord(crc, true, file, c, partial);
            r.record == Some(records[0]) && AllRecords(crc, true, file, r.next).0 == records[1..]
  {
    hide NextRecord, Encoded, InStep, AllRecords, NextPhysical, Complete;
    var first := Encoded(crc, c.start, records[0], true);
    WholeIsHeld(file, c.start, Log(crc, c.start, records));
    HoldsParts(file, c.start, first, Log(crc, c.start + |first|, records[1..]));
    CompleteIsLast(crc, c.start, records, |file|, |records|);
    assert records[..|records|] == records;
    LogRead(crc, true, file, c, records);
    ReadNext(crc, true, file, c, records);
    BeginsWithFirst(crc, file, c, records[0]);
    FirstPieceForgets(crc, file, c, partial);
  }

  lemma WholeIsHeld(file: Slice, at: nat, bytes: Slice)
    requires at <= |file| && file[at..] == bytes
    ensures Holds(file, at, bytes)
  {
    assert |file| - at == |bytes| && file[at..at + |bytes|] == file[at..];
  }

  /** In the trailer of the block before, the next block is read at once. */
  lemma TrailerSkipped(crc: Checksum, file: Slice, c: Cursor, partial: Option<Slice>, p: nat)
    requires InStep(file, c) && c.start < p < c.start + HEADER_SIZE && p <= |file| && p % BLOCK_SIZE == 0
    ensures InStep(file, Cursor(p, p, false))
    ensures NextRecord(crc, true, file, c, partial) == NextRecord(crc, true, file, Cursor(p, p, false), partial)
  {
    hide ParsePhysical;
    TrailerEnds(file, c, p);
    NextUnfolds(crc, true, file, c);
    NextUnfolds(crc, true, file, Cursor(p, p, false));
    assert Refill(file, c) == Refill(file, Cursor(p, p, false));
  }

  lemma TrailerEnds(file: Slice, c: Cursor, p: nat)
    requires InStep(file, c) && c.start < p < c.start + HEADER_SIZE && p <= |file| && p % BLOCK_SIZE == 0
    ensures !c.eof && c.end == p
  {
  }

  /** A record from before the block, or the first one in it. */
  lemma {:induction false} NextOrFirst(crc: Checksum, file: Slice, c: Cursor, partial: Option<Slice>, p: nat, records: seq<Slice>)
    requires InStep(file, c) && c.start <= p <= |file| && p % BLOCK_SIZE == 0 && records != [] && file[p..] == Log(crc, p, records)
    requires forall at :: 0 <= at < p ==> !FalseEnd(crc, file, at)
    ensures var r := NextRecord(crc, true, file, c, partial);
            && r.record.Some?
            && (r.next.start <= p || (r.record == Some(records[0]) && AllRecords(crc, true, file, r.next).0 == records[1..]))
    decreases |file| - c.start
  {
    hide NextPhysical, InStep, FalseEnd, Log, AllRecords;
    if c.start == p {
      ReadsFromBlock(crc, file, c, partial, records);
    } else if p < c.start + HEADER_SIZE {
      TrailerSkipped(crc, file, c, partial, p);
      ReadsFromBlock(crc, file, Cursor(p, p, false), partial, records);
    } else {
      StaysInBlocks(crc, file, c, p);
      var q := NextPhysical(crc, true, file, c);
      match Collect(q.code, q.data, partial)
      case Done(_, _) => NotTheEnd(q.code, q.data, partial);
      case Again(next, _) =>
        Advances(file, c, crc, partial);
        NextOrFirst(crc, file, q.next, next, p, records);
    }
  }

  lemma NotTheEnd(code: nat, data: Slice, partial: Option<Slice>)
    requires code != EOF && Collect(code, data, partial).Done?
    ensures Collect(code, data, partial).record.Some?
  {
  }

  /** Whatever the blocks before hold, the records that begin in later blocks are all read, in order and as the last ones. */
  lemma {:induction false} DamageEnds(crc: Checksum, file: Slice, c: Cursor, p: nat, records: seq<Slice>)
    requires InStep(file, c) && c.start <= p <= |file| && p % BLOCK_SIZE == 0 && file[p..] == Log(crc, p, records)
    requires forall at :: 0 <= at < p ==> !FalseEnd(crc, file, at)
    ensures var all := AllRecords(crc, true, file, c).0;
            |all| >= |records| && all[|all| - |records|..] == records
    decreases |file| - c.start
  {
    hide NextRecord, InStep, FalseEnd, Log;
    if records != [] {
      NextOrFirst(crc, file, c, None, p, records);
      var r := NextRecord(crc, true, file, c, None);
      var all, rest := AllRecords(crc, true, file, c).0, AllRecords(crc, true, file, r.next).0;
      assert all == [r.record.value] + rest;
      if r.next.start <= p {
        DamageEnds(crc, file, r.next, p, records);
        assert all[|all| - |records|..] == rest[|rest| - |records|..];
      } else {
        assert all == records;
      }
    }
  }
}
