/** The log reader (db/log_reader.cc), reading from the start of a file: a specification by functions of a cursor, the
    reader itself, and what it makes of a log that was cut off at any byte. */
module LogReader {
  import opened InternalKeys
  import opened Coding
  import opened LogWriter

  // What ReadPhysicalRecord returns besides the type of a record.
  const EOF: nat := 5
  const BAD_RECORD: nat := 6

  /** The buffer holds `file[start..end]`; `eof` tells that the last read met the end of the file. */
  datatype Cursor = Cursor(start: nat, end: nat, eof: bool)

  const ORIGIN: Cursor := Cursor(0, 0, false)

  /** Where a reader that only moves forward block by block can be. */
  predicate InStep(file: Slice, c: Cursor) {
    && c.start <= c.end <= |file| && c.end - c.start <= BLOCK_SIZE
    && if c.eof then c.end == |file| && |file| < c.start + Leftover(c.start)
       else c.end % BLOCK_SIZE == 0
  }

  /** Read the next block into the empty buffer. */
  function Refill(file: Slice, c: Cursor): Cursor
    requires InStep(file, c)
  {
    var end := if |file| - c.end < BLOCK_SIZE then |file| else c.end + BLOCK_SIZE;
    Cursor(c.end, end, end - c.end < BLOCK_SIZE)
  }

  /** What one physical read gives: a type or a special code, the payload, the numbers of bytes reported as dropped. */
  datatype Read = Read(code: nat, data: Slice, next: Cursor, drops: seq<nat>)

  function NextPhysical(crc: Checksum, checksum: bool, file: Slice, c: Cursor): (r: Read)
    requires InStep(file, c)
    ensures InStep(file, r.next)
    ensures r.code != EOF ==> r.next.start > c.start
    decreases if c.eof then 0 else if c.end - c.start >= HEADER_SIZE then 1 else 2
  {
    if c.end - c.start < HEADER_SIZE then
      if !c.eof then NextPhysical(crc, checksum, file, Refill(file, c))
      else Read(EOF, [], c.(start := c.end), [])
    else ParsePhysical(crc, checksum, file, c)
  }

  lemma NextUnfolds(crc: Checksum, checksum: bool, file: Slice, c: Cursor)
    requires InStep(file, c)
    ensures InStep(file, Refill(file, c))
    ensures NextPhysical(crc, checksum, file, c) ==
            if c.end - c.start >= HEADER_SIZE then ParsePhysical(crc, checksum, file, c)
            else if c.eof then Read(EOF, [], c.(start := c.end), [])
            else NextPhysical(crc, checksum, file, Refill(file, c))
  {
  }

  function ParsePhysical(crc: Checksum, checksum: bool, file: Slice, c: Cursor): (r: Read)
    requires InStep(file, c) && c.end - c.start >= HEADER_SIZE
    ensures InStep(file, r.next)
    ensures r.next.start > c.start
  {
    var header := file[c.start..c.end];
    var length := header[4] as nat + 0x100 * header[5] as nat;
    var kind := header[6] as nat;
    var cleared := c.(start := c.end);
    if HEADER_SIZE + length > |header| then
      if c.eof then Read(EOF, [], cleared, []) else Read(BAD_RECORD, [], cleared, [|header|])
    else if kind == 0 && length == 0 then Read(BAD_RECORD, [], cleared, [])
    else if checksum && Unmask(DecodeFixed32(header)) != crc(header[6..7 + length]) then
      Read(BAD_RECORD, [], cleared, [|header|])
    else Read(kind, header[7..7 + length], c.(start := c.start + HEADER_SIZE + length), [])
  }

  /** What one call of ReadRecord gives; `record` is None at the end of the file. */
  datatype Reading = Reading(record: Option<Slice>, next: Cursor, drops: seq<nat>)

  /** What ReadRecord does with one physical record, given the fragments collected before it. */
  datatype Turn = Done(record: Option<Slice>, drops: seq<nat>) | Again(partial: Option<Slice>, drops: seq<nat>)

  function Collect(code: nat, data: Slice, partial: Option<Slice>): Turn {
    var left := if partial.Some? && partial.value != [] then [|partial.value|] else [];
    if code == FULL then Done(Some(data), left)
    else if code == FIRST then Again(Some(data), left)
    else if code == MIDDLE then
      if partial.None? then Again(None, [|data|]) else Again(Some(partial.value + data), [])
    else if code == LAST then
      if partial.None? then Again(None, [|data|]) else Done(Some(partial.value + data), [])
    else if code == EOF then Done(None, [])
    else if code == BAD_RECORD then Again(None, if partial.Some? then [|partial.value|] else [])
    else Again(None, [|data| + if partial.Some? then |partial.value| else 0])
  }

  /** Take physical records, starting with the fragments in `partial` if a record is under way, until one is complete. */
  function NextRecord(crc: Checksum, checksum: bool, file: Slice, c: Cursor, partial: Option<Slice>): (r: Reading)
    requires InStep(file, c)
    ensures InStep(file, r.next)
    ensures r.record.Some? ==> r.next.start > c.start
    decreases |file| - c.start
  {
    var p := NextPhysical(crc, checksum, file, c);
    match Collect(p.code, p.data, partial)
    case Done(record, drops) => Reading(record, p.next, p.drops + drops)
    case Again(next, drops) =>
      var more := NextRecord(crc, checksum, file, p.next, next);
      more.(drops := p.drops + drops + more.drops)
  }

  /** Everything a reader returns and reports from a position to the end of the file. */
  function AllRecords(crc: Checksum, checksum: bool, file: Slice, c: Cursor): (seq<Slice>, seq<nat>)
    requires InStep(file, c)
    decreases |file| - c.start
  {
    var r := NextRecord(crc, checksum, file, c, None);
    if r.record.None? then ([], r.drops)
    else
      var more := AllRecords(crc, checksum, file, r.next);
      ([r.record.value] + more.0, r.drops + more.1)
  }

  // ---------------------------------------------------------------- reading what was written

  /** Where the next header is looked for: behind the trailer, if the position is in one. */
  lemma HeaderPosition(file: Slice, c: Cursor)
    requires InStep(file, c)
    ensures c.end - c.start >= HEADER_SIZE ==> Pad(c.start) == 0
    ensures c.end - c.start < HEADER_SIZE && !c.eof ==> c.start + Pad(c.start) == c.end
    ensures !c.eof && c.end > c.start ==> c.end == c.start + Leftover(c.start)
  {
  }

  lemma PhysicalHeader(crc: Checksum, kind: nat, data: Slice, bytes: Slice)
    requires FULL <= kind <= LAST && |data| < 0x1_0000
    requires |bytes| >= HEADER_SIZE
    requires if |bytes| >= HEADER_SIZE + |data| then Physical(crc, kind, data) <= bytes else bytes <= Physical(crc, kind, data)
    ensures bytes[4] as nat + 0x100 * bytes[5] as nat == |data| && bytes[6] as nat == kind
    ensures Unmask(DecodeFixed32(bytes)) == crc([kind as byte] + data)
    ensures |bytes| >= HEADER_SIZE + |data| ==>
              bytes[6..7 + |data|] == [kind as byte] + data && bytes[7..7 + |data|] == data
  {
    var sum := crc([kind as byte] + data);
    var stored := Fixed32(Mask(sum));
    var whole := Physical(crc, kind, data);
    assert whole[..4] == stored;
    assert bytes[..4] == stored;
    assert bytes == stored + bytes[4..];
    Fixed32RoundTrip(Mask(sum), bytes[4..]);
    MaskRoundTrip(sum);
    assert bytes[4] == whole[4] && bytes[5] == whole[5] && bytes[6] == whole[6];
    if |bytes| >= HEADER_SIZE + |data| {
      assert whole[6..] == [kind as byte] + data;
      assert bytes[..7 + |data|] == whole;
      assert bytes[6..7 + |data|] == bytes[..7 + |data|][6..];
    }
  }

  /** The reader gets the physical record that the file holds behind its position. */
  lemma WholeStep(crc: Checksum, checksum: bool, file: Slice, c: Cursor, kind: nat, data: Slice)
    requires InStep(file, c)
    requires var at := c.start + Pad(c.start);
             && Pad(at) == 0 && |data| <= Room(at)
             && at + HEADER_SIZE + |data| <= |file|
             && FULL <= kind <= LAST
             && file[at..at + HEADER_SIZE + |data|] == Physical(crc, kind, data)
    ensures var r := NextPhysical(crc, checksum, file, c);
            r.code == kind && r.data == data && r.drops == [] &&
            r.next.start == c.start + Pad(c.start) + HEADER_SIZE + |data|
  {
    HeaderPosition(file, c);
    if c.end - c.start < HEADER_SIZE {
      assert NextPhysical(crc, checksum, file, c) == NextPhysical(crc, checksum, file, Refill(file, c));
      ParseWhole(crc, checksum, file, Refill(file, c), kind, data);
    } else {
      ParseWhole(crc, checksum, file, c, kind, data);
    }
  }

  lemma ParseWhole(crc: Checksum, checksum: bool, file: Slice, c: Cursor, kind: nat, data: Slice)
    requires InStep(file, c) && c.end - c.start >= HEADER_SIZE && FULL <= kind <= LAST
    requires Pad(c.start) == 0 && |data| <= Room(c.start) && c.start + HEADER_SIZE + |data| <= |file|
    requires file[c.start..c.start + HEADER_SIZE + |data|] == Physical(crc, kind, data)
    ensures ParsePhysical(crc, checksum, file, c) == Read(kind, data, c.(start := c.start + HEADER_SIZE + |data|), [])
  {
    HeaderPosition(file, c);
    var header := file[c.start..c.end];
    assert header[..HEADER_SIZE + |data|] == file[c.start..c.start + HEADER_SIZE + |data|];
    PhysicalHeader(crc, kind, data, header);
  }

  /** Where the file ends inside a physical record, the reader sees the end of the file and reports nothing. */
  lemma CutStep(crc: Checksum, checksum: bool, file: Slice, c: Cursor, kind: nat, data: Slice)
    requires InStep(file, c)
    requires var at := c.start + Pad(c.start);
             && Pad(at) == 0 && |data| <= Room(at)
             && |file| < at + HEADER_SIZE + |data|
             && FULL <= kind <= LAST
             && (at <= |file| ==> file[at..] <= Physical(crc, kind, data))
    ensures var r := NextPhysical(crc, checksum, file, c);
            r.code == EOF && r.drops == []
  {
    HeaderPosition(file, c);
    if c.end - c.start < HEADER_SIZE {
      if !c.eof {
        var refilled := Refill(file, c);
        assert NextPhysical(crc, checksum, file, c) == NextPhysical(crc, checksum, file, refilled);
        if refilled.end - refilled.start >= HEADER_SIZE {
          ParseCut(crc, checksum, file, refilled, kind, data);
        }
      }
    } else {
      ParseCut(crc, checksum, file, c, kind, data);
    }
  }

  lemma ParseCut(crc: Checksum, checksum: bool, file: Slice, c: Cursor, kind: nat, data: Slice)
    requires InStep(file, c) && c.end - c.start >= HEADER_SIZE && FULL <= kind <= LAST
    requires Pad(c.start) == 0 && |data| <= Room(c.start) && |file| < c.start + HEADER_SIZE + |data|
    requires file[c.start..] <= Physical(crc, kind, data)
    ensures ParsePhysical(crc, checksum, file, c) == Read(EOF, [], c.(start := c.end), [])
  {
    HeaderPosition(file, c);
    var header := file[c.start..c.end];
    assert header <= file[c.start..];
    PhysicalHeader(crc, kind, data, header);
  }

  // ---------------------------------------------------------------- whole records

  /** The file holds `bytes` at `at`, as far as it goes. */
  predicate Holds(file: Slice, at: nat, bytes: Slice) {
    at <= |file| && if |file| - at >= |bytes| then file[at..at + |bytes|] == bytes else file[at..] == bytes[..|file| - at]
  }

  lemma HoldsParts(file: Slice, at: nat, a: Slice, b: Slice)
    requires Holds(file, at, a + b)
    ensures Holds(file, at, a)
    ensures at + |a| <= |file| ==> Holds(file, at + |a|, b)
  {
    var whole := a + b;
    if |file| - at >= |whole| {
      assert file[at..at + |whole|][..|a|] == a && file[at..at + |whole|][|a|..] == b;
    } else {
      var n := |file| - at;
      assert file[at..] == whole[..n];
      if n >= |a| {
        assert file[at..][..|a|] == whole[..n][..|a|] == a;
        assert file[at + |a|..] == file[at..][|a|..] == whole[..n][|a|..] == b[..n - |a|];
      } else {
        assert whole[..n] == a[..n];
      }
    }
  }

  function Joined(partial: Option<Slice>, data: Slice): Slice {
    (if partial.Some? then partial.value else []) + data
  }

  /** How the kinds of physical records that a writer chooses drive the reader. */
  lemma KindsCollect(begin: bool, end: bool, data: Slice, partial: Option<Slice>)
    requires begin <==> partial.None?
    ensures Collect(KindOf(begin, end), data, partial) ==
            if end then Done(Some(Joined(partial, data)), []) else Again(Some(Joined(partial, data)), [])
  {
    assert [] + data == data;
  }

  /** What is read of a record that stands at the reader's position: all of it, or the end of the file when it was cut. */
  lemma {:induction false} RecordRead(crc: Checksum, checksum: bool, file: Slice, c: Cursor, data: Slice, partial: Option<Slice>)
    requires InStep(file, c) && Holds(file, c.start, Encoded(crc, c.start, data, partial.None?))
    ensures var r := NextRecord(crc, checksum, file, c, partial);
            var after := c.start + |Encoded(crc, c.start, data, partial.None?)|;
            r.drops == [] &&
            if after <= |file| then r.record == Some(Joined(partial, data)) && r.next.start == after else r.record == None
    decreases |file| - c.start
  {
    hide NextPhysical, Encoded, Physical, Pad, KindOf, Zeros, FragmentLength, InStep, Holds, Collect;
    var begin := partial.None?;
    EncodedStep(crc, c.start, data, begin);
    var at := c.start + Pad(c.start);
    var n := FragmentLength(at, |data|);
    var kind := KindOf(begin, n == |data|);
    var piece := Physical(crc, kind, data[..n]);
    var more := if n == |data| then [] else Encoded(crc, at + HEADER_SIZE + n, data[n..], false);
    assert Zeros(Pad(c.start)) + piece + more == Zeros(Pad(c.start)) + (piece + more);
    PieceStands(file, c.start, piece, more);
    KindsCollect(begin, n == |data|, data[..n], partial);
    if at + HEADER_SIZE + n > |file| {
      CutStep(crc, checksum, file, c, kind, data[..n]);
      EndsReading(NextPhysical(crc, checksum, file, c).data, partial);
    } else {
      WholeStep(crc, checksum, file, c, kind, data[..n]);
      var p := NextPhysical(crc, checksum, file, c);
      if n < |data| {
        RecordRead(crc, checksum, file, p.next, data[n..], Some(Joined(partial, data[..n])));
        assert Joined(partial, data[..n]) + data[n..] == Joined(partial, data);
      } else {
        assert data[..n] == data;
      }
    }
  }

  lemma EndsReading(data: Slice, partial: Option<Slice>)
    ensures Collect(EOF, data, partial) == Done(None, [])
  {
  }

  lemma PieceStands(file: Slice, start: nat, piece: Slice, more: Slice)
    requires Holds(file, start, Zeros(Pad(start)) + (piece + more))
    ensures var at := start + Pad(start);
            && (at <= |file| && at + |piece| > |file| ==> file[at..] <= piece)
            && (at + |piece| <= |file| ==> file[at..at + |piece|] == piece && Holds(file, at + |piece|, more))
  {
    var at := start + Pad(start);
    HoldsParts(file, start, Zeros(Pad(start)), piece + more);
    if at <= |file| {
      HoldsParts(file, at, piece, more);
    }
  }

  /** How many of the records, written from `at` on, end at or before `cut`. */
  function Complete(crc: Checksum, at: nat, records: seq<Slice>, cut: nat): (k: nat)
    ensures k <= |records|
    decreases |records|
  {
    if records == [] then 0
    else
      var after := at + |Encoded(crc, at, records[0], true)|;
      if after > cut then 0 else 1 + Complete(crc, after, records[1..], cut)
  }

  lemma {:induction false} CompleteIsLast(crc: Checksum, at: nat, records: seq<Slice>, cut: nat, k: nat)
    requires at <= cut && k <= |records|
    ensures k <= Complete(crc, at, records, cut) <==> at + |Log(crc, at, records[..k])| <= cut
    decreases |records|
  {
    if k > 0 {
      var after := at + |Encoded(crc, at, records[0], true)|;
      assert records[..k][1..] == records[1..][..k - 1];
      if after <= cut {
        CompleteIsLast(crc, after, records[1..], cut, k - 1);
      }
    }
  }

  lemma {:induction false} LogRead(crc: Checksum, checksum: bool, file: Slice, c: Cursor, records: seq<Slice>)
    requires InStep(file, c) && |file| <= c.start + |Log(crc, c.start, records)|
    requires Holds(file, c.start, Log(crc, c.start, records))
    ensures AllRecords(crc, checksum, file, c) == (records[..Complete(crc, c.start, records, |file|)], [])
    decreases |records|
  {
    hide NextRecord, Encoded, InStep, Holds, AllRecords;
    AtStart(file, c);
    AllRecordsStep(crc, checksum, file, c);
    if records == [] {
      EndOfFile(crc, checksum, file, c);
    } else {
      var first := Encoded(crc, c.start, records[0], true);
      HoldsParts(file, c.start, first, Log(crc, c.start + |first|, records[1..]));
      RecordRead(crc, checksum, file, c, records[0], None);
      assert Joined(None, records[0]) == records[0];
      if c.start + |first| <= |file| {
        LogRead(crc, checksum, file, NextRecord(crc, checksum, file, c, None).next, records[1..]);
        var k := Complete(crc, c.start + |first|, records[1..], |file|);
        assert [records[0]] + records[1..][..k] == records[..k + 1];
      }
    }
  }

  lemma AllRecordsStep(crc: Checksum, checksum: bool, file: Slice, c: Cursor)
    requires InStep(file, c)
    ensures var r := NextRecord(crc, checksum, file, c, None);
            r.drops == [] ==>
              AllRecords(crc, checksum, file, c) ==
              if r.record.None? then ([], [])
              else ([r.record.value] + AllRecords(crc, checksum, file, r.next).0, AllRecords(crc, checksum, file, r.next).1)
  {
    hide NextRecord;
    var r := NextRecord(crc, checksum, file, c, None);
    if r.record.Some? {
      var more := AllRecords(crc, checksum, file, r.next);
      assert [] + more.1 == more.1;
    }
  }

  /** A reader that has `records` left, with no report, returns the first of them next. */
  lemma ReadNext(crc: Checksum, checksum: bool, file: Slice, c: Cursor, records: seq<Slice>)
    requires InStep(file, c) && AllRecords(crc, checksum, file, c) == (records, [])
    ensures var r := NextRecord(crc, checksum, file, c, None);
            if records == [] then r.record == None
            else r.record == Some(records[0]) && AllRecords(crc, checksum, file, r.next) == (records[1..], [])
  {
    hide NextRecord;
  }

  lemma AtStart(file: Slice, c: Cursor)
    requires InStep(file, c)
    ensures c.start <= |file|
  {
  }

  lemma EndOfFile(crc: Checksum, checksum: bool, file: Slice, c: Cursor)
    requires InStep(file, c) && c.start == |file|
    ensures NextRecord(crc, checksum, file, c, None).record == None && NextRecord(crc, checksum, file, c, None).drops == []
  {
    if !c.eof {
      var refilled := Refill(file, c);
      assert refilled == Cursor(|file|, |file|, true);
      assert NextPhysical(crc, checksum, file, c) == NextPhysical(crc, checksum, file, refilled);
    }
    assert NextPhysical(crc, checksum, file, c).code == EOF;
  }

  /** A log cut off at any byte reads as exactly the records that lie wholly before the cut, and nothing is reported. */
  lemma CutLogReads(crc: Checksum, checksum: bool, records: seq<Slice>, cut: nat)
    requires cut <= |Log(crc, 0, records)|
    ensures AllRecords(crc, checksum, Log(crc, 0, records)[..cut], ORIGIN) == (records[..Complete(crc, 0, records, cut)], [])
  {
    LogRead(crc, checksum, Log(crc, 0, records)[..cut], ORIGIN, records);
  }

  /** A whole log reads as all of its records. */
  lemma LogRoundTrip(crc: Checksum, checksum: bool, records: seq<Slice>)
    ensures AllRecords(crc, checksum, Log(crc, 0, records), ORIGIN) == (records, [])
  {
    var file := Log(crc, 0, records);
    CutLogReads(crc, checksum, records, |file|);
    CompleteIsLast(crc, 0, records, |file|, |records|);
    assert file[..|file|] == file && records[..|records|] == records;
  }

  // ---------------------------------------------------------------- the reader

  class Reader {
    const crc: Checksum
    const checksum: bool
    const file: Slice
    /** Bytes of the file read so far, and those of them not yet parsed. */
    var position: nat
    var buffer: Slice
    var eof: bool
    /** The numbers of bytes told to the reporter. */
    var reported: seq<nat>

    ghost function At(): Cursor
      reads this
    {
      Cursor(if |buffer| <= position then position - |buffer| else 0, position, eof)
    }

    ghost predicate Valid()
      reads this
    {
      InStep(file, At()) && buffer == file[At().start..position]
    }

    constructor (crc: Checksum, checksum: bool, file: Slice)
      ensures Valid() && At() == ORIGIN && reported == []
      ensures this.crc == crc && this.checksum == checksum && this.file == file
    {
      this.crc, this.checksum, this.file := crc, checksum, file;
      position, buffer, eof, reported := 0, [], false, [];
    }

    /** Read the next block when less than a header is left; false at the end of the file. */
    method FillBuffer() returns (more: bool)
      requires Valid()
      modifies this
      ensures Valid() && reported == old(reported)
      ensures more ==> |buffer| >= HEADER_SIZE && NextPhysical(crc, checksum, file, old(At())) == ParsePhysical(crc, checksum, file, At())
      ensures !more ==> NextPhysical(crc, checksum, file, old(At())) == Read(EOF, [], At(), [])
    {
      hide ParsePhysical, NextPhysical;
      while |buffer| < HEADER_SIZE
        invariant Valid() && reported == old(reported)
        invariant NextPhysical(crc, checksum, file, At()) == NextPhysical(crc, checksum, file, old(At()))
        decreases if eof then 0 else if |buffer| >= HEADER_SIZE then 1 else 2
      {
        NextUnfolds(crc, checksum, file, At());
        if eof {
          buffer := [];
          return false;
        }
        ghost var refilled := Refill(file, At());
        var end := if |file| - position < BLOCK_SIZE then |file| else position + BLOCK_SIZE;
        buffer := file[position..end];
        eof := end - position < BLOCK_SIZE;
        position := end;
        assert At() == refilled;
      }
      NextUnfolds(crc, checksum, file, At());
      more := true;
    }

    method ReadPhysicalRecord() returns (code: nat, data: Slice)
      requires Valid()
      modifies this
      ensures Valid()
      ensures var r := NextPhysical(crc, checksum, file, old(At()));
              code == r.code && data == r.data && At() == r.next && reported == old(reported) + r.drops
    {
      hide NextPhysical, DecodeFixed32, Unmask, Leftover;
      var more := FillBuffer();
      if !more {
        return EOF, [];
      }
      ghost var c := At();
      ghost var r := ParsePhysical(crc, checksum, file, c);
      var header := buffer;
      var length := header[4] as nat + 0x100 * header[5] as nat;
      var kind := header[6] as nat;
      if HEADER_SIZE + length > |header| {
        code, data := if eof then EOF else BAD_RECORD, [];
        if !eof {
          reported := reported + [|header|];
        }
        buffer := [];
      } else if kind == 0 && length == 0 {
        code, data, buffer := BAD_RECORD, [], [];
      } else if checksum && Unmask(DecodeFixed32(header)) != crc(header[6..7 + length]) {
        code, data, buffer := BAD_RECORD, [], [];
        reported := reported + [|header|];
      } else {
        buffer := buffer[HEADER_SIZE + length..];
        code, data := kind, header[7..7 + length];
      }
      assert At() == r.next;
    }

    method ReadRecord() returns (record: Option<Slice>)
      requires Valid()
      modifies this
      ensures Valid()
      ensures var r := NextRecord(crc, checksum, file, old(At()), None);
              record == r.record && At() == r.next && reported == old(reported) + r.drops
    {
      hide NextPhysical, NextRecord, Continues, InStep;
      ghost var whole := NextRecord(crc, checksum, file, At(), None);
      ContinuesAtStart(crc, checksum, file, At(), reported);
      var inFragmentedRecord, scratch := false, [];
      while true
        invariant Valid()
        invariant !inFragmentedRecord ==> scratch == []
        invariant Continues(crc, checksum, file, whole, old(reported), At(), reported, if inFragmentedRecord then Some(scratch) else None)
        decreases |file| - At().start
      {
        ghost var partial := if inFragmentedRecord then Some(scratch) else None;
        ContinueStep(crc, checksum, file, whole, old(reported), At(), reported, partial);
        StartsInside();
        var code, fragment := ReadPhysicalRecord();
        StartsInside();
        ghost var after := reported;
        if code == FULL {
          if inFragmentedRecord && scratch != [] {
            reported := reported + [|scratch|];
          }
          return Some(fragment);
        } else if code == FIRST {
          if inFragmentedRecord && scratch != [] {
            reported := reported + [|scratch|];
          }
          scratch, inFragmentedRecord := fragment, true;
        } else if code == MIDDLE {
          if !inFragmentedRecord {
            reported := reported + [|fragment|];
          } else {
            scratch := scratch + fragment;
          }
        } else if code == LAST {
          if !inFragmentedRecord {
            reported := reported + [|fragment|];
          } else {
            return Some(scratch + fragment);
          }
        } else if code == EOF {
          return None;
        } else if code == BAD_RECORD {
          if inFragmentedRecord {
            reported := reported + [|scratch|];
            inFragmentedRecord, scratch := false, [];
          }
        } else {
          reported := reported + [|fragment| + if inFragmentedRecord then |scratch| else 0];
          inFragmentedRecord, scratch := false, [];
        }
        assert reported == after + reported[|after|..];
        assert Collect(code, fragment, partial) == Again(if inFragmentedRecord then Some(scratch) else None, reported[|after|..]);
      }
    }

    lemma StartsInside()
      requires Valid()
      ensures At().start <= |file|
    {
    }
  }

  /** Read the next of the records that are left. */
  method NextLogRecord(reader: Reader, ghost records: seq<Slice>) returns (record: Option<Slice>)
    requires reader.Valid()
    requires AllRecords(reader.crc, reader.checksum, reader.file, reader.At()) == (records, [])
    modifies reader
    ensures reader.Valid()
    ensures record == if records == [] then None else Some(records[0])
    ensures records != [] ==> AllRecords(reader.crc, reader.checksum, reader.file, reader.At()) == (records[1..], [])
  {
    hide AllRecords, NextRecord;
    ReadNext(reader.crc, reader.checksum, reader.file, reader.At(), records);
    record := reader.ReadRecord();
  }

  /** The reading `whole` goes on from `c`, after the reports `reported`, with the fragments in `partial`. */
  ghost predicate Continues(crc: Checksum, checksum: bool, file: Slice, whole: Reading, before: seq<nat>,
                            c: Cursor, reported: seq<nat>, partial: Option<Slice>)
    requires InStep(file, c)
  {
    var rest := NextRecord(crc, checksum, file, c, partial);
    whole.record == rest.record && whole.next == rest.next && before + whole.drops == reported + rest.drops
  }

  lemma ContinuesAtStart(crc: Checksum, checksum: bool, file: Slice, c: Cursor, reported: seq<nat>)
    requires InStep(file, c)
    ensures Continues(crc, checksum, file, NextRecord(crc, checksum, file, c, None), reported, c, reported, None)
  {
  }

  lemma ContinueStep(crc: Checksum, checksum: bool, file: Slice, whole: Reading, before: seq<nat>,
                     c: Cursor, reported: seq<nat>, partial: Option<Slice>)
    requires InStep(file, c) && Continues(crc, checksum, file, whole, before, c, reported, partial)
    ensures var p := NextPhysical(crc, checksum, file, c);
            match Collect(p.code, p.data, partial)
            case Done(record, drops) =>
              whole.record == record && whole.next == p.next && before + whole.drops == reported + p.drops + drops
            case Again(next, drops) =>
              Continues(crc, checksum, file, whole, before, p.next, reported + p.drops + drops, next)
  {
    hide NextPhysical, InStep, Collect;
    var p := NextPhysical(crc, checksum, file, c);
    match Collect(p.code, p.data, partial)
    case Done(_, drops) =>
      assert reported + (p.drops + drops) == reported + p.drops + drops;
    case Again(next, drops) =>
      var more := NextRecord(crc, checksum, file, p.next, next);
      Regroup(reported, p.drops, drops, more.drops);
  }
}
