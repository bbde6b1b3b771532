/** What a failed append does to a log that is written on (db/log_writer.cc, AddRecord and EmitPhysicalRecord). */
module TornLog {
  import opened InternalKeys
  import opened Coding
  import opened LogWriter
  import opened LogReader

  /** A record one byte out of place is taken for the end of the file: the length is read from the wrong bytes. */
  lemma ShiftedRecordLost(crc: Checksum, x: byte, data: Slice)
    requires 1 <= |data| < 0x80
    ensures AllRecords(crc, true, [x] + Physical(crc, FULL, data), ORIGIN) == ([], [])
  {
    hide Fixed32, Mask, AllRecords, NextRecord, NextPhysical, Unmask, DecodeFixed32;
    var file := [x] + Physical(crc, FULL, data);
    var buffer := Refill(file, ORIGIN);
    NextUnfolds(crc, true, file, ORIGIN);
    NextUnfolds(crc, true, file, buffer);
    assert file[buffer.start..buffer.end] == file;
    assert file[5] as nat == |data|;
    assert NextPhysical(crc, true, file, ORIGIN) == Read(EOF, [], buffer.(start := buffer.end), []);
    NothingRead(crc, file);
  }

  lemma NothingRead(crc: Checksum, file: Slice)
    requires NextPhysical(crc, true, file, ORIGIN).code == EOF && NextPhysical(crc, true, file, ORIGIN).drops == []
    ensures AllRecords(crc, true, file, ORIGIN) == ([], [])
  {
    hide NextPhysical;
    EndsReading(NextPhysical(crc, true, file, ORIGIN).data, None);
  }

  /** The append of `a` fails with one byte taken; that of `b` succeeds, and a sync may follow. No reader ever finds `b`, and
      none is told that something is missing. */
  method LostBehindFailure(crc: Checksum, a: Slice, b: Slice) returns (file: Slice, first: bool, second: bool)
    requires |a| + |b| + 2 * HEADER_SIZE <= BLOCK_SIZE && 1 <= |b| < 0x80
    ensures !first && second && AllRecords(crc, true, file, ORIGIN) == ([], [])
  {
    hide AllRecords, Encoded, Physical;
    var writer := new Writer(crc);
    first := writer.TryAddRecord(a, 1);
    ghost var lost := writer.dest;
    second := writer.TryAddRecord(b, BLOCK_SIZE);
    file := writer.dest;
    OneFragment(crc, HEADER_SIZE + |a|, b);
    ShiftedRecordLost(crc, lost[0], b);
    assert lost == [lost[0]];
  }

  lemma OneFragment(crc: Checksum, at: nat, data: Slice)
    requires at + HEADER_SIZE + |data| <= BLOCK_SIZE
    ensures Encoded(crc, at, data, true) == Physical(crc, FULL, data)
  {
    EncodedStep(crc, at, data, true);
    assert data[..|data|] == data;
  }
}
