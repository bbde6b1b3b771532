/** The log format and its writer (db/log_format.h, db/log_writer.cc). A log is a sequence of blocks of fixed size; a
    record is cut into physical records, none of which crosses a block. */
module LogWriter {
  import opened InternalKeys
  import opened Coding

  const BLOCK_SIZE: nat := 32768
  const HEADER_SIZE: nat := 7

  const FULL: nat := 1
  const FIRST: nat := 2
  const MIDDLE: nat := 3
  const LAST: nat := 4

  /** The checksum of the type byte followed by the payload. */
  type Checksum = Slice -> uint32

  /** Bytes left in the block that holds file offset `at`. */
  function Leftover(at: nat): (n: nat)
    ensures 1 <= n <= BLOCK_SIZE && (at + n) % BLOCK_SIZE == 0
  {
    BLOCK_SIZE - at % BLOCK_SIZE
  }

  /** The trailer that a writer at `at` must fill before the next header. */
  function Pad(at: nat): nat {
    if Leftover(at) < HEADER_SIZE then Leftover(at) else 0
  }

  function Zeros(n: nat): (b: Slice)
    ensures |b| == n && forall i :: 0 <= i < n ==> b[i] == 0
  {
    seq(n, _ => 0)
  }

  /** A physical record: checksum, length and type, then the payload. */
  function Physical(crc: Checksum, kind: nat, data: Slice): (b: Slice)
    requires FULL <= kind <= LAST && |data| < 0x1_0000
    ensures |b| == HEADER_SIZE + |data|
  {
    Fixed32(Mask(crc([kind as byte] + data))) + [(|data| % 0x100) as byte, (|data| / 0x100) as byte, kind as byte] + data
  }

  /** How much of a record fits behind a header at `at`, which is not in a trailer. */
  function Room(at: nat): nat
    requires Pad(at) == 0
  {
    Leftover(at) - HEADER_SIZE
  }

  function FragmentLength(at: nat, left: nat): (n: nat)
    requires Pad(at) == 0
    ensures n <= left && n <= Room(at)
  {
    if left < Room(at) then left else Room(at)
  }

  function KindOf(begin: bool, end: bool): (kind: nat)
    ensures FULL <= kind <= LAST
  {
    if begin && end then FULL else if begin then FIRST else if end then LAST else MIDDLE
  }

  /** All bytes that a record, or the rest of one, takes when it is written at file offset `at`. */
  function Encoded(crc: Checksum, at: nat, data: Slice, begin: bool): (b: Slice)
    ensures |b| >= HEADER_SIZE
    decreases |data|, if at % BLOCK_SIZE == 0 then 0 else 1
  {
    Zeros(Pad(at)) + Fragments(crc, at + Pad(at), data, begin)
  }

  /** The physical records from a header position on. */
  function Fragments(crc: Checksum, at: nat, data: Slice, begin: bool): (b: Slice)
    requires Pad(at) == 0
    ensures |b| >= HEADER_SIZE
    decreases |data|, if at % BLOCK_SIZE == 0 then 0 else 1, 0
  {
    var n := FragmentLength(at, |data|);
    var piece := Physical(crc, KindOf(begin, n == |data|), data[..n]);
    if n == |data| then piece else piece + Encoded(crc, at + HEADER_SIZE + n, data[n..], false)
  }

  /** The bytes of several records written one after the other from file offset `at` on. */
  function Log(crc: Checksum, at: nat, records: seq<Slice>): Slice
    decreases |records|
  {
    if records == [] then []
    else
      var first := Encoded(crc, at, records[0], true);
      first + Log(crc, at + |first|, records[1..])
  }

  lemma {:induction false} LogAppend(crc: Checksum, at: nat, a: seq<Slice>, b: seq<Slice>)
    decreases |a|
    ensures Log(crc, at, a + b) == Log(crc, at, a) + Log(crc, at + |Log(crc, at, a)|, b)
  {
    if a == [] {
      assert a + b == b;
    } else {
      var first := Encoded(crc, at, a[0], true);
      assert (a + b)[1..] == a[1..] + b;
      LogAppend(crc, at + |first|, a[1..], b);
    }
  }

  lemma LogOne(crc: Checksum, at: nat, record: Slice)
    ensures Log(crc, at, [record]) == Encoded(crc, at, record, true)
  {
    var first := Encoded(crc, at, record, true);
    assert Log(crc, at + |first|, []) == [];
    assert [record][1..] == [];
  }

  /** One turn of the writer's loop: trailer, one physical record, and the rest of the record if there is any. */
  lemma EncodedStep(crc: Checksum, at: nat, data: Slice, begin: bool)
    ensures var head := at + Pad(at);
            && Pad(head) == 0
            && var n := FragmentLength(head, |data|);
               Encoded(crc, at, data, begin) ==
               Zeros(Pad(at)) + Physical(crc, KindOf(begin, n == |data|), data[..n]) +
               if n == |data| then [] else Encoded(crc, head + HEADER_SIZE + n, data[n..], false)
  {
    PadOnce(at);
  }

  lemma PadOnce(at: nat)
    ensures Pad(at + Pad(at)) == 0
  {
  }

  /** What the writer's offset in the block tells about the file offset. */
  lemma TrailerStep(blockOffset: nat, at: nat)
    requires blockOffset <= BLOCK_SIZE && blockOffset % BLOCK_SIZE == at % BLOCK_SIZE
    ensures var leftover := BLOCK_SIZE - blockOffset;
            && Pad(at) == (if leftover < HEADER_SIZE then leftover else 0)
            && |Zeros(Pad(at))| == Pad(at)
            && (leftover < HEADER_SIZE ==> (at + leftover) % BLOCK_SIZE == 0)
  {
  }

  lemma HeaderStep(blockOffset: nat, at: nat, left: nat)
    requires blockOffset + HEADER_SIZE <= BLOCK_SIZE && blockOffset % BLOCK_SIZE == at % BLOCK_SIZE
    ensures Pad(at) == 0
    ensures var avail := BLOCK_SIZE - blockOffset - HEADER_SIZE;
            FragmentLength(at, left) == if left < avail then left else avail
    ensures FragmentLength(at, left) == 0 < left ==> (at + HEADER_SIZE) % BLOCK_SIZE == 0 && at % BLOCK_SIZE != 0
  {
  }

  /** The part of the bytes that a file takes which has room for so many more. */
  function Take(b: Slice, room: nat): (r: Slice)
    ensures |r| == if room < |b| then room else |b|
    ensures room == 0 ==> r == []
  {
    if room < |b| then b[..room] else b
  }

  /** Three appends, where the file may be full after any of them. */
  lemma TakeParts(a: Slice, b: Slice, c: Slice, room: nat)
    requires b != []
    ensures var left := room - |Take(a, room)|;
            var last := left - |Take(b, left)|;
            && left >= 0 && last >= 0
            && Take(a + b + c, room) == Take(a, room) + Take(b, left) + Take(c, last)
            && (|b| > left ==> Take(c, last) == [] && |a + b + c| > room)
            && (|b| <= left ==> (|c| <= last <==> |a + b + c| <= room))
  {
  }

  lemma TakeTwo(dest: Slice, a: Slice, b: Slice, room: nat)
    ensures dest + Take(a + b, room) == if room < |a| then dest + Take(a, room) else dest + Take(a, room) + Take(b, room - |a|)
    ensures room >= |a| ==> Take(a, room) == a
  {
  }

  lemma NothingTaken(dest: Slice, room: nat)
    ensures Take(Zeros(0), room) == [] && dest + [] == dest
  {
  }

  /** With the bytes still to come the file will be what one append of all of them makes of it. */
  ghost predicate StillToCome(dest: Slice, rest: Slice, room: nat, was: Slice, all: Slice, whole: nat) {
    dest + Take(rest, room) == was + Take(all, whole) && (|rest| <= room <==> |all| <= whole)
  }

  /** Where a record stands matters only by the place in the block. */
  lemma {:induction false} SamePlace(crc: Checksum, at: nat, other: nat, data: Slice, begin: bool)
    requires at % BLOCK_SIZE == other % BLOCK_SIZE
    ensures Encoded(crc, at, data, begin) == Encoded(crc, other, data, begin)
    decreases |data|, if at % BLOCK_SIZE == 0 then 0 else 1
  {
    hide Encoded, Physical, Zeros, KindOf;
    EncodedStep(crc, at, data, begin);
    EncodedStep(crc, other, data, begin);
    var head, next := at + Pad(at), other + Pad(other);
    var n := FragmentLength(head, |data|);
    SameRemainder(at, other, Pad(at));
    SameRemainder(head, next, HEADER_SIZE + n);
    if n < |data| {
      if n == 0 {
        FragmentEnds(head, |data|);
      }
      SamePlace(crc, head + HEADER_SIZE + n, next + HEADER_SIZE + n, data[n..], false);
    }
  }

  lemma FragmentEnds(at: nat, left: nat)
    requires Pad(at) == 0 && FragmentLength(at, left) == 0 < left
    ensures at % BLOCK_SIZE != 0 && (at + HEADER_SIZE) % BLOCK_SIZE == 0
  {
  }

  lemma Regrouped(a: Slice, b: Slice, c: Slice, d: Slice)
    ensures a + (b + c + d) == a + b + c + d && a + [] == a
  {
  }

  lemma StillInStep(dest: Slice, leftover: nat, room: nat)
    requires leftover < room && (|dest| + leftover) % BLOCK_SIZE == 0
    ensures Take(Zeros(leftover), room) == Zeros(leftover)
    ensures |dest + Take(Zeros(leftover), room)| % BLOCK_SIZE == 0
  {
  }

  lemma OnePiece(crc: Checksum, data: Slice)
    requires |data| <= 32761
    ensures Encoded(crc, 0, data, true) == Physical(crc, 1, data)
  {
    hide Physical;
    assert data[..|data|] == data;
    assert Zeros(Pad(0)) == [];
  }

  lemma LastPiece(crc: Checksum, data: Slice)
    requires |data| <= 32761
    ensures Encoded(crc, 32768, data, false) == Physical(crc, 4, data)
  {
    hide Physical;
    assert data[..|data|] == data;
    assert Zeros(Pad(32768)) == [];
  }

  lemma TwoPieces(crc: Checksum, data: Slice)
    requires 32761 < |data| <= 65522
    ensures Encoded(crc, 0, data, true) == Physical(crc, 2, data[..32761]) + Physical(crc, 4, data[32761..])
  {
    hide Physical;
    assert Zeros(Pad(0)) == [] && FragmentLength(0, |data|) == 32761;
    LastPiece(crc, data[32761..]);
  }

  /** The format on disk, byte by byte: a record that fits into the first block. */
  lemma ShortRecord(crc: Checksum, data: Slice)
    requires |data| <= 32761
    ensures Encoded(crc, 0, data, true) ==
            Fixed32(Mask(crc([1] + data))) + [(|data| % 256) as byte, (|data| / 256) as byte, 1] + data
  {
    hide Encoded, Fixed32, Mask;
    OnePiece(crc, data);
  }

  /** A record with so many bytes more than fit. */
  lemma LongRecord(crc: Checksum, a: Slice, b: Slice)
    requires |a| == 32761 && 0 < |b| <= 32761
    ensures Encoded(crc, 0, a + b, true) ==
            Fixed32(Mask(crc([2] + a))) + [0xf9, 0x7f, 2] + a +
            (Fixed32(Mask(crc([4] + b))) + [(|b| % 256) as byte, (|b| / 256) as byte, 4] + b)
  {
    hide Encoded, Fixed32, Mask;
    TwoPieces(crc, a + b);
    assert (a + b)[..32761] == a && (a + b)[32761..] == b;
  }

  class Writer {
    const crc: Checksum
    /** The file written to. */
    var dest: Slice
    var blockOffset: nat

    ghost predicate Valid()
      reads this
    {
      blockOffset <= BLOCK_SIZE && blockOffset % BLOCK_SIZE == |dest| % BLOCK_SIZE
    }

    constructor (crc: Checksum)
      ensures Valid() && dest == [] && blockOffset == 0 && this.crc == crc
    {
      this.crc := crc;
      dest, blockOffset := [], 0;
    }

    /** Go on behind the `dest` that an earlier writer left. */
    constructor Resume(crc: Checksum, dest: Slice)
      ensures Valid() && this.dest == dest && this.crc == crc
    {
      this.crc := crc;
      this.dest, blockOffset := dest, |dest| % BLOCK_SIZE;
    }

    method AddRecord(record: Slice)
      requires Valid()
      modifies this
      ensures Valid() && dest == old(dest) + Encoded(crc, |old(dest)|, record, true)
    {
      hide Encoded, Physical, Pad, Leftover, Room, FragmentLength, Zeros, KindOf;
      var rest, begin, done := record, true, false;
      while !done
        invariant Valid()
        invariant !done ==> dest + Encoded(crc, |dest|, rest, begin) == old(dest) + Encoded(crc, |old(dest)|, record, true)
        invariant done ==> dest == old(dest) + Encoded(crc, |old(dest)|, record, true)
        decreases !done, |rest|, if |dest| % BLOCK_SIZE == 0 then 0 else 1
      {
        ghost var start := dest;
        TrailerStep(blockOffset, |dest|);
        var leftover := BLOCK_SIZE - blockOffset;
        if leftover < HEADER_SIZE {
          dest, blockOffset := dest + Zeros(leftover), 0;
        }
        assert dest == start + Zeros(Pad(|start|));
        HeaderStep(blockOffset, |dest|, |rest|);
        var avail := BLOCK_SIZE - blockOffset - HEADER_SIZE;
        var n := if |rest| < avail then |rest| else avail;
        var end := |rest| == n;
        EncodedStep(crc, |start|, rest, begin);
        EmitPhysicalRecord(KindOf(begin, end), rest[..n]);
        ghost var piece := Physical(crc, KindOf(begin, end), rest[..n]);
        Regroup(start, Zeros(Pad(|start|)), piece, if end then [] else Encoded(crc, |dest|, rest[n..], false));
        rest, begin, done := rest[n..], false, end;
      }
    }

    method EmitPhysicalRecord(kind: nat, data: Slice)
      requires Valid() && FULL <= kind <= LAST && blockOffset + HEADER_SIZE + |data| <= BLOCK_SIZE
      modifies this
      ensures Valid() && dest == old(dest) + Physical(crc, kind, data)
      ensures blockOffset == old(blockOffset) + HEADER_SIZE + |data|
    {
      var tail := [(|data| % 0x100) as byte, (|data| / 0x100) as byte, kind as byte];
      dest := dest + (Fixed32(Mask(crc([kind as byte] + data))) + tail);
      dest := dest + data;
      blockOffset := blockOffset + HEADER_SIZE + |data|;
      assert (old(blockOffset) + HEADER_SIZE + |data|) % BLOCK_SIZE == |dest| % BLOCK_SIZE by {
        SameRemainder(old(blockOffset), |old(dest)|, HEADER_SIZE + |data|);
      }
    }

    /** AddRecord on a file that has room for so many more bytes, and takes what it can of an append. The offset in the block
        advances whether or not the append succeeded, so that after a failure it is ahead of the file. */
    method TryAddRecord(record: Slice, room: nat) returns (ok: bool)
      requires blockOffset <= BLOCK_SIZE
      modifies this
      ensures blockOffset <= BLOCK_SIZE && (ok && old(Valid()) ==> Valid())
      ensures var bytes := Encoded(crc, old(blockOffset), record, true);
              dest == old(dest) + Take(bytes, room) && (ok <==> |bytes| <= room)
      ensures old(blockOffset) + HEADER_SIZE + |record| <= BLOCK_SIZE ==> blockOffset == old(blockOffset) + HEADER_SIZE + |record|
    {
      hide Encoded, Take;
      var rest, begin, done := record, true, false;
      var left: nat := room;
      ghost var bytes := Encoded(crc, blockOffset, record, true);
      ok := true;
      while ok && !done
        invariant blockOffset <= BLOCK_SIZE && (ok && old(Valid()) ==> Valid())
        invariant ok && !done ==> StillToCome(dest, Encoded(crc, blockOffset, rest, begin), left, old(dest), bytes, room)
        invariant !ok || done ==> dest == old(dest) + Take(bytes, room) && (ok <==> |bytes| <= room)
        invariant begin ==> ok && !done && rest == record && blockOffset == old(blockOffset)
        invariant !begin && old(blockOffset) + HEADER_SIZE + |record| <= BLOCK_SIZE ==>
                    (!ok || done) && blockOffset == old(blockOffset) + HEADER_SIZE + |record|
        decreases ok && !done, |rest|, if blockOffset % BLOCK_SIZE == 0 then 0 else 1
      {
        var n;
        ok, left, n := TryFragment(rest, begin, left, old(dest), bytes, room);
        rest, begin, done := rest[n..], false, n == |rest|;
      }
    }

    /** One turn of the loop: the trailer, whose append is not looked at, and one physical record. */
    method TryFragment(rest: Slice, begin: bool, room: nat, ghost was: Slice, ghost bytes: Slice, ghost all: nat)
      returns (ok: bool, left: nat, n: nat)
      requires blockOffset <= BLOCK_SIZE && StillToCome(dest, Encoded(crc, blockOffset, rest, begin), room, was, bytes, all)
      modifies this
      ensures blockOffset <= BLOCK_SIZE && (ok && old(Valid()) ==> Valid()) && n <= |rest|
      ensures ok && n < |rest| ==> StillToCome(dest, Encoded(crc, blockOffset, rest[n..], false), left, was, bytes, all)
      ensures !ok || n == |rest| ==> dest == was + Take(bytes, all) && (ok <==> |bytes| <= all)
      ensures n == 0 < |rest| ==> old(blockOffset) % BLOCK_SIZE != 0 && blockOffset % BLOCK_SIZE == 0
      ensures old(blockOffset) + HEADER_SIZE + |rest| <= BLOCK_SIZE ==> n == |rest| && blockOffset == old(blockOffset) + HEADER_SIZE + n
    {
      hide Encoded, Physical, Pad, Leftover, Room, FragmentLength, Zeros, KindOf, Take, Valid;
      ghost var at, start := blockOffset, dest;
      EncodedStep(crc, at, rest, begin);
      left := TryTrailer(room);
      HeaderStep(blockOffset, at + Pad(at), |rest|);
      var avail := BLOCK_SIZE - blockOffset - HEADER_SIZE;
      n := if |rest| < avail then |rest| else avail;
      var end := |rest| == n;
      ghost var more := if end then [] else Encoded(crc, at + Pad(at) + HEADER_SIZE + n, rest[n..], false);
      ghost var middle := left;
      TakeParts(Zeros(Pad(at)), Physical(crc, KindOf(begin, end), rest[..n]), more, room);
      ok, left := TryEmit(KindOf(begin, end), rest[..n], left);
      if !end {
        SameRemainder(blockOffset - HEADER_SIZE - n, at + Pad(at), HEADER_SIZE + n);
        SamePlace(crc, at + Pad(at) + HEADER_SIZE + n, blockOffset, rest[n..], false);
      }
      Regrouped(start, Take(Zeros(Pad(at)), room), Take(Physical(crc, KindOf(begin, end), rest[..n]), middle), Take(more, left));
    }

    /** Fill the trailer if a header does not fit in the block any more. */
    method TryTrailer(room: nat) returns (left: nat)
      requires blockOffset <= BLOCK_SIZE
      modifies this
      ensures dest == old(dest) + Take(Zeros(Pad(old(blockOffset))), room) && left == room - |Take(Zeros(Pad(old(blockOffset))), room)|
      ensures blockOffset + HEADER_SIZE <= BLOCK_SIZE && blockOffset % BLOCK_SIZE == (old(blockOffset) + Pad(old(blockOffset))) % BLOCK_SIZE
      ensures blockOffset == if old(blockOffset) + HEADER_SIZE <= BLOCK_SIZE then old(blockOffset) else 0
      ensures left > 0 && old(Valid()) ==> Valid()
    {
      hide Pad, Leftover, Zeros, Take;
      TrailerStep(blockOffset, blockOffset);
      left := room;
      var leftover := BLOCK_SIZE - blockOffset;
      if leftover < HEADER_SIZE {
        if leftover < room && old(Valid()) {
          TrailerStep(blockOffset, |dest|);
          StillInStep(dest, leftover, room);
        }
        dest := dest + Take(Zeros(leftover), left);
        left, blockOffset := left - |Take(Zeros(leftover), left)|, 0;
      } else {
        NothingTaken(dest, room);
      }
    }

    /** EmitPhysicalRecord on such a file: the header, and the payload if all of the header was taken. */
    method TryEmit(kind: nat, data: Slice, room: nat) returns (ok: bool, left: nat)
      requires FULL <= kind <= LAST && blockOffset + HEADER_SIZE + |data| <= BLOCK_SIZE
      modifies this
      ensures dest == old(dest) + Take(Physical(crc, kind, data), room) && (ok <==> |Physical(crc, kind, data)| <= room)
      ensures left == room - |Take(Physical(crc, kind, data), room)|
      ensures blockOffset == old(blockOffset) + HEADER_SIZE + |data| && (ok && old(Valid()) ==> Valid())
    {
      hide Take, Fixed32, Mask;
      var tail := [(|data| % 0x100) as byte, (|data| / 0x100) as byte, kind as byte];
      var header := Fixed32(Mask(crc([kind as byte] + data))) + tail;
      assert Physical(crc, kind, data) == header + data;
      TakeTwo(old(dest), header, data, room);
      dest, ok, left := dest + Take(header, room), |header| <= room, room - |Take(header, room)|;
      if ok {
        dest, ok, left := dest + Take(data, left), |data| <= left, left - |Take(data, left)|;
      }
      blockOffset := blockOffset + HEADER_SIZE + |data|;
      if ok && old(Valid()) {
        SameRemainder(old(blockOffset), |old(dest)|, HEADER_SIZE + |data|);
      }
    }
  }

  lemma SameRemainder(a: nat, b: nat, n: nat)
    requires a % BLOCK_SIZE == b % BLOCK_SIZE
    ensures (a + n) % BLOCK_SIZE == (b + n) % BLOCK_SIZE
  {
  }

  /** Write all records, with a new writer from record `reopen` on: the log is the same as with one writer. */
  method WriteLog(crc: Checksum, records: seq<Slice>, reopen: nat) returns (file: Slice)
    ensures file == Log(crc, 0, records)
  {
    var writer := new Writer(crc);
    for i := 0 to |records|
      invariant fresh(writer) && writer.Valid() && writer.crc == crc && writer.dest == Log(crc, 0, records[..i])
    {
      if i == reopen {
        writer := new Writer.Resume(crc, writer.dest);
      }
      assert records[..i + 1] == records[..i] + [records[i]];
      LogAppend(crc, 0, records[..i], [records[i]]);
      LogOne(crc, |writer.dest|, records[i]);
      writer.AddRecord(records[i]);
    }
    file := writer.dest;
    assert records[..|records|] == records;
  }
}
