/** The parts of a table file (table/format.cc): block handles, block trailers and the footer. */
module TableFormat {
  import opened InternalKeys
  import opened Coding

  const BLOCK_TRAILER_SIZE: nat := 5
  const HANDLES_SIZE: nat := 40
  const FOOTER_SIZE: nat := 48
  const MAGIC_LOW: uint32 := 0x8b80fb57
  const MAGIC_HIGH: uint32 := 0xdb477524

  type Checksum = Slice -> uint32

  datatype BlockHandle = BlockHandle(offset: uint64, size: uint64)

  function EncodeHandle(h: BlockHandle): Slice {
    Varint(h.offset) + Varint(h.size)
  }

  function DecodeHandle(input: Slice): Option<(BlockHandle, Slice)> {
    match GetVarint64(input)
    case None => None
    case Some((offset, a)) =>
      match GetVarint64(a)
      case None => None
      case Some((size, b)) => Some((BlockHandle(offset, size), b))
  }

  lemma HandleRoundTrip(h: BlockHandle, rest: Slice)
    ensures DecodeHandle(EncodeHandle(h) + rest) == Some((h, rest))
  {
    hide Varint, GetVarint64;
    Varint64RoundTrip(h.offset, Varint(h.size) + rest);
    Varint64RoundTrip(h.size, rest);
    assert EncodeHandle(h) + rest == Varint(h.offset) + (Varint(h.size) + rest);
  }

  // ---------------------------------------------------------------- blocks in a file

  /** A block as it stands in the file: contents, type 0 for uncompressed, checksum of both. */
  function RawBlock(crc: Checksum, contents: Slice): (b: Slice)
    ensures |b| == |contents| + BLOCK_TRAILER_SIZE
  {
    contents + [0] + Fixed32(Mask(crc(contents + [0])))
  }

  /** ReadBlock for uncompressed blocks; None is one of its error returns. */
  function ReadBlock(crc: Checksum, verify: bool, file: Slice, h: BlockHandle): Option<Slice> {
    if |file| < h.offset + h.size + BLOCK_TRAILER_SIZE then None
    else
      var data := file[h.offset..h.offset + h.size + BLOCK_TRAILER_SIZE];
      if verify && Unmask(DecodeFixed32(data[h.size + 1..])) != crc(data[..h.size + 1]) then None
      else if data[h.size] != 0 then None
      else Some(data[..h.size])
  }

  /** The block that stands at a handle is read back, with or without verification. */
  lemma BlockRoundTrip(crc: Checksum, verify: bool, file: Slice, h: BlockHandle, contents: Slice)
    requires h.size == |contents| && h.offset + |contents| + BLOCK_TRAILER_SIZE <= |file|
    requires file[h.offset..h.offset + |contents| + BLOCK_TRAILER_SIZE] == RawBlock(crc, contents)
    ensures ReadBlock(crc, verify, file, h) == Some(contents)
  {
    hide Fixed32, DecodeFixed32, Mask, Unmask;
    var data := RawBlock(crc, contents);
    var sum := crc(contents + [0]);
    assert data[h.size + 1..] == Fixed32(Mask(sum)) + [];
    Fixed32RoundTrip(Mask(sum), []);
    MaskRoundTrip(sum);
    assert data[..h.size + 1] == contents + [0];
    assert data[h.size] == (contents + [0])[h.size];
    assert data[..h.size] == contents;
  }

  /** With verification a block is read exactly if it stands in the file as it was written, checksum and all. */
  lemma VerifiedBlock(crc: Checksum, file: Slice, h: BlockHandle, contents: Slice)
    ensures ReadBlock(crc, true, file, h) == Some(contents) <==>
            && h.size == |contents| && h.offset + |contents| + BLOCK_TRAILER_SIZE <= |file|
            && file[h.offset..h.offset + |contents| + BLOCK_TRAILER_SIZE] == RawBlock(crc, contents)
  {
    hide Fixed32, DecodeFixed32, Mask, Unmask;
    if ReadBlock(crc, true, file, h) == Some(contents) {
      var data := file[h.offset..h.offset + h.size + BLOCK_TRAILER_SIZE];
      var sum := DecodeFixed32(data[h.size + 1..]);
      Fixed32Unique(data[h.size + 1..]);
      UnmaskRoundTrip(sum);
      assert data[..h.size + 1] == contents + [0];
      assert data == data[..h.size + 1] + data[h.size + 1..];
    } else if h.size == |contents| && h.offset + |contents| + BLOCK_TRAILER_SIZE <= |file| {
      if file[h.offset..h.offset + |contents| + BLOCK_TRAILER_SIZE] == RawBlock(crc, contents) {
        BlockRoundTrip(crc, true, file, h, contents);
      }
    }
  }

  // ---------------------------------------------------------------- footer

  datatype Footer = Footer(metaindex: BlockHandle, index: BlockHandle)

  lemma {:induction false} VarintShort(v: nat, n: nat)
    requires v < Power128(n) && n > 0
    ensures |Varint(v)| <= n
  {
    if v >= 0x80 {
      FewerGroups(v, n);
      VarintShort(v / 0x80, n - 1);
    }
  }

  lemma HandleShort(h: BlockHandle)
    ensures |EncodeHandle(h)| <= 20
  {
    hide Varint, Power128;
    Powers();
    VarintShort(h.offset, 10);
    VarintShort(h.size, 10);
  }

  function EncodeFooter(f: Footer): (b: Slice)
    ensures |b| == FOOTER_SIZE
  {
    HandleShort(f.metaindex);
    HandleShort(f.index);
    var handles := EncodeHandle(f.metaindex) + EncodeHandle(f.index);
    handles + seq(HANDLES_SIZE - |handles|, _ => 0) + Fixed32(MAGIC_LOW) + Fixed32(MAGIC_HIGH)
  }

  /** Every table file ends with these eight bytes. */
  lemma MagicNumber(f: Footer)
    ensures EncodeFooter(f)[HANDLES_SIZE..] == [0x57, 0xfb, 0x80, 0x8b, 0x24, 0x75, 0x47, 0xdb]
  {
    hide EncodeHandle;
    assert Fixed32(MAGIC_LOW) == [0x57, 0xfb, 0x80, 0x8b] && Fixed32(MAGIC_HIGH) == [0x24, 0x75, 0x47, 0xdb];
  }

  function DecodeFooter(input: Slice): Option<Footer>
    requires |input| >= FOOTER_SIZE
  {
    if DecodeFixed32(input[FOOTER_SIZE - 8..]) != MAGIC_LOW || DecodeFixed32(input[FOOTER_SIZE - 4..]) != MAGIC_HIGH then None
    else
      match DecodeHandle(input)
      case None => None
      case Some((metaindex, a)) =>
        match DecodeHandle(a)
        case None => None
        case Some((index, b)) => Some(Footer(metaindex, index))
  }

  lemma FooterRoundTrip(f: Footer)
    ensures DecodeFooter(EncodeFooter(f)) == Some(f)
  {
    hide EncodeHandle, DecodeHandle, Fixed32, DecodeFixed32;
    HandleShort(f.metaindex);
    HandleShort(f.index);
    var m, i := EncodeHandle(f.metaindex), EncodeHandle(f.index);
    var padding: Slice := seq(HANDLES_SIZE - |m + i|, _ => 0);
    var magic := Fixed32(MAGIC_LOW) + Fixed32(MAGIC_HIGH);
    var input := EncodeFooter(f);
    assert input == m + (i + (padding + magic));
    assert input[FOOTER_SIZE - 8..] == Fixed32(MAGIC_LOW) + Fixed32(MAGIC_HIGH);
    assert input[FOOTER_SIZE - 4..] == Fixed32(MAGIC_HIGH) + [];
    Fixed32RoundTrip(MAGIC_LOW, Fixed32(MAGIC_HIGH));
    Fixed32RoundTrip(MAGIC_HIGH, []);
    HandleRoundTrip(f.metaindex, i + (padding + magic));
    HandleRoundTrip(f.index, padding + magic);
  }

  /** What is accepted as a footer ends with the magic number of every footer, byte for byte. */
  lemma FooterChecked(input: Slice)
    requires |input| == FOOTER_SIZE && DecodeFooter(input).Some?
    ensures input[HANDLES_SIZE..] == EncodeFooter(DecodeFooter(input).value)[HANDLES_SIZE..]
  {
    hide EncodeHandle, DecodeHandle, Fixed32, DecodeFixed32;
    var low, high := input[HANDLES_SIZE..HANDLES_SIZE + 4], input[HANDLES_SIZE + 4..];
    WordAlone(input, HANDLES_SIZE);
    WordAlone(input, HANDLES_SIZE + 4);
    Fixed32Unique(low);
    Fixed32Unique(high);
    assert input[HANDLES_SIZE..] == low + high;
  }

  lemma WordAlone(input: Slice, at: nat)
    requires at + 4 <= |input|
    ensures DecodeFixed32(input[at..]) == DecodeFixed32(input[at..at + 4])
  {
  }
}
