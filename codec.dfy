/**
 * The on-disk segment header and its checksum. A segment image is its 4 KiB
 * header block followed by its data blocks. The header block starts with the
 * id, the checksum and the length in its first 512 bytes; the entry array
 * (sector, dirty_bits per block) starts at byte 512. The checksum covers
 * bytes [512, 4096 + 4096 * length): the whole entry area of the header
 * block and the first `length` data blocks, so the id, the checksum and the
 * length are outside it. Little-endian conversion is the identity here.
 */
module Codec {
  import opened Wrappers

  /** struct metablock_device: one header entry. */
  datatype MetablockDevice = MetablockDevice(sector: u64, dirtyBits: u8)

  /** struct segment_header_device: id, checksum, length and the entry area. */
  datatype SegmentHeaderDevice = SegmentHeaderDevice(id: u64, checksum: u32, length: u8,
                                                     mbarr: seq<MetablockDevice>)

  /** The payload of one 4 KiB cache block. */
  type Block = seq<bv8>

  /** A whole segment as held in a RAM buffer or read back from the cache device. */
  datatype SegmentImage = SegmentImage(header: SegmentHeaderDevice, data: seq<Block>)

  /** The bytes the checksum covers: the header's entry area and the first `length` data blocks. */
  datatype Covered = Covered(entries: seq<MetablockDevice>, blocks: seq<Block>)

  /**
   * The checksum routine: crc32c seeded with WB_CKSUM_SEED, the CRC-32C
   * (Castagnoli) digest of section 12.1 of RFC 3720. It is a library call;
   * the model treats it as an arbitrary function of the covered bytes.
   */
  type Crc = Covered -> u32

  function CoveredRange(img: SegmentImage, length: nat): Covered
    requires length <= |img.data|
  {
    Covered(img.header.mbarr, img.data[..length])
  }

  /** calc_checksum(rambuffer, length). */
  function CalcChecksum(crc: Crc, img: SegmentImage, length: nat): u32
    requires length <= |img.data|
  {
    crc(CoveredRange(img, length))
  }

  /** The entries a header records: the first `length` ones. */
  function Entries(h: SegmentHeaderDevice): seq<MetablockDevice>
    requires h.length <= |h.mbarr|
  {
    h.mbarr[..h.length]
  }

  /** Whether the stored checksum matches the one recomputed over the image (the replay test). */
  predicate ChecksumOk(crc: Crc, img: SegmentImage)
  {
    img.header.length <= |img.data| && img.header.checksum == CalcChecksum(crc, img, img.header.length)
  }

  /**
   * The image prepare_segment_header_device leaves in a RAM buffer: entries
   * written over the front of the entry area, then the id, then the checksum
   * computed over the buffer as it is then, then the length. The data blocks
   * are not touched. Decoding it gives back the entries and the id, and the
   * image passes the replay's checksum test, because the length written
   * last lies outside the covered bytes.
   */
  function Render(crc: Crc, img: SegmentImage, entries: seq<MetablockDevice>, id: u64): (out: SegmentImage)
    requires |entries| <= |img.header.mbarr| && |entries| <= |img.data| && |entries| < 256
    ensures out.data == img.data
    ensures out.header.id == id && out.header.length as nat == |entries|
    ensures |out.header.mbarr| == |img.header.mbarr|
    ensures Entries(out.header) == entries
    ensures out.header.mbarr[|entries|..] == img.header.mbarr[|entries|..]
    ensures ChecksumOk(crc, out)
  {
    var mbarr := entries + img.header.mbarr[|entries|..];
    var filled := SegmentImage(img.header.(mbarr := mbarr, id := id), img.data);
    var sum := CalcChecksum(crc, filled, |entries|);
    SegmentImage(filled.header.(checksum := sum, length := |entries|), img.data)
  }

  /** A RAM buffer viewed as a segment image: header words, entry area and data blocks. */
  class RamBuffer {
    var id: u64
    var checksum: u32
    var length: u8
    const mbarr: array<MetablockDevice>
    const data: array<Block>

    constructor (entrySlots: nat, blocks: nat)
      ensures mbarr.Length == entrySlots && data.Length == blocks
      ensures fresh(mbarr) && fresh(data)
    {
      mbarr := new MetablockDevice[entrySlots](_ => MetablockDevice(0, 0));
      data := new Block[blocks](_ => []);
    }

    function Image(): SegmentImage
      reads this, mbarr, data
    {
      SegmentImage(SegmentHeaderDevice(id, checksum, length, mbarr[..]), data[..])
    }
  }
}
