/**
 * The format decision taken at bring-up: read the superblock header in
 * sector 0 and decide whether the cache device must be formatted, may be
 * formatted, or can be used as it is.
 */
module Format {
  import opened Wrappers

  /** struct superblock_header_device: magic number and segment_size_order. */
  datatype SuperblockHeader = SuperblockHeader(magic: u32, segmentSizeOrder: u8)

  /** What reading sector 0 produced: the header, or the (negative) I/O error. */
  datatype HeaderRead = HeaderOk(sup: SuperblockHeader) | HeaderError(err: int)

  /** audit_cache_device's two out-flags. */
  datatype AuditFlags = AuditFlags(needFormat: bool, allowFormat: bool)

  /** audit_cache_device's outcome: the flags, or the error of the read. */
  datatype Audit = Audited(flags: AuditFlags) | AuditFailed(err: int)

  /**
   * audit_cache_device: a wrong magic number means "format, and formatting is
   * allowed"; a right magic number with another segment size means "format
   * needed but not allowed"; both matching means "no format needed".
   */
  function AuditCacheDevice(read: HeaderRead, wbMagic: u32, order: u8): (a: Audit)
    ensures read.HeaderError? ==> a == AuditFailed(read.err)
    ensures a.AuditFailed? ==> read.HeaderError?
    ensures read.HeaderOk? ==>
              (a == Audited(AuditFlags(true, true)) <==> read.sup.magic != wbMagic)
    ensures read.HeaderOk? ==>
              (a == Audited(AuditFlags(true, false)) <==>
                 read.sup.magic == wbMagic && read.sup.segmentSizeOrder != order)
    ensures read.HeaderOk? ==>
              (a == Audited(AuditFlags(false, false)) <==>
                 read.sup.magic == wbMagic && read.sup.segmentSizeOrder == order)
  {
    match read
    case HeaderError(e) => AuditFailed(e)
    case HeaderOk(sup) =>
      if sup.magic != wbMagic then Audited(AuditFlags(true, true))
      else if sup.segmentSizeOrder != order then Audited(AuditFlags(true, false))
      else Audited(AuditFlags(false, false))
  }

  /**
   * format_superblock_header as written: -ENOMEM when the sector buffer
   * cannot be allocated, and otherwise 0, whatever the write returned.
   */
  function FormatSuperblockHeaderAsWritten(bufferOk: bool, io: int): (r: int)
    ensures r == 0 <==> bufferOk
    ensures r != 0 ==> r == -ENOMEM
  {
    if !bufferOk then -ENOMEM else 0
  }

  /** format_superblock_header as evidently intended: the write's error is returned. */
  function FormatSuperblockHeader(bufferOk: bool, io: int): (r: int)
    ensures r == 0 <==> bufferOk && io == 0
    ensures !bufferOk ==> r == -ENOMEM
    ensures bufferOk ==> r == io
  {
    if !bufferOk then -ENOMEM else io
  }

  /**
   * format_cache_device given the results of its steps (zeroing the
   * superblock region; allocating the header buffer and writing the header;
   * zeroing every segment header; flushing): the first failing step's error,
   * or 0. The header step is format_superblock_header as written, so a
   * failed header write does not stop the format and is not reported.
   */
  function FormatCacheDevice(zeroing: int, headerBufferOk: bool, headerIo: int, segments: int, flush: int)
    : (r: int)
    ensures r == 0 <==> zeroing == 0 && headerBufferOk && segments == 0 && flush == 0
    ensures zeroing != 0 ==> r == zeroing
    ensures zeroing == 0 && !headerBufferOk ==> r == -ENOMEM
    ensures zeroing == 0 && headerBufferOk ==> r == if segments != 0 then segments else flush
  {
    if zeroing != 0 then zeroing
    else
      var header := FormatSuperblockHeaderAsWritten(headerBufferOk, headerIo);
      if header != 0 then header
      else if segments != 0 then segments
      else flush
  }

  /**
   * format_cache_device composed with the corrected header write: 0 exactly
   * when every step succeeded, and otherwise the first failing step's error.
   */
  function FormatCacheDeviceCorrected(zeroing: int, headerBufferOk: bool, headerIo: int, segments: int, flush: int)
    : (r: int)
    ensures r == 0 <==> zeroing == 0 && headerBufferOk && headerIo == 0 && segments == 0 && flush == 0
    ensures zeroing != 0 ==> r == zeroing
    ensures zeroing == 0 && !headerBufferOk ==> r == -ENOMEM
    ensures zeroing == 0 && headerBufferOk && headerIo != 0 ==> r == headerIo
    ensures zeroing == 0 && headerBufferOk && headerIo == 0 ==> r == if segments != 0 then segments else flush
  {
    if zeroing != 0 then zeroing
    else
      var header := FormatSuperblockHeader(headerBufferOk, headerIo);
      if header != 0 then header
      else if segments != 0 then segments
      else flush
  }

  /**
   * The write error is lost: a failed header write reports success, and a
   * format whose header write failed (every other step succeeding) reports
   * success too, where the corrected composition reports -EIO.
   */
  lemma HeaderWriteErrorLost()
    ensures FormatSuperblockHeaderAsWritten(true, -EIO) == 0
    ensures FormatCacheDevice(0, true, -EIO, 0, 0) == 0
    ensures FormatCacheDeviceCorrected(0, true, -EIO, 0, 0) == -EIO
  {
  }

  /** The two compositions differ only when the header write fails. */
  lemma FormatCompositionsAgree(zeroing: int, headerBufferOk: bool, headerIo: int, segments: int, flush: int)
    ensures FormatCacheDevice(zeroing, headerBufferOk, headerIo, segments, flush)
            == FormatCacheDeviceCorrected(zeroing, headerBufferOk, headerIo, segments, flush)
            <==> zeroing != 0 || !headerBufferOk || headerIo == 0 ||
                 headerIo == (if segments != 0 then segments else flush)
  {
  }

  /** What might_format_cache_device did: its return value and whether it formatted. */
  datatype FormatOutcome = FormatOutcome(r: int, formatted: bool)

  /**
   * might_format_cache_device: formats only when the magic number is wrong
   * (returning format_cache_device's result), refuses with -EINVAL when the
   * segment size differs, and returns 0 without touching the device when
   * the header matches. A failed read is returned as it is.
   */
  function MightFormatCacheDevice(read: HeaderRead, wbMagic: u32, order: u8, formatResult: int)
    : (o: FormatOutcome)
    ensures o.formatted <==> read.HeaderOk? && read.sup.magic != wbMagic
    ensures o.formatted ==> o.r == formatResult
    ensures read.HeaderError? ==> o == FormatOutcome(read.err, false)
    ensures read.HeaderOk? && read.sup.magic == wbMagic && read.sup.segmentSizeOrder != order ==>
              o == FormatOutcome(-EINVAL, false)
    ensures read.HeaderOk? && read.sup.magic == wbMagic && read.sup.segmentSizeOrder == order ==>
              o == FormatOutcome(0, false)
  {
    match AuditCacheDevice(read, wbMagic, order)
    case AuditFailed(e) => FormatOutcome(e, false)
    case Audited(flags) =>
      if flags.needFormat then
        if flags.allowFormat then FormatOutcome(formatResult, true)
        else FormatOutcome(-EINVAL, false)
      else FormatOutcome(0, false)
  }

  /** The header format_superblock_header writes. */
  function FormattedHeader(wbMagic: u32, order: u8): SuperblockHeader
  {
    SuperblockHeader(wbMagic, order)
  }

  /**
   * Format then mount: a device just formatted for one segment size needs no
   * format for that size, and is refused (format needed, not allowed) for
   * any other.
   */
  lemma FormatThenAudit(wbMagic: u32, formattedOrder: u8, order: u8)
    ensures AuditCacheDevice(HeaderOk(FormattedHeader(wbMagic, formattedOrder)), wbMagic, order)
            == if formattedOrder == order then Audited(AuditFlags(false, false))
               else Audited(AuditFlags(true, false))
    ensures MightFormatCacheDevice(HeaderOk(FormattedHeader(wbMagic, formattedOrder)), wbMagic, order, 0)
            == if formattedOrder == order then FormatOutcome(0, false)
               else FormatOutcome(-EINVAL, false)
  {
  }
}
