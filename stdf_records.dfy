/** Values the STDF V4 library hands to the PRR extractor, and the file
    snapshot the extractor reads through that library.

    The library itself (StdfHeader::read, StdfFAR::parse, StdfPRR::parse) is
    not part of this model: what it reports at each cursor position is part of
    the `StdfFile` value, so every property proved about the extractor holds
    whatever the library decodes. */
module StdfRecords {

  newtype byte = x: int | 0 <= x < 256

  datatype Option<T> = None | Some(value: T)

  /** The two copies of the extractor class: extractor.h (`Current`) and its
      earlier form extractosr.h (`Early`). */
  datatype Revision = Current | Early

  /** REC_LEN (2 bytes), REC_TYP and REC_SUB (1 byte each). */
  const HeaderSize: int := 4
  /** Sanity ceiling on a declared record length. */
  const MaxRecordLength: int := 100000
  /** Type code of the File Attributes Record. */
  const FarType: int := 0
  /** The one supported CPU_TYP / STDF_VER pair of the FAR. */
  const SupportedCpuType: int := 2
  const SupportedStdfVersion: int := 4
  /** Consecutive invalid cursor positions tolerated before giving up. */
  const MaxInvalidPositions: int := 5

  /** The fields of a Part Results Record that the extractor reads through the
      library's getters. `partId` and `partText` are the `const char*`
      buffers (None for a null pointer). */
  datatype Prr = Prr(
    headNumber: int,
    siteNumber: int,
    testCount: int,
    hardBin: int,
    softBin: int,
    xCoord: int,
    yCoord: int,
    elapsedMs: nat,
    superseded: bool,
    abnormal: bool,
    failed: bool,
    invalidFlag: bool,
    partId: Option<seq<byte>>,
    partText: Option<seq<byte>>)

  /** CPU_TYP and STDF_VER of the File Attributes Record. */
  datatype Far = Far(cpuType: int, stdfVersion: int)

  /** What one StdfHeader::read reports at a cursor: the record type code, the
      declared REC_LEN, how many bytes beyond the four header bytes the read
      consumed, and the stream's fail and eof flags afterwards. */
  datatype HeaderRead = HeaderRead(recType: int, length: int, extra: nat, failed: bool, eof: bool)

  /** StdfPRR::parse either throws or yields the record's fields. */
  datatype PrrParse = ParseThrew | Parsed(prr: Prr)

  /** One snapshot of an STDF file as seen through the library:
      - `opens`: the ifstream opened;
      - `size`: the length reported by seeking to the end;
      - `readAt(p)`: the header read starting at cursor p;
      - `far`: StdfFAR::parse of the record at offset 0;
      - `prrAt(p)`: StdfPRR::parse of the record whose header starts at p;
      - `seekFails(p)`: whether the skip past the record at p leaves the
        stream failed;
      - `reprobedSize`: the length seen when the end is probed again. */
  datatype StdfFile = StdfFile(
    opens: bool,
    size: nat,
    readAt: int -> HeaderRead,
    far: Far,
    prrAt: int -> PrrParse,
    seekFails: int -> bool,
    reprobedSize: int)

  /** The cursor (tellg) right after the header read at `pos`. */
  function AfterHeader(file: StdfFile, pos: int): int
  {
    pos + HeaderSize + file.readAt(pos).extra
  }
}
