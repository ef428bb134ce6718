/** Normalisation of the requested byte window and the per-record bound check
    (identical in extractor.h and extractosr.h). */
module WindowValidator {
  import opened StdfRecords

  /** The half-open byte window [start, end) of one extraction call. */
  datatype Window = Window(start: int, end: int)

  /** Largest std::streamoff value, used by the overflow guard of isInRange. */
  const StreamOffMax: int := 0x7FFF_FFFF_FFFF_FFFF

  /** Clamps the caller's window to the file: a negative start becomes 0, a
      negative or too large end becomes the file size, and an inverted
      window (start >= end after clamping) means there is nothing to do. */
  function NormalizeWindow(startPos: int, endPos: int, fileSize: nat): (w: Option<Window>)
    ensures w.Some? ==> 0 <= w.value.start < w.value.end <= fileSize
    ensures w.Some? && startPos >= 0 ==> w.value.start == startPos
    ensures w.Some? && startPos < 0 ==> w.value.start == 0
    ensures w.Some? && 0 <= endPos <= fileSize ==> w.value.end == endPos
    ensures w.Some? && (endPos < 0 || endPos > fileSize) ==> w.value.end == fileSize
    ensures 0 <= startPos < endPos <= fileSize ==> w == Some(Window(startPos, endPos))
    ensures startPos >= fileSize || fileSize == 0 ==> w.None?
    ensures 0 <= endPos <= fileSize && startPos >= endPos ==> w.None?
    ensures startPos < fileSize && fileSize > 0 && (endPos < 0 || endPos > fileSize) ==> w.Some?
    ensures startPos < 0 && 0 < endPos <= fileSize ==> w == Some(Window(0, endPos))
    ensures endPos == 0 ==> w.None?
  {
    var start := if startPos < 0 then 0 else startPos;
    var end := if endPos < 0 || endPos > fileSize then fileSize else endPos;
    if start >= end then None else Some(Window(start, end))
  }

  /** isInRange: the record whose header read left the cursor at
      `currentPos` and whose REC_LEN is `recordLen` lies in the window when the
      cursor is valid, the length is plausible, the cursor is at or after the
      window start, and cursor + header + length does not pass the window end. */
  function IsInRange(currentPos: int, recordLen: int, startPos: int, endPos: int): (r: bool)
    ensures r <==> 0 <= currentPos && 0 <= recordLen <= MaxRecordLength
                   && startPos <= currentPos && currentPos + HeaderSize + recordLen <= endPos
    ensures currentPos < 0 || recordLen < 0 || recordLen > MaxRecordLength ==> !r
  {
    if currentPos < 0 then false
    else if recordLen < 0 || recordLen > MaxRecordLength then false
    else if StreamOffMax - HeaderSize < recordLen then false
    else
      var recordEndPos := currentPos + (HeaderSize + recordLen);
      var afterStart := currentPos >= startPos;
      var beforeEnd := recordEndPos <= endPos;
      afterStart && beforeEnd
  }
}
