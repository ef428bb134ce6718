/** The PRR scan of extractPrrRecords: window normalisation, the FAR gate at
    offset 0, and the cursor loop that reads a header, bounds-checks it,
    classifies it, and keeps, drops or skips the record.

    `Step` is one loop iteration, `ScanFrom` the trace of all iterations from
    a cursor, `Extract` the whole call; `ExtractPrrRecords` is the loop itself,
    proved to return exactly the records the trace keeps. */
module RecordScanner {
  import opened StdfRecords
  import opened WindowValidator
  import opened TypeClassifier

  const MinBinNumber: int := -10000
  const MaxHeadOrSite: int := 255

  /** The validity guard applied to a decoded PRR before it is kept. The
      earlier revision has no head/site check. */
  function IsSanePrr(rev: Revision, prr: Prr): (r: bool)
    ensures rev == Current ==> (r <==> prr.hardBin >= -10000 && prr.softBin >= -10000
                                       && prr.headNumber <= 255 && prr.siteNumber <= 255)
    ensures rev == Early ==> (r <==> prr.hardBin >= -10000 && prr.softBin >= -10000)
  {
    var suspicious :=
      prr.hardBin < MinBinNumber || prr.softBin < MinBinNumber
      || (rev == Current && (prr.headNumber > MaxHeadOrSite || prr.siteNumber > MaxHeadOrSite));
    !suspicious
  }

  /** The earlier guard accepts everything the current one accepts, and more
      exactly the records with sane bins but a head or site above 255. */
  lemma EarlyGuardIsWeaker(prr: Prr)
    ensures IsSanePrr(Current, prr) ==> IsSanePrr(Early, prr)
    ensures IsSanePrr(Early, prr) && !IsSanePrr(Current, prr)
            <==> prr.hardBin >= -10000 && prr.softBin >= -10000
                 && (prr.headNumber > 255 || prr.siteNumber > 255)
  {
  }

  /** Why a scan stops early. */
  datatype StopReason =
    | InvalidPosition   // tellg() reported a negative cursor
    | ReadFailed        // the header read left the stream failed
    | BadLength         // a record to be skipped has an implausible length
    | SeekFailed        // skipping a record left the stream failed

  /** What one loop iteration does with the record at the cursor. */
  datatype Fate =
    | Kept(prr: Prr)        // a PRR in range that passed the guard
    | Discarded(prr: Prr)   // a PRR in range that failed the guard
    | ParseFailed           // StdfPRR::parse threw
    | SkippedOutOfRange     // the record fails isInRange and is skipped
    | SkippedOther          // an in-range record of another type, skipped
    | Stopped(reason: StopReason)

  /** The fate of one iteration, the cursor after it, and the eof flag. */
  datatype Outcome = Outcome(fate: Fate, next: int, eof: bool)

  /** One loop iteration: the cursor it started at and what it did. */
  datatype Visit = Visit(pos: int, fate: Fate)

  /** The position isInRange obtains from tellg(): where the header read left
      the cursor, or -1 when that read hit end-of-file, since tellg on a
      stream whose eof flag is set fails (setting the fail flag) and reports
      -1. */
  function RangeCursor(file: StdfFile, pos: int): int
  {
    if file.readAt(pos).eof then -1 else AfterHeader(file, pos)
  }

  /** The record whose header starts at `pos` is read without reaching the
      end of the file, passes the window check, carries a PRR type code,
      decodes, and passes the guard. */
  predicate Accepted(file: StdfFile, rev: Revision, w: Window, pos: int)
  {
    && pos >= 0
    && !file.readAt(pos).failed
    && !file.readAt(pos).eof
    && IsInRange(AfterHeader(file, pos), file.readAt(pos).length, w.start, w.end)
    && IsPrrRecordType(rev, file.readAt(pos).recType)
    && file.prrAt(pos).Parsed?
    && IsSanePrr(rev, file.prrAt(pos).prr)
  }

  /** One iteration of the scan loop at cursor `pos`. The window check is made
      from the cursor the header read left behind, not from `pos`; a read
      that reached the end of the file leaves tellg() failed, so the check
      fails and the skip that follows cannot move the stream. */
  function Step(file: StdfFile, rev: Revision, w: Window, pos: int): (o: Outcome)
    ensures !o.fate.Stopped? ==> o.next == -1 || o.next >= pos + HeaderSize
    ensures !o.eof
  {
    if pos < 0 then Outcome(Stopped(InvalidPosition), pos, false)
    else
      var header := file.readAt(pos);
      if header.failed then Outcome(Stopped(ReadFailed), pos, false)
      else
        var afterHeader := AfterHeader(file, pos);
        if !IsInRange(RangeCursor(file, pos), header.length, w.start, w.end) then
          if header.length <= 0 || header.length > MaxRecordLength then Outcome(Stopped(BadLength), pos, false)
          else if header.eof || file.seekFails(pos) then Outcome(Stopped(SeekFailed), pos, false)
          else Outcome(SkippedOutOfRange, afterHeader + header.length, false)
        else if IsPrrRecordType(rev, header.recType) then
          match file.prrAt(pos)
          case ParseThrew =>
            Outcome(ParseFailed, if file.seekFails(pos) then -1 else afterHeader + header.length, false)
          case Parsed(prr) =>
            Outcome(if IsSanePrr(rev, prr) then Kept(prr) else Discarded(prr), afterHeader, header.eof)
        else if header.length < 0 || header.length > MaxRecordLength then Outcome(Stopped(BadLength), pos, false)
        else if file.seekFails(pos) then Outcome(Stopped(SeekFailed), pos, false)
        else Outcome(SkippedOther, afterHeader + header.length, false)
  }

  /** What one iteration does, rule by rule: a record is kept exactly when it
      is accepted; a kept or discarded PRR leaves the cursor where the header
      read left it; a skip advances by exactly the declared length; a record
      that fails the window check with a length of 0 or less, or above
      100000, stops the scan, and (since an in-range record always has a
      length in 0..100000) no other record stops it for its length. Every
      fate is characterised exactly: a record is decoded only when it is in
      range and PRR-typed, a read that reaches the end of the file always
      stops the scan, and a failed skip of a record to be skipped stops it. */
  lemma StepRules(file: StdfFile, rev: Revision, w: Window, pos: int)
    ensures var o := Step(file, rev, w, pos);
      && (o.fate.Kept? <==> Accepted(file, rev, w, pos))
      && (o.fate.Kept? || o.fate.Discarded?
          ==> file.prrAt(pos) == Parsed(o.fate.prr) && o.next == AfterHeader(file, pos))
      && (o.fate.Discarded? ==> !IsSanePrr(rev, o.fate.prr))
      && (o.fate == Stopped(InvalidPosition) <==> pos < 0)
      && (o.fate == Stopped(ReadFailed) <==> pos >= 0 && file.readAt(pos).failed)
      && (o.fate == Stopped(BadLength)
          <==> && pos >= 0 && !file.readAt(pos).failed
               && !IsInRange(RangeCursor(file, pos), file.readAt(pos).length, w.start, w.end)
               && (file.readAt(pos).length <= 0 || file.readAt(pos).length > MaxRecordLength))
      && (o.fate == Stopped(SeekFailed)
          <==> && pos >= 0 && !file.readAt(pos).failed
               && (if IsInRange(RangeCursor(file, pos), file.readAt(pos).length, w.start, w.end)
                   then !IsPrrRecordType(rev, file.readAt(pos).recType) && file.seekFails(pos)
                   else && 0 < file.readAt(pos).length <= MaxRecordLength
                        && (file.readAt(pos).eof || file.seekFails(pos))))
      && (pos >= 0 && !file.readAt(pos).failed && file.readAt(pos).eof ==> o.fate.Stopped?)
      && (o.fate.Kept? || o.fate.Discarded? || o.fate == ParseFailed
          <==> && pos >= 0 && !file.readAt(pos).failed
               && IsInRange(RangeCursor(file, pos), file.readAt(pos).length, w.start, w.end)
               && IsPrrRecordType(rev, file.readAt(pos).recType))
      && (o.fate == ParseFailed <==> (o.fate.Kept? || o.fate.Discarded? || o.fate == ParseFailed) && file.prrAt(pos).ParseThrew?)
      && (o.fate == SkippedOther
          <==> && pos >= 0 && !file.readAt(pos).failed
               && IsInRange(RangeCursor(file, pos), file.readAt(pos).length, w.start, w.end)
               && !IsPrrRecordType(rev, file.readAt(pos).recType) && !file.seekFails(pos))
      && (o.fate == SkippedOutOfRange
          <==> && pos >= 0 && !file.readAt(pos).failed && !file.readAt(pos).eof
               && !IsInRange(AfterHeader(file, pos), file.readAt(pos).length, w.start, w.end)
               && 0 < file.readAt(pos).length <= MaxRecordLength && !file.seekFails(pos))
      && (o.fate == SkippedOutOfRange || o.fate == SkippedOther
          ==> && 0 <= file.readAt(pos).length <= MaxRecordLength && !file.seekFails(pos)
              && o.next == AfterHeader(file, pos) + file.readAt(pos).length)
      && (o.fate == SkippedOutOfRange ==> file.readAt(pos).length > 0)
      && (o.fate == ParseFailed
          ==> o.next == (if file.seekFails(pos) then -1 else AfterHeader(file, pos) + file.readAt(pos).length))
  {
  }

  /** The iterations of the loop `while (tellg() < endPos && !eof())` from
      `cursor` on, each recorded with its fate. The loop runs at least once
      exactly when its condition holds at the start. */
  function ScanFrom(file: StdfFile, rev: Revision, w: Window, cursor: int, eof: bool): (trace: seq<Visit>)
    ensures trace == [] <==> !(cursor < w.end && !eof)
    ensures trace != [] ==> trace[0].pos == cursor
    decreases if cursor < 0 then 0 else w.end - cursor + 1
  {
    if cursor < w.end && !eof then
      var o := Step(file, rev, w, cursor);
      [Visit(cursor, o.fate)] + (if o.fate.Stopped? then [] else ScanFrom(file, rev, w, o.next, o.eof))
    else
      []
  }

  /** A trace that follows `Step`: every visit has the fate `Step` gives its
      cursor and lies before the window end, only the last visit can stop the
      scan, and consecutive cursors follow `Step`. */
  predicate FollowsStep(file: StdfFile, rev: Revision, w: Window, trace: seq<Visit>)
  {
    && (forall i :: 0 <= i < |trace| ==> trace[i].fate == Step(file, rev, w, trace[i].pos).fate)
    && (forall i :: 0 <= i < |trace| ==> trace[i].pos < w.end)
    && (forall i :: 0 <= i < |trace| - 1 ==> !trace[i].fate.Stopped?)
    && (forall i :: 0 <= i < |trace| - 1 ==> trace[i + 1].pos == Step(file, rev, w, trace[i].pos).next)
  }

  /** A trace that runs as far as the loop does: its last visit either stops
      the scan or leaves the loop condition false (a cursor at or past the
      window end, or the eof flag set). */
  predicate EndsScan(file: StdfFile, rev: Revision, w: Window, trace: seq<Visit>)
  {
    trace != [] ==>
      var last := Step(file, rev, w, trace[|trace| - 1].pos);
      last.fate.Stopped? || !(last.next < w.end && !last.eof)
  }

  /** The valid cursors of a trace start at `cursor` or later, and later
      visits lie at least a header beyond earlier ones. */
  predicate Ascending(cursor: int, trace: seq<Visit>)
  {
    && (forall i :: 0 <= i < |trace| && trace[i].pos >= 0 ==> cursor <= trace[i].pos)
    && (forall i, j :: 0 <= i < j < |trace| && trace[j].pos >= 0 ==> trace[i].pos + HeaderSize <= trace[j].pos)
  }

  lemma {:induction false} ScanFromFollowsStep(file: StdfFile, rev: Revision, w: Window, cursor: int, eof: bool)
    ensures FollowsStep(file, rev, w, ScanFrom(file, rev, w, cursor, eof))
    decreases if cursor < 0 then 0 else w.end - cursor + 1
  {
    if cursor < w.end && !eof {
      var o := Step(file, rev, w, cursor);
      if !o.fate.Stopped? {
        var rest := ScanFrom(file, rev, w, o.next, o.eof);
        ScanFromFollowsStep(file, rev, w, o.next, o.eof);
        var trace := ScanFrom(file, rev, w, cursor, eof);
        assert trace == [Visit(cursor, o.fate)] + rest;
        forall i | 0 <= i < |trace|
          ensures trace[i].fate == Step(file, rev, w, trace[i].pos).fate && trace[i].pos < w.end
        {
          if i > 0 {
            assert trace[i] == rest[i - 1];
          }
        }
        forall i | 0 <= i < |trace| - 1
          ensures !trace[i].fate.Stopped? && trace[i + 1].pos == Step(file, rev, w, trace[i].pos).next
        {
          assert trace[i + 1] == rest[i];
          if i > 0 {
            assert trace[i] == rest[i - 1];
          }
        }
      }
    }
  }

  /** The scan goes on until an iteration stops it or the loop condition
      fails: it never gives up early. */
  lemma {:induction false} ScanFromEnds(file: StdfFile, rev: Revision, w: Window, cursor: int, eof: bool)
    ensures EndsScan(file, rev, w, ScanFrom(file, rev, w, cursor, eof))
    decreases if cursor < 0 then 0 else w.end - cursor + 1
  {
    if cursor < w.end && !eof {
      var o := Step(file, rev, w, cursor);
      var trace := ScanFrom(file, rev, w, cursor, eof);
      if o.fate.Stopped? {
        assert trace == [Visit(cursor, o.fate)];
      } else {
        var rest := ScanFrom(file, rev, w, o.next, o.eof);
        ScanFromEnds(file, rev, w, o.next, o.eof);
        assert trace == [Visit(cursor, o.fate)] + rest;
        if rest != [] {
          assert trace[|trace| - 1] == rest[|rest| - 1];
        }
      }
    }
  }

  /** A trace is pinned down by where it starts, `FollowsStep` and
      `EndsScan`: any such trace is the scan from its first cursor. */
  lemma {:induction false} ScanIsDetermined(file: StdfFile, rev: Revision, w: Window, trace: seq<Visit>)
    requires trace != []
    requires FollowsStep(file, rev, w, trace) && EndsScan(file, rev, w, trace)
    ensures trace == ScanFrom(file, rev, w, trace[0].pos, false)
    decreases |trace|
  {
    var cursor := trace[0].pos;
    var o := Step(file, rev, w, cursor);
    assert trace[0] == Visit(cursor, o.fate);
    if |trace| == 1 {
      if !o.fate.Stopped? {
        assert ScanFrom(file, rev, w, o.next, o.eof) == [];
      }
      assert trace == [Visit(cursor, o.fate)];
    } else {
      var rest := trace[1..];
      assert rest[|rest| - 1] == trace[|trace| - 1];
      ScanIsDetermined(file, rev, w, rest);
      assert trace == [trace[0]] + rest;
    }
  }

  lemma {:induction false} ScanFromAscending(file: StdfFile, rev: Revision, w: Window, cursor: int, eof: bool)
    ensures Ascending(cursor, ScanFrom(file, rev, w, cursor, eof))
    decreases if cursor < 0 then 0 else w.end - cursor + 1
  {
    if cursor < w.end && !eof {
      var o := Step(file, rev, w, cursor);
      if !o.fate.Stopped? {
        var rest := ScanFrom(file, rev, w, o.next, o.eof);
        ScanFromAscending(file, rev, w, o.next, o.eof);
        if o.next < 0 && o.next < w.end && !o.eof {
          // a cursor of -1 is visited once and stops the scan
          assert rest == [Visit(o.next, Stopped(InvalidPosition))];
        }
        var trace := ScanFrom(file, rev, w, cursor, eof);
        assert trace == [Visit(cursor, o.fate)] + rest;
        forall i | 0 <= i < |trace| && trace[i].pos >= 0
          ensures cursor <= trace[i].pos
        {
          if i > 0 {
            assert trace[i] == rest[i - 1];
          }
        }
        forall i, j | 0 <= i < j < |trace| && trace[j].pos >= 0
          ensures trace[i].pos + HeaderSize <= trace[j].pos
        {
          assert trace[j] == rest[j - 1];
          if i > 0 {
            assert trace[i] == rest[i - 1];
          }
        }
      }
    }
  }

  /** The FAR gate: the first record has type 0 and the supported CPU type and
      STDF version. */
  predicate FarGatePasses(file: StdfFile)
  {
    && file.readAt(0).recType == FarType
    && file.far.cpuType == SupportedCpuType
    && file.far.stdfVersion == SupportedStdfVersion
  }

  /** The cursor the loop starts from. After the gate, seekg(startPos) cannot
      clear a failed header read, so tellg() then reports -1. */
  function InitialCursor(file: StdfFile, w: Window): int
  {
    if w.start == 0 && file.readAt(0).failed then -1 else w.start
  }

  /** The whole call: nothing unless the file opens, the window is not
      inverted, and (when the window starts at offset 0) the FAR gate passes. */
  function Extract(file: StdfFile, rev: Revision, startPos: int, endPos: int): (trace: seq<Visit>)
    ensures trace != [] <==> && file.opens
                             && NormalizeWindow(startPos, endPos, file.size).Some?
                             && (NormalizeWindow(startPos, endPos, file.size).value.start == 0 ==> FarGatePasses(file))
    ensures trace != [] ==> trace[0].pos == InitialCursor(file, NormalizeWindow(startPos, endPos, file.size).value)
  {
    if !file.opens then []
    else
      match NormalizeWindow(startPos, endPos, file.size)
      case None => []
      case Some(w) =>
        if w.start == 0 && !FarGatePasses(file) then []
        else ScanFrom(file, rev, w, InitialCursor(file, w), false)
  }

  /** A nonempty result of `Extract` is a scan of the normalised window from
      the initial cursor that runs until it stops or leaves the window. */
  lemma ExtractShape(file: StdfFile, rev: Revision, startPos: int, endPos: int)
    ensures var trace := Extract(file, rev, startPos, endPos);
      trace != [] ==>
        var w := NormalizeWindow(startPos, endPos, file.size).value;
        && FollowsStep(file, rev, w, trace) && EndsScan(file, rev, w, trace)
        && Ascending(InitialCursor(file, w), trace)
  {
    if Extract(file, rev, startPos, endPos) != [] {
      var w := NormalizeWindow(startPos, endPos, file.size).value;
      ScanFromFollowsStep(file, rev, w, InitialCursor(file, w), false);
      ScanFromEnds(file, rev, w, InitialCursor(file, w), false);
      ScanFromAscending(file, rev, w, InitialCursor(file, w), false);
    }
  }

  /** The records a trace keeps, in trace order. */
  function KeptRecords(trace: seq<Visit>): (records: seq<Prr>)
    ensures |records| <= |trace|
  {
    if trace == [] then []
    else (if trace[0].fate.Kept? then [trace[0].fate.prr] else []) + KeptRecords(trace[1..])
  }

  /** The visits of a trace that keep a record, in trace order, matched one to
      one with `KeptRecords`. */
  function KeptVisits(trace: seq<Visit>): (kept: seq<Visit>)
    ensures forall v :: v in kept ==> v in trace && v.fate.Kept?
    ensures |kept| == |KeptRecords(trace)|
    ensures forall j :: 0 <= j < |kept| ==> kept[j].fate.prr == KeptRecords(trace)[j]
  {
    if trace == [] then []
    else (if trace[0].fate.Kept? then [trace[0]] else []) + KeptVisits(trace[1..])
  }

  /** What the call returns: the kept records of the whole scan. */
  function ExtractedRecords(file: StdfFile, rev: Revision, startPos: int, endPos: int): seq<Prr>
  {
    KeptRecords(Extract(file, rev, startPos, endPos))
  }

  lemma {:induction false} KeptRecordsAppend(a: seq<Visit>, b: seq<Visit>)
    ensures KeptRecords(a + b) == KeptRecords(a) + KeptRecords(b)
  {
    if a == [] {
      assert a + b == b;
    } else {
      var head := if a[0].fate.Kept? then [a[0].fate.prr] else [];
      assert (a + b)[0] == a[0];
      assert (a + b)[1..] == a[1..] + b;
      KeptRecordsAppend(a[1..], b);
      calc {
        KeptRecords(a + b);
        head + KeptRecords(a[1..] + b);
        head + (KeptRecords(a[1..]) + KeptRecords(b));
        (head + KeptRecords(a[1..])) + KeptRecords(b);
        KeptRecords(a) + KeptRecords(b);
      }
    }
  }

  /** Filtering keeps the order: if later kept visits of a trace lie beyond
      earlier ones, so do the kept visits among themselves. */
  lemma {:induction false} KeptVisitsInOrder(trace: seq<Visit>)
    requires forall i, j :: 0 <= i < j < |trace| && trace[j].fate.Kept? ==> trace[i].pos + HeaderSize <= trace[j].pos
    ensures forall i, j :: 0 <= i < j < |KeptVisits(trace)| ==> KeptVisits(trace)[i].pos + HeaderSize <= KeptVisits(trace)[j].pos
  {
    if trace != [] {
      var rest := trace[1..];
      KeptVisitsInOrder(rest);
      forall v | v in KeptVisits(rest)
        ensures trace[0].pos + HeaderSize <= v.pos
      {
        var j :| 0 <= j < |rest| && rest[j] == v;
        assert trace[j + 1] == v;
      }
    }
  }

  /** Every record the scan keeps was read without failure, lies in the
      window, carries a PRR type code, decoded to exactly that record, and
      passed the guard; and conversely every visited record with those
      properties is kept. As the bound is checked from the cursor after the
      header read, a kept record even ends a whole header before the window
      end: a record ending exactly at the window end is never kept. */
  lemma KeptIffAccepted(file: StdfFile, rev: Revision, startPos: int, endPos: int, w: Window)
    requires file.opens && NormalizeWindow(startPos, endPos, file.size) == Some(w)
    ensures var trace := Extract(file, rev, startPos, endPos);
      forall i :: 0 <= i < |trace| ==> (trace[i].fate.Kept? <==> Accepted(file, rev, w, trace[i].pos))
    ensures var trace := Extract(file, rev, startPos, endPos);
      forall i :: 0 <= i < |trace| && trace[i].fate.Kept? ==>
        && file.prrAt(trace[i].pos) == Parsed(trace[i].fate.prr)
        && w.start <= trace[i].pos
        && trace[i].pos + HeaderSize + file.readAt(trace[i].pos).length + HeaderSize <= w.end
  {
    var trace := Extract(file, rev, startPos, endPos);
    if trace != [] {
      assert w.start != 0 || FarGatePasses(file);
      assert trace == ScanFrom(file, rev, w, InitialCursor(file, w), false);
      ScanFromFollowsStep(file, rev, w, InitialCursor(file, w), false);
      ScanFromAscending(file, rev, w, InitialCursor(file, w), false);
      forall i | 0 <= i < |trace|
        ensures trace[i].fate.Kept? <==> Accepted(file, rev, w, trace[i].pos)
        ensures trace[i].fate.Kept? ==>
          && file.prrAt(trace[i].pos) == Parsed(trace[i].fate.prr)
          && w.start <= trace[i].pos
          && trace[i].pos + HeaderSize + file.readAt(trace[i].pos).length + HeaderSize <= w.end
      {
        StepRules(file, rev, w, trace[i].pos);
      }
    }
  }

  /** The returned records are exactly the kept visits' records, and those
      visits come in strictly increasing file order, at least a header
      apart. */
  lemma ExtractedRecordsInFileOrder(file: StdfFile, rev: Revision, startPos: int, endPos: int)
    ensures var kept := KeptVisits(Extract(file, rev, startPos, endPos));
      && |kept| == |ExtractedRecords(file, rev, startPos, endPos)|
      && (forall j :: 0 <= j < |kept| ==> kept[j].fate == Kept(ExtractedRecords(file, rev, startPos, endPos)[j]))
      && (forall i, j :: 0 <= i < j < |kept| ==> kept[i].pos + HeaderSize <= kept[j].pos)
  {
    var trace := Extract(file, rev, startPos, endPos);
    if trace != [] {
      var w := NormalizeWindow(startPos, endPos, file.size).value;
      ExtractShape(file, rev, startPos, endPos);
      forall i, j | 0 <= i < j < |trace| && trace[j].fate.Kept?
        ensures trace[i].pos + HeaderSize <= trace[j].pos
      {
        StepRules(file, rev, w, trace[j].pos);
      }
    }
    KeptVisitsInOrder(trace);
    var kept := KeptVisits(trace);
    forall j | 0 <= j < |kept|
      ensures kept[j].fate == Kept(ExtractedRecords(file, rev, startPos, endPos)[j])
    {
      assert kept[j] in kept;
    }
  }

  /** A header read that reaches the end of the file without failing ends the
      scan at that record and keeps nothing from it: the window check fails,
      and the skip cannot move a stream whose fail flag tellg() has set. */
  lemma EofReadEndsScan(file: StdfFile, rev: Revision, w: Window, pos: int)
    requires 0 <= pos < w.end && !file.readAt(pos).failed && file.readAt(pos).eof
    ensures Step(file, rev, w, pos).fate.Stopped?
    ensures ScanFrom(file, rev, w, pos, false) == [Visit(pos, Step(file, rev, w, pos).fate)]
    ensures KeptRecords(ScanFrom(file, rev, w, pos, false)) == []
  {
    var trace := ScanFrom(file, rev, w, pos, false);
    assert trace[1..] == [];
  }

  /** The records one fate keeps. */
  function KeptBy(fate: Fate): seq<Prr>
  {
    if fate.Kept? then [fate.prr] else []
  }

  /** One iteration of the scan, for the records it keeps: a stopping
      iteration ends the scan, any other one hands over to the rest. */
  lemma ScanFromStep(file: StdfFile, rev: Revision, w: Window, cursor: int, eof: bool)
    requires cursor < w.end && !eof
    ensures var o := Step(file, rev, w, cursor);
      KeptRecords(ScanFrom(file, rev, w, cursor, eof))
      == KeptBy(o.fate) + (if o.fate.Stopped? then [] else KeptRecords(ScanFrom(file, rev, w, o.next, o.eof)))
  {
    var o := Step(file, rev, w, cursor);
    var rest := if o.fate.Stopped? then [] else ScanFrom(file, rev, w, o.next, o.eof);
    assert ScanFrom(file, rev, w, cursor, eof) == [Visit(cursor, o.fate)] + rest;
    KeptRecordsAppend([Visit(cursor, o.fate)], rest);
    assert [Visit(cursor, o.fate)][1..] == [];
    assert KeptRecords([Visit(cursor, o.fate)]) == KeptBy(o.fate) + [];
  }

  /** The records the scan from `cursor` keeps, computed iteration by
      iteration. */
  function KeptFrom(file: StdfFile, rev: Revision, w: Window, cursor: int, eof: bool): seq<Prr>
    decreases if cursor < 0 then 0 else w.end - cursor + 1
  {
    if cursor < w.end && !eof then
      var o := Step(file, rev, w, cursor);
      KeptBy(o.fate) + (if o.fate.Stopped? then [] else KeptFrom(file, rev, w, o.next, o.eof))
    else
      []
  }

  /** Computing the kept records iteration by iteration agrees with filtering
      the whole trace. */
  lemma {:induction false} KeptFromIsKeptRecords(file: StdfFile, rev: Revision, w: Window, cursor: int, eof: bool)
    ensures KeptFrom(file, rev, w, cursor, eof) == KeptRecords(ScanFrom(file, rev, w, cursor, eof))
    decreases if cursor < 0 then 0 else w.end - cursor + 1
  {
    if cursor < w.end && !eof {
      var o := Step(file, rev, w, cursor);
      ScanFromStep(file, rev, w, cursor, eof);
      if !o.fate.Stopped? {
        KeptFromIsKeptRecords(file, rev, w, o.next, o.eof);
      }
    }
  }

  /** One iteration of the scan on top of the records kept so far: a stopping
      iteration adds nothing, any other one adds what its fate keeps and hands
      over to the rest of the scan. */
  lemma KeptFromStep(file: StdfFile, rev: Revision, w: Window, cursor: int, eof: bool, acc: seq<Prr>)
    requires cursor < w.end && !eof
    ensures var o := Step(file, rev, w, cursor);
      o.fate.Stopped? ==> acc + KeptFrom(file, rev, w, cursor, eof) == acc
    ensures var o := Step(file, rev, w, cursor);
      !o.fate.Stopped? ==> acc + KeptFrom(file, rev, w, cursor, eof)
                           == (acc + KeptBy(o.fate)) + KeptFrom(file, rev, w, o.next, o.eof)
    ensures !Step(file, rev, w, cursor).fate.Kept? ==> acc + KeptBy(Step(file, rev, w, cursor).fate) == acc
  {
    var o := Step(file, rev, w, cursor);
    var head := KeptBy(o.fate);
    if o.fate.Stopped? {
      assert head == [] && KeptFrom(file, rev, w, cursor, eof) == [];
    } else {
      var tail := KeptFrom(file, rev, w, o.next, o.eof);
      assert acc + (head + tail) == (acc + head) + tail;
    }
  }

  /** In a trace where only the last visit may stop, a stopping visit is the
      last one and keeps nothing. */
  lemma StopIsLast(trace: seq<Visit>, k: nat)
    requires forall i :: 0 <= i < |trace| - 1 ==> !trace[i].fate.Stopped?
    requires k < |trace| && trace[k].fate.Stopped?
    ensures k == |trace| - 1
    ensures KeptRecords(trace) == KeptRecords(trace[..k])
  {
    var last := [trace[k]];
    assert trace == trace[..k] + last;
    KeptRecordsAppend(trace[..k], last);
    assert last[1..] == [];
    assert KeptRecords(last) == [] + [];
  }

  /** A scan that stops does so at its last iteration, and every record kept
      before the stop is still returned. */
  lemma AbortKeepsEarlierRecords(file: StdfFile, rev: Revision, startPos: int, endPos: int, k: nat)
    requires k < |Extract(file, rev, startPos, endPos)|
    requires Extract(file, rev, startPos, endPos)[k].fate.Stopped?
    ensures k == |Extract(file, rev, startPos, endPos)| - 1
    ensures ExtractedRecords(file, rev, startPos, endPos) == KeptRecords(Extract(file, rev, startPos, endPos)[..k])
  {
    ExtractShape(file, rev, startPos, endPos);
    StopIsLast(Extract(file, rev, startPos, endPos), k);
  }

  /** At offset 0 the FAR gate decides: an unsupported first record yields
      nothing, a supported one lets the scan run from offset 0 (or from a
      failed stream when that read failed). */
  lemma FarGateDecides(file: StdfFile, rev: Revision, startPos: int, endPos: int, w: Window)
    requires file.opens && NormalizeWindow(startPos, endPos, file.size) == Some(w) && w.start == 0
    ensures !FarGatePasses(file) ==> Extract(file, rev, startPos, endPos) == []
    ensures file.readAt(0).recType != FarType ==> Extract(file, rev, startPos, endPos) == []
    ensures FarGatePasses(file) && !file.readAt(0).failed
            ==> Extract(file, rev, startPos, endPos) == ScanFrom(file, rev, w, 0, false)
    ensures FarGatePasses(file) && file.readAt(0).failed
            ==> Extract(file, rev, startPos, endPos) == [Visit(-1, Stopped(InvalidPosition))]
  {
  }

  /** An inverted window, or a file that does not open, yields nothing. */
  lemma NothingToDo(file: StdfFile, rev: Revision, startPos: int, endPos: int)
    requires !file.opens || NormalizeWindow(startPos, endPos, file.size).None?
    ensures Extract(file, rev, startPos, endPos) == []
  {
  }

  /** In the earlier revision a visited record is kept exactly when it is read
      without reaching the end of the file, in range, typed 5, 25 or 185,
      decodes, and has both bins at or above -10000: head and site play no
      part. */
  lemma EarlyKeptIffBinsSane(file: StdfFile, w: Window, pos: int)
    ensures Step(file, Early, w, pos).fate.Kept?
            <==> && pos >= 0 && !file.readAt(pos).failed && !file.readAt(pos).eof
                 && IsInRange(AfterHeader(file, pos), file.readAt(pos).length, w.start, w.end)
                 && file.readAt(pos).recType in {5, 25, 185}
                 && file.prrAt(pos).Parsed?
                 && file.prrAt(pos).prr.hardBin >= -10000 && file.prrAt(pos).prr.softBin >= -10000
  {
  }

  /** The body of the `try` block of one loop iteration, at a valid cursor:
      reads the header, skips records outside the window or of other types,
      and decodes and screens PRRs. A `break` of the source is a `Stopped`
      fate; the cursor and eof flag afterwards are `next` and `nextEof`.
      It is the statement form of `Step`, branch for branch, and its first
      ensures ties the two together. */
  method ReadRecord(file: StdfFile, rev: Revision, start: int, end: int, recordStartPos: int)
    returns (fate: Fate, next: int, nextEof: bool)
    requires recordStartPos >= 0
    ensures Outcome(fate, next, nextEof) == Step(file, rev, Window(start, end), recordStartPos)
    ensures fate.Kept? ==> IsSanePrr(rev, fate.prr)
  {
    var header := file.readAt(recordStartPos);
    if header.failed {
      return Stopped(ReadFailed), recordStartPos, false;
    }
    var afterHeader := recordStartPos + HeaderSize + header.extra;
    // tellg() inside isInRange fails once the read has hit end-of-file
    var currentPos := if header.eof then -1 else afterHeader;
    if !IsInRange(currentPos, header.length, start, end) {
      var skipLength := header.length;
      if skipLength <= 0 || skipLength > MaxRecordLength {
        return Stopped(BadLength), recordStartPos, false;
      }
      // seekg clears the eof flag but cannot recover from the fail flag
      if header.eof || file.seekFails(recordStartPos) {
        return Stopped(SeekFailed), recordStartPos, false;
      }
      return SkippedOutOfRange, afterHeader + skipLength, false;
    }

    if IsPrrRecordType(rev, header.recType) {
      match file.prrAt(recordStartPos) {
        case ParseThrew =>
          // the catch block skips the payload without checking the stream
          fate := ParseFailed;
          next := if file.seekFails(recordStartPos) then -1 else afterHeader + header.length;
          nextEof := false;
        case Parsed(prrRecord) =>
          fate := if IsSanePrr(rev, prrRecord) then Kept(prrRecord) else Discarded(prrRecord);
          next, nextEof := afterHeader, header.eof;
      }
    } else {
      var skipLength := header.length;
      if skipLength < 0 || skipLength > MaxRecordLength {
        return Stopped(BadLength), recordStartPos, false;
      }
      if file.seekFails(recordStartPos) {
        return Stopped(SeekFailed), recordStartPos, false;
      }
      fate, next, nextEof := SkippedOther, afterHeader + skipLength, false;
    }
  }

  /** Once the file is open, the window is not inverted and the FAR gate (if
      any) has passed, the call returns what the scan of the window keeps. */
  lemma ExtractScansWindow(file: StdfFile, rev: Revision, startPos: int, endPos: int, w: Window)
    requires file.opens && NormalizeWindow(startPos, endPos, file.size) == Some(w)
    requires w.start == 0 ==> FarGatePasses(file)
    ensures ExtractedRecords(file, rev, startPos, endPos) == KeptFrom(file, rev, w, InitialCursor(file, w), false)
  {
    KeptFromIsKeptRecords(file, rev, w, InitialCursor(file, w), false);
  }

  /** extractPrrRecords: scans the window of `file` and returns the decoded
      PRRs it keeps, in file order. Aborts keep the records found so far. */
  method ExtractPrrRecords(file: StdfFile, rev: Revision, startPos: int, endPos: int) returns (prrRecords: seq<Prr>)
    ensures prrRecords == ExtractedRecords(file, rev, startPos, endPos)
    ensures forall r :: r in prrRecords ==> IsSanePrr(rev, r)
  {
    prrRecords := [];
    if !file.opens {
      NothingToDo(file, rev, startPos, endPos);
      return;
    }
    var fileSize := file.size;
    var start, end := startPos, endPos;
    if start < 0 {
      start := 0;
    }
    if end < 0 || end > fileSize {
      end := fileSize;
    }
    if start >= end {
      NothingToDo(file, rev, startPos, endPos);
      return;
    }
    ghost var w := Window(start, end);
    assert NormalizeWindow(startPos, endPos, fileSize) == Some(w);
    var cursor, eof := start, false;
    if start == 0 {
      var farHeader := file.readAt(cursor);
      if farHeader.recType != FarType {
        FarGateDecides(file, rev, startPos, endPos, w);
        return;
      }
      var farRecord := file.far;
      if farRecord.cpuType != SupportedCpuType {
        FarGateDecides(file, rev, startPos, endPos, w);
        return;
      }
      if farRecord.stdfVersion != SupportedStdfVersion {
        FarGateDecides(file, rev, startPos, endPos, w);
        return;
      }
      if farHeader.failed {
        cursor := -1;
      }
    }
    ExtractScansWindow(file, rev, startPos, endPos, w);
    ghost var total := ExtractedRecords(file, rev, startPos, endPos);

    var invalidPositions := 0;
    while cursor < end && !eof
      invariant w == Window(start, end)
      invariant invalidPositions == 0
      invariant total == prrRecords + KeptFrom(file, rev, w, cursor, eof)
      invariant forall r :: r in prrRecords ==> IsSanePrr(rev, r)
      decreases if cursor < 0 then 0 else end - cursor + 1
    {
      var recordStartPos := cursor;
      if recordStartPos < 0 {
        // every path of the invalid-position handler leaves the loop
        invalidPositions := invalidPositions + 1;
        if invalidPositions >= MaxInvalidPositions {
          break;
        }
        var endOfFile := file.reprobedSize;
        if endOfFile > 0 && endOfFile < end {
          end := endOfFile;
        }
        break;
      }
      invalidPositions := 0;

      var fate, next, nextEof := ReadRecord(file, rev, start, end, recordStartPos);
      KeptFromStep(file, rev, w, cursor, eof, prrRecords);
      if fate.Stopped? {
        break;
      }
      if fate.Kept? {
        prrRecords := prrRecords + [fate.prr];
      }
      cursor, eof := next, nextEof;
    }
  }
}
