/** sanitizeString and the record-to-element mapping of savePrrRecords.
    The JSON text layout, the output directory and the file itself are not
    part of this model: the output is the sequence of elements handed to the
    JSON library. */
module ResultSerializer {
  import opened StdfRecords

  const Nul: byte := 0
  const Quote: byte := 34
  const Slash: byte := 47
  const Placeholder: byte := 63
  const Backslash: byte := 92

  /** Printable ASCII: 32 up to and including 126. */
  predicate IsPrintable(b: byte)
  {
    32 <= b < 127
  }

  /** The three bytes extractor.h escapes with a backslash. */
  predicate NeedsEscape(b: byte)
  {
    b == Backslash || b == Quote || b == Slash
  }

  /** The C string a `const char*` denotes: the bytes up to the first NUL
      (all of the buffer when it holds none). */
  function CString(buffer: seq<byte>): (s: seq<byte>)
    ensures |s| <= |buffer| && s == buffer[..|s|]
    ensures forall i :: 0 <= i < |s| ==> s[i] != Nul
    ensures |s| < |buffer| ==> buffer[|s|] == Nul
  {
    if buffer == [] || buffer[0] == Nul then []
    else [buffer[0]] + CString(buffer[1..])
  }

  /** The C string of a buffer is its prefix up to the first NUL. */
  lemma {:induction false} CStringIsPrefixToNul(buffer: seq<byte>, n: nat)
    requires n <= |buffer|
    requires forall k :: 0 <= k < n ==> buffer[k] != Nul
    requires n == |buffer| || buffer[n] == Nul
    ensures CString(buffer) == buffer[..n]
  {
    if n > 0 {
      CStringIsPrefixToNul(buffer[1..], n - 1);
      assert buffer[..n] == [buffer[0]] + buffer[1..][..n - 1];
    }
  }

  /** What the sanitizer appends for one input byte. */
  function SanitizedByte(rev: Revision, b: byte): seq<byte>
  {
    match rev
    case Current =>
      if IsPrintable(b) then (if NeedsEscape(b) then [Backslash, b] else [b])
      else [Placeholder]
    case Early =>
      if b < 128 then [b] else [Placeholder]
  }

  /** The sanitizer's output for the bytes `s`, built left to right. */
  function Sanitized(rev: Revision, s: seq<byte>): seq<byte>
  {
    if s == [] then []
    else Sanitized(rev, s[..|s| - 1]) + SanitizedByte(rev, s[|s| - 1])
  }

  /** sanitizeString: a null pointer gives the empty string; otherwise the
      bytes before the terminating NUL are sanitized one by one. */
  method SanitizeString(rev: Revision, input: Option<seq<byte>>) returns (result: seq<byte>)
    ensures input.None? ==> result == []
    ensures input.Some? ==> result == Sanitized(rev, CString(input.value))
  {
    if input.None? {
      return [];
    }
    var buffer := input.value;
    result := [];
    var i := 0;
    while i < |buffer| && buffer[i] != Nul
      invariant 0 <= i <= |buffer|
      invariant forall k :: 0 <= k < i ==> buffer[k] != Nul
      invariant result == Sanitized(rev, buffer[..i])
    {
      var c := buffer[i];
      match rev {
        case Current =>
          if 32 <= c < 127 {
            if c == Backslash || c == Quote || c == Slash {
              result := result + [Backslash, c];
            } else {
              result := result + [c];
            }
          } else {
            result := result + [Placeholder];
          }
        case Early =>
          if c < 128 {
            result := result + [c];
          } else {
            result := result + [Placeholder];
          }
      }
      assert buffer[..i + 1][..i] == buffer[..i];
      i := i + 1;
    }
    CStringIsPrefixToNul(buffer, i);
  }

  lemma {:induction false} SanitizedAppend(rev: Revision, a: seq<byte>, b: seq<byte>)
    ensures Sanitized(rev, a + b) == Sanitized(rev, a) + Sanitized(rev, b)
    decreases |b|
  {
    if b == [] {
      assert a + b == a;
    } else {
      var init, last := b[..|b| - 1], b[|b| - 1];
      assert (a + b)[..|a + b| - 1] == a + init;
      assert (a + b)[|a + b| - 1] == last;
      SanitizedAppend(rev, a, init);
      calc {
        Sanitized(rev, a + b);
        Sanitized(rev, a + init) + SanitizedByte(rev, last);
        (Sanitized(rev, a) + Sanitized(rev, init)) + SanitizedByte(rev, last);
        Sanitized(rev, a) + (Sanitized(rev, init) + SanitizedByte(rev, last));
      }
    }
  }

  /** Sanitizing one byte and then the rest. */
  lemma SanitizedCons(rev: Revision, b: byte, rest: seq<byte>)
    ensures Sanitized(rev, [b] + rest) == SanitizedByte(rev, b) + Sanitized(rev, rest)
  {
    SanitizedAppend(rev, [b], rest);
    assert [b][..0] == [];
    assert Sanitized(rev, [b]) == [] + SanitizedByte(rev, b);
  }

  /** In extractor.h the output grows by one byte per backslash, double quote
      and slash of the input. */
  lemma {:induction false} SanitizedLength(s: seq<byte>)
    ensures |Sanitized(Current, s)| == |s| + multiset(s)[Backslash] + multiset(s)[Quote] + multiset(s)[Slash]
  {
    if s != [] {
      var init := s[..|s| - 1];
      assert s == init + [s[|s| - 1]];
      SanitizedLength(init);
    }
  }

  /** In extractor.h every output byte is printable ASCII. */
  lemma {:induction false} SanitizedIsPrintable(s: seq<byte>)
    ensures forall b :: b in Sanitized(Current, s) ==> IsPrintable(b)
  {
    if s != [] {
      SanitizedIsPrintable(s[..|s| - 1]);
    }
  }

  /** In extractosr.h the output has the input's length, keeps every byte
      below 128 and turns every other byte into '?'. */
  lemma {:induction false} EarlySanitizedPointwise(s: seq<byte>)
    ensures |Sanitized(Early, s)| == |s|
    ensures forall i :: 0 <= i < |s| ==>
      Sanitized(Early, s)[i] == (if s[i] < 128 then s[i] else Placeholder)
  {
    if s != [] {
      EarlySanitizedPointwise(s[..|s| - 1]);
    }
  }

  /** Both revisions emit pure 7-bit ASCII. */
  lemma SanitizedIsAscii(rev: Revision, s: seq<byte>)
    ensures forall b :: b in Sanitized(rev, s) ==> b < 128
  {
    match rev
    case Current =>
      SanitizedIsPrintable(s);
    case Early =>
      EarlySanitizedPointwise(s);
  }

  /** The byte a printable-only view of the input shows. */
  function Mask(b: byte): byte
  {
    if IsPrintable(b) then b else Placeholder
  }

  /** Reads back an escaped string: a backslash stands for the byte after it. */
  function Unescape(t: seq<byte>): seq<byte>
  {
    if t == [] then []
    else if t[0] == Backslash && |t| >= 2 then [t[1]] + Unescape(t[2..])
    else [t[0]] + Unescape(t[1..])
  }

  /** The input as a printable-only view shows it. */
  function Masked(s: seq<byte>): (r: seq<byte>)
    ensures |r| == |s|
    ensures forall i :: 0 <= i < |s| ==> r[i] == Mask(s[i])
  {
    if s == [] then [] else [Mask(s[0])] + Masked(s[1..])
  }

  /** Undoing the escape of one sanitized byte gives its masked form back. */
  lemma UnescapeByte(b: byte, t: seq<byte>)
    ensures Unescape(SanitizedByte(Current, b) + t) == [Mask(b)] + Unescape(t)
  {
    var u := SanitizedByte(Current, b) + t;
    if IsPrintable(b) && NeedsEscape(b) {
      assert u[0] == Backslash && u[1] == b && u[2..] == t;
    } else {
      assert u[0] == Mask(b) && u[1..] == t;
    }
  }

  /** Undoing the escapes of extractor.h gives back the input with every
      non-printable byte replaced by '?'. */
  lemma {:induction false} UnescapeSanitized(s: seq<byte>)
    ensures Unescape(Sanitized(Current, s)) == Masked(s)
  {
    if s != [] {
      var rest := s[1..];
      assert s == [s[0]] + rest;
      SanitizedCons(Current, s[0], rest);
      UnescapeByte(s[0], Sanitized(Current, rest));
      UnescapeSanitized(rest);
    }
  }

  /** Two different printable strings stay different after sanitizing. */
  lemma SanitizeKeepsPrintableDistinct(s: seq<byte>, t: seq<byte>)
    requires forall i :: 0 <= i < |s| ==> IsPrintable(s[i])
    requires forall i :: 0 <= i < |t| ==> IsPrintable(t[i])
    requires Sanitized(Current, s) == Sanitized(Current, t)
    ensures s == t
  {
    UnescapeSanitized(s);
    UnescapeSanitized(t);
    assert s == Masked(s);
    assert t == Masked(t);
  }

  /** The four part flags of extractor.h. */
  datatype PartFlags = PartFlags(superseded: bool, abnormal: bool, failed: bool, invalidFlag: bool)

  /** One JSON object of the output array. Fields the earlier revision does
      not write are None there. */
  datatype Element = Element(
    headNumber: int,
    siteNumber: int,
    testCount: int,
    hardBin: int,
    softBin: int,
    xCoord: Option<int>,
    yCoord: Option<int>,
    testTime: nat,
    partFlags: Option<PartFlags>,
    partId: Option<seq<byte>>,
    partText: Option<seq<byte>>,
    lastModified: int,
    sot: int,
    eot: int)

  /** The sanitized form of an optional C string, absent for a null pointer. */
  function SanitizedField(rev: Revision, field: Option<seq<byte>>): Option<seq<byte>>
  {
    match field
    case None => None
    case Some(buffer) => Some(Sanitized(rev, CString(buffer)))
  }

  /** The element written for one record. The start of test is the sync time
      less the whole seconds of the elapsed test time. */
  function ToElement(rev: Revision, prr: Prr, syncTime: int): (e: Element)
    ensures e.eot == syncTime && e.lastModified == syncTime
    ensures (e.eot - e.sot) * 1000 <= prr.elapsedMs < (e.eot - e.sot + 1) * 1000
    ensures e.headNumber == prr.headNumber && e.siteNumber == prr.siteNumber
    ensures e.testCount == prr.testCount && e.testTime == prr.elapsedMs
    ensures e.hardBin == prr.hardBin && e.softBin == prr.softBin
    ensures e.partId.Some? <==> prr.partId.Some?
    ensures prr.partId.Some? ==> e.partId.value == Sanitized(rev, CString(prr.partId.value))
    ensures rev == Current ==>
      && e.xCoord == Some(prr.xCoord) && e.yCoord == Some(prr.yCoord)
      && e.partFlags == Some(PartFlags(prr.superseded, prr.abnormal, prr.failed, prr.invalidFlag))
      && (e.partText.Some? <==> prr.partText.Some?)
      && (prr.partText.Some? ==> e.partText.value == Sanitized(rev, CString(prr.partText.value)))
    ensures rev == Early ==> e.xCoord.None? && e.yCoord.None? && e.partFlags.None? && e.partText.None?
  {
    var current := rev == Current;
    Element(
      prr.headNumber, prr.siteNumber, prr.testCount, prr.hardBin, prr.softBin,
      if current then Some(prr.xCoord) else None,
      if current then Some(prr.yCoord) else None,
      prr.elapsedMs,
      if current then Some(PartFlags(prr.superseded, prr.abnormal, prr.failed, prr.invalidFlag)) else None,
      SanitizedField(rev, prr.partId),
      if current then SanitizedField(rev, prr.partText) else None,
      syncTime,
      syncTime - prr.elapsedMs / 1000,
      syncTime)
  }

  /** The elements of a record vector, one per record, in order. */
  function Elements(rev: Revision, prrRecords: seq<Prr>, syncTime: int): (elements: seq<Element>)
    ensures |elements| == |prrRecords|
    ensures forall i :: 0 <= i < |prrRecords| ==> elements[i] == ToElement(rev, prrRecords[i], syncTime)
  {
    seq(|prrRecords|, i requires 0 <= i < |prrRecords| => ToElement(rev, prrRecords[i], syncTime))
  }

  /** The body of the conversion loop: the JSON object for one record. */
  method ToJsonRecord(rev: Revision, prr: Prr, syncTime: int) returns (element: Element)
    ensures element == ToElement(rev, prr, syncTime)
  {
    var xCoord, yCoord, partFlags, partText := None, None, None, None;
    if rev == Current {
      xCoord, yCoord := Some(prr.xCoord), Some(prr.yCoord);
      partFlags := Some(PartFlags(prr.superseded, prr.abnormal, prr.failed, prr.invalidFlag));
    }
    var partId := None;
    if prr.partId.Some? {
      var sanitized := SanitizeString(rev, prr.partId);
      partId := Some(sanitized);
    }
    if rev == Current && prr.partText.Some? {
      var sanitized := SanitizeString(rev, prr.partText);
      partText := Some(sanitized);
    }
    element := Element(
      prr.headNumber, prr.siteNumber, prr.testCount, prr.hardBin, prr.softBin,
      xCoord, yCoord, prr.elapsedMs, partFlags, partId, partText,
      syncTime, syncTime - prr.elapsedMs / 1000, syncTime);
  }

  /** savePrrRecords: builds one element per record and writes the array;
      the call fails exactly when the output file cannot be opened. An empty
      vector still succeeds with an empty array. */
  method SavePrrRecords(rev: Revision, prrRecords: seq<Prr>, syncTime: int, outputOpens: bool)
    returns (ok: bool, written: seq<Element>)
    ensures ok == outputOpens
    ensures ok ==> written == Elements(rev, prrRecords, syncTime)
    ensures !ok ==> written == []
  {
    if |prrRecords| == 0 {
      if !outputOpens {
        return false, [];
      }
      return true, [];
    }
    var jsonRecords: seq<Element> := [];
    for i := 0 to |prrRecords|
      invariant |jsonRecords| == i
      invariant forall k :: 0 <= k < i ==> jsonRecords[k] == ToElement(rev, prrRecords[k], syncTime)
    {
      var element := ToJsonRecord(rev, prrRecords[i], syncTime);
      jsonRecords := jsonRecords + [element];
    }
    assert jsonRecords == Elements(rev, prrRecords, syncTime);
    if !outputOpens {
      return false, [];
    }
    return true, jsonRecords;
  }
}
