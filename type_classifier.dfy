/** Recognition of Part Results Records by their type code: one canonical
    code per revision plus two codes observed in production data. The
    diagnostic frequency table of the source never influences the decision
    and is not modelled. */
module TypeClassifier {
  import opened StdfRecords

  const PrrTypeAlt1: int := 25
  const PrrTypeAlt2: int := 185

  /** PRR_TYPE: 16 in extractor.h, 5 in extractosr.h. */
  function CanonicalPrrType(rev: Revision): int
  {
    match rev
    case Current => 16
    case Early => 5
  }

  /** isPrrRecordType: membership in the alias set of the revision. */
  function IsPrrRecordType(rev: Revision, recType: int): (r: bool)
    ensures rev == Current ==> (r <==> recType == 16 || recType == 25 || recType == 185)
    ensures rev == Early ==> (r <==> recType == 5 || recType == 25 || recType == 185)
    ensures r ==> recType != FarType
  {
    if recType == CanonicalPrrType(rev) then true
    else if recType == PrrTypeAlt1 then true
    else recType == PrrTypeAlt2
  }

  /** The two revisions classify every code alike except the two canonical
      codes, each of which only its own revision accepts. */
  lemma RevisionsDisagreeOnlyOnCanonicalCodes(recType: int)
    ensures IsPrrRecordType(Current, recType) != IsPrrRecordType(Early, recType)
            <==> recType == 5 || recType == 16
    ensures recType == 16 ==> IsPrrRecordType(Current, recType) && !IsPrrRecordType(Early, recType)
    ensures recType == 5 ==> IsPrrRecordType(Early, recType) && !IsPrrRecordType(Current, recType)
  {
  }
}
