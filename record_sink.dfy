/** The vector of extracted records a caller owns and hands back for release. */
module RecordSink {
  import opened StdfRecords

  /** A std::vector<StdfPRR*>: the records it holds, in order. */
  class PrrVector {
    var items: seq<Prr>

    constructor(items: seq<Prr>)
      ensures this.items == items
    {
      this.items := items;
    }
  }

  /** freePrrRecords: releases every record, then clears the vector. */
  method FreePrrRecords(prrRecords: PrrVector)
    modifies prrRecords
    ensures prrRecords.items == []
  {
    // the `delete` of each record: the records themselves are values here,
    // so releasing one changes nothing the model can observe
    var released := 0;
    while released < |prrRecords.items|
      invariant 0 <= released <= |prrRecords.items|
      invariant prrRecords.items == old(prrRecords.items)
    {
      released := released + 1;
    }
    prrRecords.items := [];
  }
}
