/** The layer joining coverage, enrolment and membership of one filter. */
module Crlite {
  import opened ByteStrings
  import opened Clubcard
  import opened FilterFormat

  datatype Status = StatusGood | StatusNotCovered | StatusNotEnrolled | StatusRevoked

  datatype LookupKey = LookupKey(issuer: Bytes32, serial: Bytes, issuerSerialHash: Bytes32)

  datatype LogTimestamp = LogTimestamp(logId: Bytes32, timestamp: nat)

  function NewKey(sha: Digest, issuer: Bytes32, serial: Bytes): LookupKey {
    LookupKey(issuer, serial, sha(issuer + serial))
  }

  /** The filter covers the given log at the given instant. */
  predicate Covers(f: RevocationFilter, t: LogTimestamp) {
    t.logId in f.coverage && f.coverage[t.logId].low <= t.timestamp <= f.coverage[t.logId].high
  }

  predicate CoversAny(f: RevocationFilter, timestamps: seq<LogTimestamp>) {
    exists i | 0 <= i < |timestamps| :: Covers(f, timestamps[i])
  }

  predicate Usable(f: RevocationFilter) {
    RanksWithin(f.filter.blocks, |f.filter.x|)
  }

  /** What a covering filter says of a key. */
  ghost function Verdict(f: RevocationFilter, key: LookupKey): Status
    requires Usable(f)
  {
    if key.issuer !in f.filter.blocks then StatusNotEnrolled
    else if Member(f.filter, f.filter.blocks[key.issuer], key.issuerSerialHash, key.serial) then StatusRevoked
    else StatusGood
  }

  /** The answer depends on the timestamps only through whether one is covered. */
  ghost function StatusOf(f: RevocationFilter, key: LookupKey, timestamps: seq<LogTimestamp>): Status
    requires Usable(f)
  {
    if CoversAny(f, timestamps) then Verdict(f, key) else StatusNotCovered
  }

  method ContainsAt(f: RevocationFilter, key: LookupKey, t: LogTimestamp) returns (status: Status)
    requires Usable(f)
    ensures status == if Covers(f, t) then Verdict(f, key) else StatusNotCovered
  {
    if t.logId !in f.coverage {
      return StatusNotCovered;
    }
    var iv := f.coverage[t.logId];
    if t.timestamp < iv.low || t.timestamp > iv.high {
      return StatusNotCovered;
    }
    if key.issuer !in f.filter.blocks {
      return StatusNotEnrolled;
    }
    var member := Clubcard.Contains(f.filter, f.filter.blocks[key.issuer], key.issuerSerialHash, key.serial);
    if member {
      return StatusRevoked;
    }
    return StatusGood;
  }

  method Contains(f: RevocationFilter, key: LookupKey, timestamps: seq<LogTimestamp>) returns (status: Status)
    requires Usable(f)
    ensures status == StatusOf(f, key, timestamps)
  {
    for i := 0 to |timestamps|
      invariant forall j | 0 <= j < i :: !Covers(f, timestamps[j])
    {
      status := ContainsAt(f, key, timestamps[i]);
      if status != StatusNotCovered {
        return;
      }
    }
    return StatusNotCovered;
  }
}
