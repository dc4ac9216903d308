/**
 * The part of exiv2's IPTC container that the writer drives: an ordered list
 * of (key, value) records with `findKey`, `Iptcdatum::setValue`, `erase`
 * and `add`.
 */
module Exiv2Iptc {

  /** One IPTC dataset occurrence, e.g. ("Iptc.Application2.Keywords", "dog"). */
  datatype Record = Record(key: string, value: string)

  /**
   * The datasets, among those the writer knows a byte limit for, that IPTC
   * IIM 4.1 declares repeatable; every other dataset may occur at most once.
   */
  const RepeatableDataSets: set<string> := {
    "Iptc.Application2.Byline",
    "Iptc.Application2.BylineTitle",
    "Iptc.Application2.Contact",
    "Iptc.Application2.Keywords"
  }

  predicate Repeatable(key: string) {
    key in RepeatableDataSets
  }

  predicate HasKey(records: seq<Record>, key: string) {
    exists j | 0 <= j < |records| :: records[j].key == key
  }

  /** Index of the first record with `key`, or the length when there is none. */
  function FirstWithKey(records: seq<Record>, key: string): (i: nat)
    ensures i <= |records|
    ensures i < |records| ==> records[i].key == key
    ensures forall j :: 0 <= j < i ==> records[j].key != key
  {
    if records == [] then 0
    else if records[0].key == key then 0
    else 1 + FirstWithKey(records[1..], key)
  }

  /** `exiv2::IptcData`; an index into `records` plays the part of its iterator. */
  class IptcData {
    var records: seq<Record>

    constructor (records: seq<Record>)
      ensures this.records == records
    {
      this.records := records;
    }

    /** `findKey`: the first record with the key, or `end()` (the length) if none. */
    function FindKey(key: string): (i: nat)
      reads this
      ensures i <= |records|
      ensures i < |records| <==> HasKey(records, key)
      ensures i < |records| ==> records[i].key == key
      ensures forall j :: 0 <= j < i ==> records[j].key != key
    {
      FirstWithKey(records, key)
    }

    /** `datum.setValue(value)` on the record at `i`; its key stays. */
    method SetValue(i: nat, value: string)
      requires i < |records|
      modifies this
      ensures records == old(records)[i := Record(old(records)[i].key, value)]
    {
      records := records[i := Record(records[i].key, value)];
    }

    /** `erase(datum)`: removes the record at `i` and returns the iterator to its successor. */
    method Erase(i: nat) returns (next: nat)
      requires i < |records|
      modifies this
      ensures records == old(records)[..i] + old(records)[i + 1..]
      ensures next == i
    {
      records := records[..i] + records[i + 1..];
      next := i;
    }

    /**
     * `add(datum)`: refuses (returns 6) a dataset that is not repeatable and
     * already present; otherwise appends the record and returns 0.
     */
    method Add(r: Record) returns (rc: int)
      modifies this
      ensures rc == 0 || rc == 6
      ensures rc != 0 <==> !Repeatable(r.key) && HasKey(old(records), r.key)
      ensures records == if rc == 0 then old(records) + [r] else old(records)
    {
      if !Repeatable(r.key) && HasKey(records, r.key) {
        rc := 6;
      } else {
        records := records + [r];
        rc := 0;
      }
    }
  }
}
