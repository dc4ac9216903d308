/**
 * The field-level half of the image writer (ImageWriter.py): the byte limits
 * of the IPTC datasets, the truncation of a value to its limit, and
 * `set_iptc_value`, which reconciles the records of one dataset with a list
 * of new values in an exiv2 IPTC container.
 */
module IptcWriter {
  import opened Utf8
  import opened Exiv2Iptc

  const CharacterSetTag := "Iptc.Envelope.CharacterSet"
  const KeywordsTag := "Iptc.Application2.Keywords"

  /** `ImageWriter._max_bytes`: the largest number of octets each bounded dataset may hold. */
  const MaxBytes: map<string, nat> := map[
    "Iptc.Application2.Byline"              := 32,
    "Iptc.Application2.BylineTitle"         := 32,
    "Iptc.Application2.Caption"             := 2000,
    "Iptc.Application2.City"                := 32,
    "Iptc.Application2.Contact"             := 128,
    "Iptc.Application2.Copyright"           := 128,
    "Iptc.Application2.CountryCode"         := 3,
    "Iptc.Application2.CountryName"         := 64,
    "Iptc.Application2.Credit"              := 32,
    "Iptc.Application2.Headline"            := 256,
    "Iptc.Application2.Keywords"            := 64,
    "Iptc.Application2.ObjectName"          := 64,
    "Iptc.Application2.Program"             := 32,
    "Iptc.Application2.ProgramVersion"      := 10,
    "Iptc.Application2.ProvinceState"       := 32,
    "Iptc.Application2.SpecialInstructions" := 256,
    "Iptc.Application2.SubLocation"         := 32,
    "Iptc.Envelope.CharacterSet"            := 32
  ]

  /**
   * `truncate_iptc`: a value of a bounded dataset becomes the longest prefix,
   * in whole characters, whose UTF-8 encoding fits the limit; a value of any
   * other dataset passes through.
   */
  function TruncateIptc(tag: string, value: string): (r: string)
    ensures tag !in MaxBytes ==> r == value
    ensures tag in MaxBytes ==>
      && |r| <= |value| && r == value[..|r|]
      && |Encode(r)| <= MaxBytes[tag]
      && (|r| < |value| ==> |Encode(value[..|r| + 1])| > MaxBytes[tag])
  {
    if tag in MaxBytes then
      TruncateToBytesIsLongestFit(value, MaxBytes[tag]);
      TruncateToBytes(value, MaxBytes[tag])
    else value
  }

  /**
   * The limits cover every dataset known to be repeatable; Keywords may take
   * 64 octets and the character-set designation 32, and every limit is positive.
   */
  lemma MaxBytesLimits()
    ensures RepeatableDataSets <= MaxBytes.Keys
    ensures MaxBytes[KeywordsTag] == 64 && MaxBytes[CharacterSetTag] == 32
    ensures forall t :: t in MaxBytes ==> MaxBytes[t] > 0
  {
  }

  /** A value whose encoding already fits its dataset's limit is written unchanged. */
  lemma TruncateIptcKeepsFittingValue(tag: string, value: string)
    requires tag in MaxBytes && |Encode(value)| <= MaxBytes[tag]
    ensures TruncateIptc(tag, value) == value
  {
    TruncateToBytesFits(value, MaxBytes[tag]);
  }

  /** What the caller hands to `set_iptc_value`: one string or a list of strings. */
  datatype IptcValue = Text(text: string) | List(items: seq<string>)

  /** Python's `not value`: the empty string and the empty list are false. */
  predicate IsFalsy(value: IptcValue) {
    match value
    case Text(t) => t == []
    case List(items) => items == []
  }

  /** The list `values` that `set_iptc_value` builds: every item truncated for `tag`. */
  function ValuesToWrite(tag: string, value: IptcValue): (vals: seq<string>)
    ensures value.Text? ==> vals == [TruncateIptc(tag, value.text)]
    ensures value.List? ==>
      (|vals| == |value.items| && forall i :: 0 <= i < |vals| ==> vals[i] == TruncateIptc(tag, value.items[i]))
  {
    match value
    case Text(t) => [TruncateIptc(tag, t)]
    case List(items) => seq(|items|, i requires 0 <= i < |items| => TruncateIptc(tag, items[i]))
  }

  /** How `set_iptc_value` ends: returns the container, returns None, or raises. */
  datatype SetOutcome =
    | Written            // returns iptcData
    | DuplicateRejected  // `add` refused a record: "duplicated tag" is logged and None returned
    | ClearTagMissing    // an empty value calls clear_iptc_tag, which the class lacks: AttributeError

  /**
   * The walk over the records: each record of `tag` takes the next value while
   * values remain, and is erased once they are used up. Returns the records and
   * the values still left to append.
   */
  function Overwrite(recs: seq<Record>, tag: string, vals: seq<string>): (r: (seq<Record>, seq<string>))
    ensures |r.0| <= |recs|
    ensures |r.1| <= |vals|
    decreases |recs|
  {
    if recs == [] then ([], vals)
    else if recs[0].key == tag then
      if vals != [] then
        var (r, left) := Overwrite(recs[1..], tag, vals[1..]);
        ([Record(tag, vals[0])] + r, left)
      else
        Overwrite(recs[1..], tag, [])
    else
      var (r, left) := Overwrite(recs[1..], tag, vals);
      ([recs[0]] + r, left)
  }

  /** The append loop: adds one record per value until `add` refuses one. */
  function AppendValues(recs: seq<Record>, tag: string, vals: seq<string>): (r: (seq<Record>, bool))
    ensures |recs| <= |r.0| <= |recs| + |vals| && r.0[..|recs|] == recs
    ensures r.1 ==> |r.0| == |recs| + |vals|
    decreases |vals|
  {
    if vals == [] then (recs, true)
    else if !Repeatable(tag) && HasKey(recs, tag) then (recs, false)
    else AppendValues(recs + [Record(tag, vals[0])], tag, vals[1..])
  }

  /** The records and the outcome of `set_iptc_value(recs, tag, value)`. */
  function IptcUpdate(recs: seq<Record>, tag: string, value: IptcValue): (r: (seq<Record>, SetOutcome))
    ensures r.1 == ClearTagMissing <==> IsFalsy(value)
    ensures r.1 == ClearTagMissing ==> r.0 == recs
  {
    if IsFalsy(value) then (recs, ClearTagMissing)
    else
      var (over, left) := Overwrite(recs, tag, ValuesToWrite(tag, value));
      var (out, ok) := AppendValues(over, tag, left);
      (out, if ok then Written else DuplicateRejected)
  }

  /** Records before the first record of `tag` pass through the walk untouched. */
  lemma {:induction false} OverwriteSkipsPrefix(recs: seq<Record>, tag: string, vals: seq<string>, i: nat)
    requires i <= |recs|
    requires forall j :: 0 <= j < i ==> recs[j].key != tag
    ensures Overwrite(recs, tag, vals)
         == (recs[..i] + Overwrite(recs[i..], tag, vals).0, Overwrite(recs[i..], tag, vals).1)
  {
    if i > 0 {
      var tail := recs[1..];
      OverwriteSkipsPrefix(tail, tag, vals, i - 1);
      assert tail[i - 1..] == recs[i..];
      var o := Overwrite(recs[i..], tag, vals);
      assert Overwrite(tail, tag, vals) == (tail[..i - 1] + o.0, o.1);
      assert Overwrite(recs, tag, vals) == ([recs[0]] + (tail[..i - 1] + o.0), o.1);
      assert recs[..i] == [recs[0]] + tail[..i - 1];
      assert [recs[0]] + (tail[..i - 1] + o.0) == recs[..i] + o.0;
    } else {
      assert recs[..i] == [] && recs[i..] == recs;
      var o := Overwrite(recs, tag, vals);
      assert recs[..i] + o.0 == o.0;
    }
  }

  /** `set_iptc_value`, working on the container in place. */
  method SetIptcValue(data: IptcData, tag: string, value: IptcValue) returns (outcome: SetOutcome)
    modifies data
    ensures (data.records, outcome) == IptcUpdate(old(data.records), tag, value)
  {
    if IsFalsy(value) {
      // clear_iptc_tag is not defined on the writer: the call raises AttributeError
      return ClearTagMissing;
    }
    var values := ValuesToWrite(tag, value);
    values := OverwriteRecords(data, tag, values);
    var ok := AppendRecords(data, tag, values);
    outcome := if ok then Written else DuplicateRejected;
  }

  /**
   * The first loop of `set_iptc_value`: from the first record of `tag` to the
   * end, overwrite while values remain, erase once they are used up.
   */
  method OverwriteRecords(data: IptcData, tag: string, vals: seq<string>) returns (left: seq<string>)
    modifies data
    ensures (data.records, left) == Overwrite(old(data.records), tag, vals)
  {
    var values := vals;
    ghost var target := Overwrite(data.records, tag, values);
    var i: nat := data.FindKey(tag);
    OverwriteSkipsPrefix(data.records, tag, values, i);
    while i < |data.records|
      invariant i <= |data.records|
      invariant target == (data.records[..i] + Overwrite(data.records[i..], tag, values).0,
                           Overwrite(data.records[i..], tag, values).1)
      decreases |data.records| - i
    {
      ghost var rest := data.records[i..];
      ghost var done := data.records[..i];
      assert rest[1..] == data.records[i + 1..];
      if data.records[i].key == tag {
        if values != [] {
          ghost var o := Overwrite(rest[1..], tag, values[1..]);
          assert Overwrite(rest, tag, values) == ([Record(tag, values[0])] + o.0, o.1);
          data.SetValue(i, values[0]);
          assert data.records[..i + 1] == done + [Record(tag, values[0])];
          assert data.records[i + 1..] == rest[1..];
          values := values[1..];
          assert target.1 == Overwrite(data.records[i + 1..], tag, values).1;
          assert target.0 == data.records[..i + 1] + Overwrite(data.records[i + 1..], tag, values).0;
        } else {
          assert Overwrite(rest, tag, values) == Overwrite(rest[1..], tag, []);
          i := data.Erase(i);
          assert data.records[..i] == done && data.records[i..] == rest[1..];
          continue;
        }
      } else {
        ghost var o := Overwrite(rest[1..], tag, values);
        assert Overwrite(rest, tag, values) == ([rest[0]] + o.0, o.1);
        assert data.records[..i + 1] == done + [rest[0]];
        assert data.records[i + 1..] == rest[1..];
        assert target.1 == Overwrite(data.records[i + 1..], tag, values).1;
        assert target.0 == data.records[..i + 1] + Overwrite(data.records[i + 1..], tag, values).0;
      }
      i := i + 1;
    }
    assert data.records[..i] == data.records && data.records[i..] == [];
    assert Overwrite([], tag, values) == ([], values);
    assert data.records + [] == data.records;
    left := values;
  }

  /** The second loop of `set_iptc_value`: one `add` per value left, stopping at the first refusal. */
  method AppendRecords(data: IptcData, tag: string, vals: seq<string>) returns (ok: bool)
    modifies data
    ensures (data.records, ok) == AppendValues(old(data.records), tag, vals)
  {
    var values := vals;
    while values != []
      invariant AppendValues(old(data.records), tag, vals) == AppendValues(data.records, tag, values)
      decreases |values|
    {
      var rc := data.Add(Record(tag, values[0]));
      values := values[1..];
      if rc != 0 {
        // "duplicated tag" is logged and None returned
        return false;
      }
    }
    return true;
  }

  /** The values of the records of `tag`, in record order. */
  function ValuesOf(recs: seq<Record>, tag: string): seq<string>
  {
    if recs == [] then []
    else (if recs[0].key == tag then [recs[0].value] else []) + ValuesOf(recs[1..], tag)
  }

  /** The records of every other dataset, in record order. */
  function Others(recs: seq<Record>, tag: string): seq<Record>
  {
    if recs == [] then []
    else (if recs[0].key != tag then [recs[0]] else []) + Others(recs[1..], tag)
  }

  /** How many records of `tag` come before position `i`. */
  function Rank(recs: seq<Record>, tag: string, i: nat): nat
    requires i <= |recs|
  {
    |ValuesOf(recs[..i], tag)|
  }

  /** One record of `tag` per value, in order. */
  function TagRecords(tag: string, vals: seq<string>): (r: seq<Record>)
    ensures |r| == |vals|
  {
    seq(|vals|, i requires 0 <= i < |vals| => Record(tag, vals[i]))
  }

  lemma SplitRecords(a: seq<Record>, b: seq<Record>, tag: string)
    ensures ValuesOf(a + b, tag) == ValuesOf(a, tag) + ValuesOf(b, tag)
    ensures Others(a + b, tag) == Others(a, tag) + Others(b, tag)
  {
    ValuesOfAppend(a, b, tag);
    OthersAppend(a, b, tag);
  }

  lemma {:induction false} ValuesOfAppend(a: seq<Record>, b: seq<Record>, tag: string)
    ensures ValuesOf(a + b, tag) == ValuesOf(a, tag) + ValuesOf(b, tag)
  {
    if a == [] {
      assert a + b == b;
    } else {
      var head := if a[0].key == tag then [a[0].value] else [];
      calc {
        ValuesOf(a + b, tag);
      == { assert (a + b)[0] == a[0]; assert (a + b)[1..] == a[1..] + b; }
        head + ValuesOf(a[1..] + b, tag);
      == { ValuesOfAppend(a[1..], b, tag); }
        head + (ValuesOf(a[1..], tag) + ValuesOf(b, tag));
      ==
        (head + ValuesOf(a[1..], tag)) + ValuesOf(b, tag);
      }
    }
  }

  lemma {:induction false} OthersAppend(a: seq<Record>, b: seq<Record>, tag: string)
    ensures Others(a + b, tag) == Others(a, tag) + Others(b, tag)
  {
    if a == [] {
      assert a + b == b;
    } else {
      var head := if a[0].key != tag then [a[0]] else [];
      calc {
        Others(a + b, tag);
      == { assert (a + b)[0] == a[0]; assert (a + b)[1..] == a[1..] + b; }
        head + Others(a[1..] + b, tag);
      == { OthersAppend(a[1..], b, tag); }
        head + (Others(a[1..], tag) + Others(b, tag));
      ==
        (head + Others(a[1..], tag)) + Others(b, tag);
      }
    }
  }

  lemma {:induction false} TagRecordsSplit(tag: string, vals: seq<string>)
    ensures ValuesOf(TagRecords(tag, vals), tag) == vals
    ensures Others(TagRecords(tag, vals), tag) == []
  {
    if vals != [] {
      assert TagRecords(tag, vals)[1..] == TagRecords(tag, vals[1..]);
      TagRecordsSplit(tag, vals[1..]);
      assert vals == [vals[0]] + vals[1..];
    }
  }

  lemma {:induction false} HasKeyIffValues(recs: seq<Record>, tag: string)
    ensures HasKey(recs, tag) <==> ValuesOf(recs, tag) != []
  {
    if recs != [] {
      HasKeyIffValues(recs[1..], tag);
      if HasKey(recs[1..], tag) {
        var j :| 0 <= j < |recs[1..]| && recs[1..][j].key == tag;
        assert recs[j + 1].key == tag;
      }
      if HasKey(recs, tag) && recs[0].key != tag {
        var j :| 0 <= j < |recs| && recs[j].key == tag;
        assert recs[1..][j - 1].key == tag;
      }
    }
  }

  /** The walk keeps every other record, and uses exactly as many values as there are records of `tag`. */
  lemma {:induction false} OverwriteFacts(recs: seq<Record>, tag: string, vals: seq<string>)
    ensures var (r, left) := Overwrite(recs, tag, vals);
      var m := |ValuesOf(recs, tag)|;
      && Others(r, tag) == Others(recs, tag)
      && ValuesOf(r, tag) + left == vals
      && |ValuesOf(r, tag)| == (if m <= |vals| then m else |vals|)
      && (m <= |vals| ==> |r| == |recs|)
      && |r| <= |recs|
  {
    if recs != [] {
      var x, rest := recs[0], recs[1..];
      if x.key == tag && vals != [] {
        OverwriteFacts(rest, tag, vals[1..]);
        var (r', left) := Overwrite(rest, tag, vals[1..]);
        assert ([Record(tag, vals[0])] + r')[1..] == r';
        assert vals == [vals[0]] + vals[1..];
      } else if x.key == tag {
        OverwriteFacts(rest, tag, []);
      } else {
        OverwriteFacts(rest, tag, vals);
        var (r', left) := Overwrite(rest, tag, vals);
        assert ([x] + r')[1..] == r';
      }
    }
  }

  /** Dropping the head record shifts ranks by the head's own contribution. */
  lemma RankTail(recs: seq<Record>, tag: string, i: nat)
    requires 0 < i <= |recs|
    ensures Rank(recs, tag, i) == (if recs[0].key == tag then 1 else 0) + Rank(recs[1..], tag, i - 1)
  {
    assert recs[..i][1..] == recs[1..][..i - 1];
  }

  lemma {:induction false} OverwriteInPlaceAt(recs: seq<Record>, tag: string, vals: seq<string>, i: nat)
    requires i < |recs|
    requires Rank(recs, tag, i) + (if recs[i].key == tag then 1 else 0) <= |vals|
    ensures var r := Overwrite(recs, tag, vals).0;
      && i < |r| && r[i].key == recs[i].key
      && (recs[i].key != tag ==> r[i] == recs[i])
      && (recs[i].key == tag ==> r[i].value == vals[Rank(recs, tag, i)])
  {
    var x, rest := recs[0], recs[1..];
    if i == 0 {
      assert Rank(recs, tag, i) == 0 by { assert recs[..0] == []; }
    } else {
      RankTail(recs, tag, i);
      if x.key == tag {
        if vals == [] {
          assert false;
        } else {
          OverwriteInPlaceAt(rest, tag, vals[1..], i - 1);
          var (r', left) := Overwrite(rest, tag, vals[1..]);
          assert Overwrite(recs, tag, vals).0 == [Record(tag, vals[0])] + r';
        }
      } else {
        OverwriteInPlaceAt(rest, tag, vals, i - 1);
        var (r', left) := Overwrite(rest, tag, vals);
        assert Overwrite(recs, tag, vals).0 == [x] + r';
      }
    }
  }

  /** The append loop adds records of `tag` at the end and stops at the first refusal. */
  lemma {:induction false} AppendValuesFacts(recs: seq<Record>, tag: string, left: seq<string>)
    ensures var (out, ok) := AppendValues(recs, tag, left);
      && |recs| <= |out| <= |recs| + |left|
      && out == recs + TagRecords(tag, left[..|out| - |recs|])
      && (ok <==> |out| == |recs| + |left|)
      && (ok <==> (left == [] || Repeatable(tag) || (!HasKey(recs, tag) && |left| == 1)))
    decreases |left|
  {
    if left != [] {
      if Repeatable(tag) || !HasKey(recs, tag) {
        var recs' := recs + [Record(tag, left[0])];
        AppendValuesFacts(recs', tag, left[1..]);
        var (out, ok) := AppendValues(recs', tag, left[1..]);
        var k := |out| - |recs'|;
        assert TagRecords(tag, left[..k + 1]) == [Record(tag, left[0])] + TagRecords(tag, left[1..][..k]);
        assert HasKey(recs', tag) by { assert recs'[|recs|].key == tag; }
      } else {
        assert left[..0] == [];
        assert recs + TagRecords(tag, []) == recs;
      }
    } else {
      assert recs + TagRecords(tag, []) == recs;
    }
  }

  lemma {:induction false} RecordsPartition(recs: seq<Record>, tag: string)
    ensures |recs| == |ValuesOf(recs, tag)| + |Others(recs, tag)|
  {
    if recs != [] {
      RecordsPartition(recs[1..], tag);
    }
  }

  /**
   * `set_iptc_value` raises exactly for an empty value, and returns None
   * exactly when `add` meets a dataset that is not repeatable and already
   * present: more values than existing records, and either some existing
   * record or at least two values.
   */
  lemma SetIptcValueOutcome(recs: seq<Record>, tag: string, value: IptcValue)
    ensures var (out, outcome) := IptcUpdate(recs, tag, value);
      var vals := ValuesToWrite(tag, value);
      var m := |ValuesOf(recs, tag)|;
      && (outcome == ClearTagMissing <==> IsFalsy(value))
      && (outcome == ClearTagMissing ==> out == recs)
      && (outcome == DuplicateRejected <==>
            !IsFalsy(value) && !Repeatable(tag) && m < |vals| && (m > 0 || |vals| > 1))
  {
    if !IsFalsy(value) {
      var vals := ValuesToWrite(tag, value);
      OverwriteFacts(recs, tag, vals);
      var (over, left) := Overwrite(recs, tag, vals);
      AppendValuesFacts(over, tag, left);
      HasKeyIffValues(over, tag);
    }
  }

  /** The append loop adds records of `tag` only: their values go after the existing ones. */
  lemma AppendedSplit(over: seq<Record>, tag: string, left: seq<string>)
    ensures var out := AppendValues(over, tag, left).0;
      && |over| <= |out| <= |over| + |left|
      && Others(out, tag) == Others(over, tag)
      && ValuesOf(out, tag) == ValuesOf(over, tag) + left[..|out| - |over|]
  {
    AppendValuesFacts(over, tag, left);
    var out := AppendValues(over, tag, left).0;
    var added := TagRecords(tag, left[..|out| - |over|]);
    SplitRecords(over, added, tag);
    TagRecordsSplit(tag, left[..|out| - |over|]);
    assert Others(over, tag) + [] == Others(over, tag);
  }

  /** The two loops together, for any list of values. */
  lemma ReconcileFacts(recs: seq<Record>, tag: string, vals: seq<string>)
    ensures var o := Overwrite(recs, tag, vals);
      var a := AppendValues(o.0, tag, o.1);
      && Others(a.0, tag) == Others(recs, tag)
      && (a.1 ==> ValuesOf(a.0, tag) == vals && |a.0| == |recs| - |ValuesOf(recs, tag)| + |vals|)
      && (!a.1 ==> |ValuesOf(a.0, tag)| < |vals| && ValuesOf(a.0, tag) == vals[..|ValuesOf(a.0, tag)|])
  {
    var o := Overwrite(recs, tag, vals);
    var a := AppendValues(o.0, tag, o.1);
    OverwriteFacts(recs, tag, vals);
    AppendValuesFacts(o.0, tag, o.1);
    AppendedSplit(o.0, tag, o.1);
    var k := |a.0| - |o.0|;
    if a.1 {
      assert o.1[..k] == o.1;
      RecordsPartition(recs, tag);
      RecordsPartition(a.0, tag);
    } else {
      assert ValuesOf(o.0, tag) + o.1[..k] == vals[..|ValuesOf(o.0, tag)| + k];
    }
  }

  /**
   * After `set_iptc_value` the records of `tag`, read in order, are the
   * truncated new values (a prefix of them when `add` refused one), and the
   * records of every other dataset are untouched and keep their order.
   */
  lemma SetIptcValueWritesValues(recs: seq<Record>, tag: string, value: IptcValue)
    ensures var (out, outcome) := IptcUpdate(recs, tag, value);
      var vals := ValuesToWrite(tag, value);
      && Others(out, tag) == Others(recs, tag)
      && (outcome == Written ==>
            ValuesOf(out, tag) == vals && |out| == |recs| - |ValuesOf(recs, tag)| + |vals|)
      && (outcome == DuplicateRejected ==>
            |ValuesOf(out, tag)| < |vals| && ValuesOf(out, tag) == vals[..|ValuesOf(out, tag)|])
  {
    if !IsFalsy(value) {
      ReconcileFacts(recs, tag, ValuesToWrite(tag, value));
    }
  }

  /**
   * Records of `tag` are overwritten where they stand, in order: the record
   * with `Rank` r before it takes the r-th new value while values remain, and
   * no record up to the last overwritten one moves.
   */
  lemma SetIptcValueInPlace(recs: seq<Record>, tag: string, value: IptcValue, i: nat)
    requires !IsFalsy(value) && i < |recs|
    requires Rank(recs, tag, i) + (if recs[i].key == tag then 1 else 0) <= |ValuesToWrite(tag, value)|
    ensures var out := IptcUpdate(recs, tag, value).0;
      && i < |out| && out[i].key == recs[i].key
      && (recs[i].key != tag ==> out[i] == recs[i])
      && (recs[i].key == tag ==> out[i].value == ValuesToWrite(tag, value)[Rank(recs, tag, i)])
  {
    var vals := ValuesToWrite(tag, value);
    OverwriteInPlaceAt(recs, tag, vals, i);
    var (over, left) := Overwrite(recs, tag, vals);
    AppendValuesFacts(over, tag, left);
  }

  /**
   * When there are at least as many new values as records of `tag`, every
   * existing record keeps its place and the values left over become new
   * records at the end, in order.
   */
  lemma SetIptcValueAppendsAtEnd(recs: seq<Record>, tag: string, value: IptcValue)
    requires !IsFalsy(value)
    requires |ValuesOf(recs, tag)| <= |ValuesToWrite(tag, value)|
    ensures var (out, outcome) := IptcUpdate(recs, tag, value);
      var vals := ValuesToWrite(tag, value);
      var m := |ValuesOf(recs, tag)|;
      outcome == Written ==>
        |out| == |recs| + |vals| - m && out[|recs|..] == TagRecords(tag, vals[m..])
  {
    var vals := ValuesToWrite(tag, value);
    var o := Overwrite(recs, tag, vals);
    var a := AppendValues(o.0, tag, o.1);
    assert IptcUpdate(recs, tag, value) == (a.0, if a.1 then Written else DuplicateRejected);
    ReconciledTail(recs, tag, vals);
  }

  lemma ReconciledTail(recs: seq<Record>, tag: string, vals: seq<string>)
    requires |ValuesOf(recs, tag)| <= |vals|
    ensures var o := Overwrite(recs, tag, vals);
      var a := AppendValues(o.0, tag, o.1);
      var m := |ValuesOf(recs, tag)|;
      a.1 ==> |a.0| == |recs| + |vals| - m && a.0[|recs|..] == TagRecords(tag, vals[m..])
  {
    var m := |ValuesOf(recs, tag)|;
    var o := Overwrite(recs, tag, vals);
    OverwriteFacts(recs, tag, vals);
    assert |o.0| == |recs|;
    assert o.1 == vals[m..] by {
      assert ValuesOf(o.0, tag) + o.1 == vals && |ValuesOf(o.0, tag)| == m;
    }
    var a := AppendValues(o.0, tag, o.1);
    AppendValuesFacts(o.0, tag, o.1);
    if a.1 {
      assert o.1[..|a.0| - |o.0|] == o.1;
      assert a.0 == o.0 + TagRecords(tag, o.1);
      assert a.0[|recs|..] == TagRecords(tag, o.1);
    }
  }
}
