/**
 * The per-image pieces of `writeTagsFromPredictionsInImages` (ImageWriter.py):
 * renaming a path to its RAW sibling, finding the sibling on disk, merging
 * proposed keywords into the stored list, and the two `set_iptc_value` calls
 * that write the RAW file's IPTC records.
 */
module TagWriter {
  import opened Wrappers
  import opened PathSplit
  import opened Utf8
  import opened Exiv2Iptc
  import opened IptcWriter

  // ---------------------------------------------------------------------------
  // changeToRawExtension

  /**
   * `changeToRawExtension`: the path without its extension, then a dot and
   * `newExtension`. What is cut off is exactly one splitext extension.
   */
  function ChangeToRawExtension(filePath: string, newExtension: string): (r: string)
    ensures |r| > |newExtension| && r[|r| - |newExtension| - 1..] == "." + newExtension
    ensures var root := r[..|r| - |newExtension| - 1];
      |root| <= |filePath| && root == filePath[..|root|] && IsExtension(filePath[|root|..])
  {
    var (root, _) := SplitExt(filePath);
    SplitExtJoins(filePath);
    var r := root + "." + newExtension;
    assert r[..|r| - |newExtension| - 1] == root;
    assert filePath[|root|..] == SplitExt(filePath).1;
    r
  }

  /** "dir/img.jpg" becomes "dir/img.dng": the last extension is replaced. */
  lemma ChangeToRawExtensionReplaces(base: string, ext: string, newExtension: string)
    requires forall j :: 0 <= j < |ext| ==> ext[j] != '.' && ext[j] != '/'
    requires exists i :: RFind(base, '/') < i < |base| && base[i] != '.'
    ensures ChangeToRawExtension(base + "." + ext, newExtension) == base + "." + newExtension
  {
    SplitExtOfJoined(base, ext);
  }

  /**
   * A path without a splitext extension gets the new one appended: "dir/img"
   * becomes "dir/img.dng", and ".jpg" becomes ".jpg.dng" since its only dot leads.
   */
  lemma ChangeToRawExtensionAppends(filePath: string, newExtension: string)
    requires forall j :: RFind(filePath, '/') < j < RFind(filePath, '.') ==> filePath[j] == '.'
    ensures ChangeToRawExtension(filePath, newExtension) == filePath + "." + newExtension
  {
    NoExtensionIff(filePath);
  }

  // ---------------------------------------------------------------------------
  // RAW sibling search

  /** The extensions tried for the RAW sibling, in order. */
  const RawExtensions: seq<string> := ["dng", "DNG"]

  function RawCandidates(filename: string): (c: seq<string>)
    ensures |c| == |RawExtensions|
    ensures forall k :: 0 <= k < |c| ==> c[k] == ChangeToRawExtension(filename, RawExtensions[k])
  {
    seq(|RawExtensions|, k requires 0 <= k < |RawExtensions| => ChangeToRawExtension(filename, RawExtensions[k]))
  }

  /** Position of the first candidate that exists, or the number of candidates. */
  function FirstExisting(candidates: seq<string>, files: set<string>): (i: nat)
    ensures i <= |candidates|
    ensures i < |candidates| ==> candidates[i] in files
    ensures forall j :: 0 <= j < i ==> candidates[j] !in files
  {
    if candidates == [] then 0
    else if candidates[0] in files then 0
    else 1 + FirstExisting(candidates[1..], files)
  }

  /** The RAW sibling the writer opens, if any. */
  function RawSibling(filename: string, files: set<string>): (r: Option<string>)
    ensures r.Some? ==> r.value in files
    ensures r.Some? ==> r.value == ChangeToRawExtension(filename, "dng") || r.value == ChangeToRawExtension(filename, "DNG")
  {
    var c := RawCandidates(filename);
    var i := FirstExisting(c, files);
    if i < |c| then Some(c[i]) else None
  }

  /** The sibling found is a file that exists. */
  lemma RawSiblingExists(filename: string, files: set<string>)
    requires RawSibling(filename, files).Some?
    ensures RawSibling(filename, files).value in files
  {
  }

  /** The sibling search loop: first the ".dng" name, then ".DNG", stopping at the first that exists. */
  method FindRawSibling(filename: string, files: set<string>) returns (sibling: Option<string>)
    ensures sibling == RawSibling(filename, files)
  {
    var candidates := RawCandidates(filename);
    sibling := None;
    for k := 0 to |RawExtensions|
      invariant forall j :: 0 <= j < k ==> candidates[j] !in files
      invariant sibling == None
    {
      var filenameRaw := ChangeToRawExtension(filename, RawExtensions[k]);
      if filenameRaw in files {
        sibling := Some(filenameRaw);
        break;
      }
    }
  }

  /** Sibling selection: ".dng" wins when present, ".DNG" is the fallback, otherwise there is none. */
  lemma RawSiblingChoice(filename: string, files: set<string>)
    ensures var dng, upper := ChangeToRawExtension(filename, "dng"), ChangeToRawExtension(filename, "DNG");
      RawSibling(filename, files)
        == if dng in files then Some(dng) else if upper in files then Some(upper) else None
  {
    var c := RawCandidates(filename);
    assert c[0] == ChangeToRawExtension(filename, "dng");
    assert c[1] == ChangeToRawExtension(filename, "DNG");
    var i := FirstExisting(c, files);
    assert i <= 2;
  }

  // ---------------------------------------------------------------------------
  // Keyword merge

  /**
   * The keywords the merge loop appends to `base`: each proposal, in order,
   * that is neither in `base` nor already appended.
   */
  function NewKeywords(base: seq<string>, proposed: seq<string>): (added: seq<string>)
    ensures |added| <= |proposed|
    ensures forall k :: k in added ==> k in proposed && k !in base
    decreases |proposed|
  {
    if proposed == [] then []
    else
      var prior := NewKeywords(base, proposed[..|proposed| - 1]);
      var k := proposed[|proposed| - 1];
      if k in base || k in prior then prior else prior + [k]
  }

  /**
   * The keyword list and `addedKeywords` after the merge: with `overwrite`
   * the list starts empty, otherwise from the stored keywords.
   */
  function MergedKeywords(existing: seq<string>, proposed: seq<string>, overwrite: bool): (r: (seq<string>, seq<string>))
    ensures !overwrite ==> |r.0| == |existing| + |r.1|
    ensures forall k :: k in r.1 ==> k in proposed && k in r.0
  {
    var base := if overwrite then [] else existing;
    var added := NewKeywords(base, proposed);
    (base + added, added)
  }

  /** The merge loop over `prediction.keywords`. */
  method MergeKeywords(existing: seq<string>, proposed: seq<string>, overwrite: bool)
    returns (keywords: seq<string>, added: seq<string>)
    ensures (keywords, added) == MergedKeywords(existing, proposed, overwrite)
  {
    added := [];
    keywords := existing;
    if overwrite {
      keywords := [];
    }
    ghost var base := keywords;
    for i := 0 to |proposed|
      invariant keywords == base + added
      invariant added == NewKeywords(base, proposed[..i])
    {
      var keyword := proposed[i];
      assert proposed[..i + 1][..i] == proposed[..i];
      if keyword !in keywords {
        keywords := keywords + [keyword];
        added := added + [keyword];
      }
    }
    assert proposed[..|proposed|] == proposed;
  }

  predicate NoDuplicates(s: seq<string>) {
    forall i, j :: 0 <= i < j < |s| ==> s[i] != s[j]
  }

  /** Where `x` first occurs in `s`. */
  function FirstIndex(s: seq<string>, x: string): (i: nat)
    requires x in s
    ensures i < |s| && s[i] == x
    ensures forall j :: 0 <= j < i ==> s[j] != x
  {
    if s[0] == x then 0 else 1 + FirstIndex(s[1..], x)
  }

  lemma FirstIndexExtend(s: seq<string>, k: string, x: string)
    requires x in s
    ensures x in s + [k] && FirstIndex(s + [k], x) == FirstIndex(s, x)
  {
    var i := FirstIndex(s, x);
    var t := s + [k];
    assert t[i] == x;
    var i' := FirstIndex(t, x);
    assert i' <= i;
    assert t[i'] == s[i'];
  }

  /**
   * The added keywords are the proposals absent from the base, each once, in
   * the order of their first occurrence among the proposals.
   */
  lemma {:induction false} NewKeywordsCharacterised(base: seq<string>, proposed: seq<string>)
    ensures var added := NewKeywords(base, proposed);
      && NoDuplicates(added)
      && (forall k :: k in added <==> k in proposed && k !in base)
      && (forall i, j :: 0 <= i < j < |added| ==>
            FirstIndex(proposed, added[i]) < FirstIndex(proposed, added[j]))
    decreases |proposed|
  {
    if proposed != [] {
      var n := |proposed|;
      var p', k := proposed[..n - 1], proposed[n - 1];
      assert proposed == p' + [k];
      NewKeywordsCharacterised(base, p');
      var prior := NewKeywords(base, p');
      forall x | x in prior
        ensures x in proposed && FirstIndex(proposed, x) == FirstIndex(p', x)
      {
        FirstIndexExtend(p', k, x);
      }
      if !(k in base || k in prior) {
        assert k !in p';
        assert FirstIndex(proposed, k) == n - 1;
      }
    }
  }

  /**
   * With `overwrite` the stored list is dropped: the new list is the proposals
   * with repeats removed (first occurrence wins), and all of it counts as added.
   */
  lemma MergeOverwrite(existing: seq<string>, proposed: seq<string>)
    ensures var (keywords, added) := MergedKeywords(existing, proposed, true);
      && keywords == added
      && NoDuplicates(keywords)
      && (forall k :: k in keywords <==> k in proposed)
      && (forall i, j :: 0 <= i < j < |keywords| ==>
            FirstIndex(proposed, keywords[i]) < FirstIndex(proposed, keywords[j]))
  {
    NewKeywordsCharacterised([], proposed);
    assert [] + NewKeywords([], proposed) == NewKeywords([], proposed);
  }

  /**
   * Without `overwrite` the stored keywords stay first and in order; after
   * them come exactly the absent proposals, each once, in proposal order.
   */
  lemma MergeAppend(existing: seq<string>, proposed: seq<string>)
    ensures var (keywords, added) := MergedKeywords(existing, proposed, false);
      && keywords == existing + added
      && NoDuplicates(added)
      && (forall k :: k in added <==> k in proposed && k !in existing)
      && (forall i, j :: 0 <= i < j < |added| ==>
            FirstIndex(proposed, added[i]) < FirstIndex(proposed, added[j]))
  {
    NewKeywordsCharacterised(existing, proposed);
  }

  /** After the merge every proposal is in the list, whichever the mode. */
  lemma MergeContainsProposals(existing: seq<string>, proposed: seq<string>, overwrite: bool)
    ensures forall k :: k in proposed ==> k in MergedKeywords(existing, proposed, overwrite).0
  {
    NewKeywordsCharacterised(if overwrite then [] else existing, proposed);
  }

  /** Appending ["b","c"] to ["a","b"] adds only "c". */
  lemma MergeAppendExample()
    ensures MergedKeywords(["a", "b"], ["b", "c"], false) == (["a", "b", "c"], ["c"])
  {
    var base, p := ["a", "b"], ["b", "c"];
    assert p[..1] == ["b"] && p[..1][..0] == [];
    assert NewKeywords(base, p[..1][..0]) == [];
    assert NewKeywords(base, p[..1]) == [];
    assert "c" !in base by { assert "c"[0] != "a"[0] && "c"[0] != "b"[0]; }
    assert NewKeywords(base, p) == ["c"];
    assert base + ["c"] == ["a", "b", "c"];
    assert MergedKeywords(base, p, false).1 == ["c"];
  }

  /** Overwriting with ["c","c","d"] keeps one "c", drops the old list, and reports all of it as added. */
  lemma MergeOverwriteExample()
    ensures MergedKeywords(["a", "b"], ["c", "c", "d"], true) == (["c", "d"], ["c", "d"])
  {
    var p: seq<string> := ["c", "c", "d"];
    assert p[..2] == ["c", "c"] && p[..2][..1] == ["c"] && p[..2][..1][..0] == [];
    assert NewKeywords([], p[..2][..1][..0]) == [];
    assert NewKeywords([], p[..2][..1]) == ["c"];
    assert NewKeywords([], p[..2]) == ["c"];
    assert "d" !in ["c"] by { assert "d"[0] != "c"[0]; }
    assert NewKeywords([], p) == ["c", "d"];
    var empty: seq<string> := [];
    assert empty + ["c", "d"] == ["c", "d"];
    assert MergedKeywords(["a", "b"], p, true) == (empty + ["c", "d"], ["c", "d"]);
  }

  // ---------------------------------------------------------------------------
  // The RAW step

  /** ESC % G: the ISO/IEC 2022 escape that declares UTF-8, written to the character-set dataset. */
  const Utf8Designation: string := "\U{1B}%G"

  /**
   * The two `set_iptc_value` calls on the RAW file's records: the character
   * set first, then the added keywords. The flag is false when either call did
   * not return the container (so the RAW file is not written).
   */
  function RawIptcUpdate(recs: seq<Record>, added: seq<string>): (r: (seq<Record>, bool))
    ensures added == [] ==> !r.1
  {
    var (withCharset, o1) := IptcUpdate(recs, CharacterSetTag, Text(Utf8Designation));
    if o1 != Written then (withCharset, false)
    else
      var (withKeywords, o2) := IptcUpdate(withCharset, KeywordsTag, List(added));
      (withKeywords, o2 == Written)
  }

  /** The body of the RAW `try` block up to `setIptcData`, on a container holding `recs`. */
  method UpdateRawIptc(recs: seq<Record>, added: seq<string>) returns (updated: seq<Record>, ok: bool)
    ensures (updated, ok) == RawIptcUpdate(recs, added)
  {
    var iptcData := new IptcData(recs);
    var outcome := SetIptcValue(iptcData, CharacterSetTag, Text(Utf8Designation));
    if outcome != Written {
      // the next call receives None and raises
      return iptcData.records, false;
    }
    outcome := SetIptcValue(iptcData, KeywordsTag, List(added));
    return iptcData.records, outcome == Written;
  }

  lemma DesignationFits()
    ensures TruncateIptc(CharacterSetTag, Utf8Designation) == Utf8Designation
  {
    var s := Utf8Designation;
    assert Encode(s) == EncodeChar(s[0]) + EncodeChar(s[1]) + EncodeChar(s[2]) by {
      assert s[1..][1..][1..] == [];
    }
    TruncateIptcKeepsFittingValue(CharacterSetTag, s);
  }

  /** Records of any third dataset are invisible to an update that keeps the other records. */
  lemma {:induction false} ValuesOfThroughOthers(recs: seq<Record>, tag: string, t: string)
    requires t != tag
    ensures ValuesOf(Others(recs, tag), t) == ValuesOf(recs, t)
  {
    if recs != [] {
      ValuesOfThroughOthers(recs[1..], tag, t);
      SplitRecords(if recs[0].key != tag then [recs[0]] else [], Others(recs[1..], tag), t);
    }
  }

  lemma OthersKeepValues(before: seq<Record>, after: seq<Record>, tag: string, t: string)
    requires Others(after, tag) == Others(before, tag) && t != tag
    ensures ValuesOf(after, t) == ValuesOf(before, t)
  {
    ValuesOfThroughOthers(before, tag, t);
    ValuesOfThroughOthers(after, tag, t);
  }

  /**
   * The RAW records are rewritten exactly when there is at least one added
   * keyword: the character set never collides, Keywords is repeatable, and an
   * empty keyword list takes the clear branch, which raises.
   */
  lemma RawIptcUpdateSucceeds(recs: seq<Record>, added: seq<string>)
    ensures RawIptcUpdate(recs, added).1 <==> added != []
  {
    SetIptcValueOutcome(recs, CharacterSetTag, Text(Utf8Designation));
    var (withCharset, o1) := IptcUpdate(recs, CharacterSetTag, Text(Utf8Designation));
    assert o1 == Written;
    SetIptcValueOutcome(withCharset, KeywordsTag, List(added));
  }

  /**
   * A successful RAW update leaves one character-set record holding ESC % G,
   * the added keywords (truncated to 64 bytes) as the Keywords records in
   * order, and every other dataset as it was.
   */
  lemma RawIptcUpdateContents(recs: seq<Record>, added: seq<string>)
    requires RawIptcUpdate(recs, added).1
    ensures var out := RawIptcUpdate(recs, added).0;
      && ValuesOf(out, CharacterSetTag) == [Utf8Designation]
      && ValuesOf(out, KeywordsTag) == ValuesToWrite(KeywordsTag, List(added))
      && forall t :: t != CharacterSetTag && t != KeywordsTag ==> ValuesOf(out, t) == ValuesOf(recs, t)
  {
    var (withCharset, o1) := IptcUpdate(recs, CharacterSetTag, Text(Utf8Designation));
    SetIptcValueWritesValues(recs, CharacterSetTag, Text(Utf8Designation));
    DesignationFits();
    var (out, o2) := IptcUpdate(withCharset, KeywordsTag, List(added));
    SetIptcValueWritesValues(withCharset, KeywordsTag, List(added));
    OthersKeepValues(withCharset, out, KeywordsTag, CharacterSetTag);
    forall t | t != CharacterSetTag && t != KeywordsTag
      ensures ValuesOf(out, t) == ValuesOf(recs, t)
    {
      OthersKeepValues(recs, withCharset, CharacterSetTag, t);
      OthersKeepValues(withCharset, out, KeywordsTag, t);
    }
  }

  /** A RAW file with no IPTC records ends up with the character set first, then one record per keyword. */
  lemma RawIptcUpdateOfEmpty(added: seq<string>)
    requires added != []
    ensures RawIptcUpdate([], added)
         == ([Record(CharacterSetTag, Utf8Designation)] + TagRecords(KeywordsTag, ValuesToWrite(KeywordsTag, List(added))), true)
  {
    CharsetIntoEmpty();
    KeywordsAfterCharset(added);
  }

  lemma CharsetIntoEmpty()
    ensures IptcUpdate([], CharacterSetTag, Text(Utf8Designation)) == ([Record(CharacterSetTag, Utf8Designation)], Written)
  {
    DesignationFits();
    var first := [Record(CharacterSetTag, Utf8Designation)];
    assert !IsFalsy(Text(Utf8Designation));
    assert ValuesToWrite(CharacterSetTag, Text(Utf8Designation)) == [Utf8Designation];
    assert Overwrite([], CharacterSetTag, [Utf8Designation]) == ([], [Utf8Designation]);
    assert !HasKey([], CharacterSetTag);
    assert [Utf8Designation][1..] == [];
    assert [] + [Record(CharacterSetTag, Utf8Designation)] == first;
    assert AppendValues([], CharacterSetTag, [Utf8Designation]) == AppendValues(first, CharacterSetTag, []);
  }

  lemma KeywordsAfterCharset(added: seq<string>)
    requires added != []
    ensures var first := [Record(CharacterSetTag, Utf8Designation)];
      IptcUpdate(first, KeywordsTag, List(added))
        == (first + TagRecords(KeywordsTag, ValuesToWrite(KeywordsTag, List(added))), Written)
  {
    var first := [Record(CharacterSetTag, Utf8Designation)];
    var vals := ValuesToWrite(KeywordsTag, List(added));
    assert Overwrite(first, KeywordsTag, vals) == (first, vals) by {
      assert CharacterSetTag != KeywordsTag by { assert CharacterSetTag[5] != KeywordsTag[5]; }
      assert first[1..] == [];
      assert Overwrite(first[1..], KeywordsTag, vals) == ([], vals);
      assert [first[0]] + [] == first;
    }
    assert Repeatable(KeywordsTag);
    AppendValuesFacts(first, KeywordsTag, vals);
    assert vals[..|vals|] == vals;
  }
}
