/**
 * `writeTagsFromPredictionsInImages` (ImageWriter.py): for each prediction,
 * open the image's IPTC block, optionally find and open its RAW sibling, merge
 * the keywords, save, and write the added keywords into the RAW file.
 *
 * The file system is a value threaded through the batch. What the libraries
 * decide on their own (whether opening an existing image's IPTC block, a save,
 * a RAW open or a RAW write raises) is given as sets of paths for which that
 * call fails.
 */
module BatchWriter {
  import opened Wrappers
  import opened Exiv2Iptc
  import opened IptcWriter
  import opened TagWriter

  datatype Prediction = Prediction(path: string, keywords: seq<string>)

  /** Existing files, the keyword list stored in each image, and the IPTC records of each RAW file. */
  datatype Disk = Disk(files: set<string>, keywords: map<string, seq<string>>, rawIptc: map<string, seq<Record>>)

  /**
   * Existing paths on which `IPTCInfo(path, force=True)` raises (unreadable,
   * a directory, unparsable), and paths whose `save`, RAW `open`/`readMetadata`,
   * or RAW `writeMetadata` raises.
   */
  datatype Env = Env(openFails: set<string>, saveFails: set<string>, rawOpenFails: set<string>, rawWriteFails: set<string>)

  datatype RawStep = RawSkipped | RawWritten(rawPath: string) | RawFailed(rawPath: string)

  /** What one prediction did: whether the image was saved, the keywords added, and the RAW step. */
  datatype FileReport = FileReport(path: string, saved: bool, added: seq<string>, raw: RawStep)

  /** The disk after the batch, one report per prediction handled, and whether no exception escaped. */
  datatype BatchResult = BatchResult(disk: Disk, reports: seq<FileReport>, completed: bool)

  function StoredKeywords(disk: Disk, path: string): seq<string> {
    if path in disk.keywords then disk.keywords[path] else []
  }

  function StoredRecords(disk: Disk, path: string): seq<Record> {
    if path in disk.rawIptc then disk.rawIptc[path] else []
  }

  /**
   * One pass of the loop body. None when an exception escapes: the image
   * is missing or cannot be opened, or the RAW sibling exists but exiv2 cannot open it.
   * A failed save is caught and the RAW step still runs.
   */
  function Step(disk: Disk, p: Prediction, applyToRaw: bool, overwrite: bool, env: Env): (r: Option<(Disk, FileReport)>)
    ensures r.Some? ==> p.path in disk.files && p.path !in env.openFails && r.value.1.path == p.path
  {
    if p.path !in disk.files || p.path in env.openFails then None
    else
      var sibling := if applyToRaw then RawSibling(p.path, disk.files) else None;
      if sibling.Some? && sibling.value in env.rawOpenFails then None
      else
        var merged := MergedKeywords(StoredKeywords(disk, p.path), p.keywords, overwrite);
        var saved := p.path !in env.saveFails;
        var d := if saved
          then disk.(keywords := disk.keywords[p.path := merged.0], files := disk.files - {p.path + "~"})
          else disk;
        var rawPart := RawPart(d, sibling, merged.1, env);
        Some((rawPart.0, FileReport(p.path, saved, merged.1, rawPart.1)))
  }

  /**
   * The RAW half of a step, after the save: the sibling's records are
   * rewritten when the update succeeds and exiv2 writes the file. Only RAW
   * records change.
   */
  function RawPart(d: Disk, sibling: Option<string>, added: seq<string>, env: Env): (r: (Disk, RawStep))
    ensures r.0.files == d.files && r.0.keywords == d.keywords
    ensures sibling.None? <==> r.1.RawSkipped?
  {
    if sibling.None? then (d, RawSkipped)
    else
      var raw := sibling.value;
      var update := RawIptcUpdate(StoredRecords(d, raw), added);
      if update.1 && raw !in env.rawWriteFails
      then (d.(rawIptc := d.rawIptc[raw := update.0]), RawWritten(raw))
      else (d, RawFailed(raw))
  }

  /** The whole batch: the predictions in order, stopping at the first escaping exception. */
  function Run(disk: Disk, predictions: seq<Prediction>, applyToRaw: bool, overwrite: bool, env: Env): (r: BatchResult)
    ensures |r.reports| <= |predictions|
    decreases |predictions|
  {
    if predictions == [] then BatchResult(disk, [], true)
    else match Step(disk, predictions[0], applyToRaw, overwrite, env)
      case None => BatchResult(disk, [], false)
      case Some(next) =>
        var rest := Run(next.0, predictions[1..], applyToRaw, overwrite, env);
        BatchResult(rest.disk, [next.1] + rest.reports, rest.completed)
  }

  /** The loop body for one prediction. */
  method WriteOne(disk: Disk, p: Prediction, applyToRaw: bool, overwrite: bool, env: Env)
    returns (next: Option<(Disk, FileReport)>)
    ensures next == Step(disk, p, applyToRaw, overwrite, env)
  {
    var filename := p.path;
    if filename !in disk.files || filename in env.openFails {
      // IPTCInfo(filename, force=True) raises
      return None;
    }
    var applyRaw := applyToRaw;
    var sibling: Option<string> := None;
    if applyRaw {
      sibling := FindRawSibling(filename, disk.files);
      if sibling.Some? && sibling.value in env.rawOpenFails {
        return None;
      }
      applyRaw := sibling.Some?;
    }
    var keywords, added := MergeKeywords(StoredKeywords(disk, filename), p.keywords, overwrite);
    var d := disk;
    var saved := filename !in env.saveFails;
    if saved {
      d := d.(keywords := d.keywords[filename := keywords]);
      d := d.(files := d.files - {filename + "~"});
    }
    var raw := RawSkipped;
    if applyRaw {
      var rawPath := sibling.value;
      var recs, ok := UpdateRawIptc(StoredRecords(disk, rawPath), added);
      if ok && rawPath !in env.rawWriteFails {
        d := d.(rawIptc := d.rawIptc[rawPath := recs]);
        raw := RawWritten(rawPath);
      } else {
        raw := RawFailed(rawPath);
      }
    }
    return Some((d, FileReport(filename, saved, added, raw)));
  }

  /** `reports` handled before `r`'s own. */
  function Prepend(reports: seq<FileReport>, r: BatchResult): BatchResult {
    BatchResult(r.disk, reports + r.reports, r.completed)
  }

  /** One loop iteration keeps `whole == Prepend(reports, Run(disk, predictions[i..]))`. */
  lemma RunFrom(whole: BatchResult, reports: seq<FileReport>, disk: Disk, predictions: seq<Prediction>, i: nat,
                applyToRaw: bool, overwrite: bool, env: Env, next: Option<(Disk, FileReport)>)
    requires i < |predictions| && next == Step(disk, predictions[i], applyToRaw, overwrite, env)
    requires whole == Prepend(reports, Run(disk, predictions[i..], applyToRaw, overwrite, env))
    ensures next.None? ==> whole == BatchResult(disk, reports, false)
    ensures next.Some? ==>
      whole == Prepend(reports + [next.value.1], Run(next.value.0, predictions[i + 1..], applyToRaw, overwrite, env))
  {
    var tail := predictions[i..];
    assert tail[0] == predictions[i];
    assert tail[1..] == predictions[i + 1..];
    RunCons(disk, tail, applyToRaw, overwrite, env, next);
    if next.Some? {
      var rest := Run(next.value.0, predictions[i + 1..], applyToRaw, overwrite, env);
      assert reports + ([next.value.1] + rest.reports) == (reports + [next.value.1]) + rest.reports;
    } else {
      assert reports + [] == reports;
    }
  }

  lemma RunStart(disk0: Disk, predictions: seq<Prediction>, applyToRaw: bool, overwrite: bool, env: Env)
    ensures Run(disk0, predictions, applyToRaw, overwrite, env) == Prepend([], Run(disk0, predictions[0..], applyToRaw, overwrite, env))
  {
    assert predictions[0..] == predictions;
    var whole := Run(disk0, predictions, applyToRaw, overwrite, env);
    assert [] + whole.reports == whole.reports;
  }

  /**
   * `writeTagsFromPredictionsInImages`: the loop over the predictions, with the
   * RAW flag reset from its initial value for every prediction.
   */
  method WriteTagsFromPredictionsInImages(disk0: Disk, predictions: seq<Prediction>, applyToRaw: bool, overwrite: bool, env: Env)
    returns (result: BatchResult)
    ensures result == Run(disk0, predictions, applyToRaw, overwrite, env)
  {
    var startApplyToRaw := applyToRaw;
    ghost var whole := Run(disk0, predictions, applyToRaw, overwrite, env);
    var disk := disk0;
    var reports: seq<FileReport> := [];
    var i := 0;
    RunStart(disk0, predictions, applyToRaw, overwrite, env);
    while i < |predictions|
      invariant i <= |predictions|
      invariant whole == Prepend(reports, Run(disk, predictions[i..], startApplyToRaw, overwrite, env))
      decreases |predictions| - i
    {
      var next := WriteOne(disk, predictions[i], startApplyToRaw, overwrite, env);
      RunFrom(whole, reports, disk, predictions, i, startApplyToRaw, overwrite, env, next);
      if next.None? {
        return BatchResult(disk, reports, false);
      }
      disk := next.value.0;
      reports := reports + [next.value.1];
      i := i + 1;
    }
    assert predictions[i..] == [];
    assert reports + [] == reports;
    result := BatchResult(disk, reports, true);
  }

  // ---------------------------------------------------------------------------
  // One prediction

  /**
   * A prediction stops the batch exactly when the image is missing or
   * `IPTCInfo` cannot open it, or when
   * RAW handling is on and the sibling that exists cannot be opened. A missing
   * sibling is not an error.
   */
  lemma StepStopsIff(disk: Disk, p: Prediction, applyToRaw: bool, overwrite: bool, env: Env)
    ensures Step(disk, p, applyToRaw, overwrite, env).None? <==>
      p.path !in disk.files
      || p.path in env.openFails
      || (applyToRaw && RawSibling(p.path, disk.files).Some?
          && RawSibling(p.path, disk.files).value in env.rawOpenFails)
  {
  }

  /**
   * The report names the image, lists the keywords the merge added, records
   * whether the save succeeded, and has a RAW step exactly when RAW handling
   * is on and a sibling exists, whether or not the save failed.
   */
  lemma StepReport(disk: Disk, p: Prediction, applyToRaw: bool, overwrite: bool, env: Env)
    requires Step(disk, p, applyToRaw, overwrite, env).Some?
    ensures var report := Step(disk, p, applyToRaw, overwrite, env).value.1;
      && report.path == p.path
      && report.added == MergedKeywords(StoredKeywords(disk, p.path), p.keywords, overwrite).1
      && (report.saved <==> p.path !in env.saveFails)
      && (applyToRaw && RawSibling(p.path, disk.files).Some? <==> !report.raw.RawSkipped?)
  {
  }

  /**
   * The image's keyword list becomes the merged list exactly when the save
   * succeeds, and its backup file then disappears; nothing else in the image
   * store changes.
   */
  lemma StepSavesMerged(disk: Disk, p: Prediction, applyToRaw: bool, overwrite: bool, env: Env)
    requires Step(disk, p, applyToRaw, overwrite, env).Some?
    ensures var (d, report) := Step(disk, p, applyToRaw, overwrite, env).value;
      var merged := MergedKeywords(StoredKeywords(disk, p.path), p.keywords, overwrite);
      && (report.saved ==> StoredKeywords(d, p.path) == merged.0 && d.files == disk.files - {p.path + "~"})
      && (!report.saved ==> d.keywords == disk.keywords && d.files == disk.files)
      && (forall q :: q != p.path ==> StoredKeywords(d, q) == StoredKeywords(disk, q))
  {
  }

  /**
   * The RAW sibling is rewritten exactly when RAW handling is on, a sibling
   * exists, at least one keyword was added and exiv2 writes the file; it then
   * holds the UTF-8 designation and the added keywords, truncated to the
   * Keywords limit, with every other dataset kept. No other RAW file changes.
   */
  lemma StepRawWrite(disk: Disk, p: Prediction, applyToRaw: bool, overwrite: bool, env: Env, raw: string)
    requires Step(disk, p, applyToRaw, overwrite, env).Some?
    ensures var (d, report) := Step(disk, p, applyToRaw, overwrite, env).value;
      && (report.raw == RawWritten(raw) <==>
            applyToRaw && RawSibling(p.path, disk.files) == Some(raw) && report.added != [] && raw !in env.rawWriteFails)
      && (report.raw == RawWritten(raw) ==>
            && raw in d.rawIptc
            && ValuesOf(d.rawIptc[raw], CharacterSetTag) == [Utf8Designation]
            && ValuesOf(d.rawIptc[raw], KeywordsTag) == ValuesToWrite(KeywordsTag, List(report.added))
            && (forall t :: t != CharacterSetTag && t != KeywordsTag ==>
                  ValuesOf(d.rawIptc[raw], t) == ValuesOf(StoredRecords(disk, raw), t)))
  {
    var merged := MergedKeywords(StoredKeywords(disk, p.path), p.keywords, overwrite);
    if applyToRaw && RawSibling(p.path, disk.files).Some? {
      var sibling := RawSibling(p.path, disk.files).value;
      RawIptcUpdateSucceeds(StoredRecords(disk, sibling), merged.1);
      if RawIptcUpdate(StoredRecords(disk, sibling), merged.1).1 {
        RawIptcUpdateContents(StoredRecords(disk, sibling), merged.1);
      }
    }
  }

  /** Only the written sibling's records change; without a RAW write no RAW file changes. */
  lemma StepRawOthersKept(disk: Disk, p: Prediction, applyToRaw: bool, overwrite: bool, env: Env)
    requires Step(disk, p, applyToRaw, overwrite, env).Some?
    ensures var (d, report) := Step(disk, p, applyToRaw, overwrite, env).value;
      && (!report.raw.RawWritten? ==> d.rawIptc == disk.rawIptc)
      && (report.raw.RawWritten? ==>
            && d.rawIptc.Keys == disk.rawIptc.Keys + {report.raw.rawPath}
            && forall q :: q in disk.rawIptc && q != report.raw.rawPath ==> d.rawIptc[q] == disk.rawIptc[q])
  {
  }

  // ---------------------------------------------------------------------------
  // The batch

  /** `Run` on a non-empty batch, in terms of the first step. */
  lemma RunCons(disk: Disk, predictions: seq<Prediction>, applyToRaw: bool, overwrite: bool, env: Env,
                next: Option<(Disk, FileReport)>)
    requires predictions != [] && next == Step(disk, predictions[0], applyToRaw, overwrite, env)
    ensures Run(disk, predictions, applyToRaw, overwrite, env)
         == if next.None? then BatchResult(disk, [], false)
            else Prepend([next.value.1], Run(next.value.0, predictions[1..], applyToRaw, overwrite, env))
  {
  }

  /**
   * Reports come in prediction order, one per prediction handled, and the
   * batch completes exactly when every prediction was handled.
   */
  lemma {:induction false} RunReports(disk: Disk, predictions: seq<Prediction>, applyToRaw: bool, overwrite: bool, env: Env)
    ensures var r := Run(disk, predictions, applyToRaw, overwrite, env);
      && |r.reports| <= |predictions|
      && (r.completed <==> |r.reports| == |predictions|)
      && forall i :: 0 <= i < |r.reports| ==> r.reports[i].path == predictions[i].path
    decreases |predictions|
  {
    if predictions != [] {
      var next := Step(disk, predictions[0], applyToRaw, overwrite, env);
      RunCons(disk, predictions, applyToRaw, overwrite, env, next);
      if next.Some? {
        var (d, report) := next.value;
        StepReport(disk, predictions[0], applyToRaw, overwrite, env);
        assert report.path == predictions[0].path;
        RunReports(d, predictions[1..], applyToRaw, overwrite, env);
        var rest := Run(d, predictions[1..], applyToRaw, overwrite, env);
        var reports := [report] + rest.reports;
        forall i | 0 <= i < |reports|
          ensures reports[i].path == predictions[i].path
        {
          if i > 0 {
            assert reports[i] == rest.reports[i - 1];
          }
        }
      }
    }
  }

  /** Files only disappear, and only backups "<image>~" of the predictions' images. */
  lemma {:induction false} RunRemovesOnlyBackups(disk: Disk, predictions: seq<Prediction>, applyToRaw: bool, overwrite: bool, env: Env)
    ensures var r := Run(disk, predictions, applyToRaw, overwrite, env);
      && r.disk.files <= disk.files
      && forall f :: f in disk.files - r.disk.files ==> exists i :: 0 <= i < |predictions| && f == predictions[i].path + "~"
    decreases |predictions|
  {
    if predictions != [] {
      var next := Step(disk, predictions[0], applyToRaw, overwrite, env);
      if next.Some? {
        RunRemovesOnlyBackups(next.value.0, predictions[1..], applyToRaw, overwrite, env);
        StepSavesMerged(disk, predictions[0], applyToRaw, overwrite, env);
        var r := Run(disk, predictions, applyToRaw, overwrite, env);
        forall f | f in disk.files - r.disk.files
          ensures exists i :: 0 <= i < |predictions| && f == predictions[i].path + "~"
        {
          if f in next.value.0.files {
            var r' := Run(next.value.0, predictions[1..], applyToRaw, overwrite, env);
            assert f in next.value.0.files - r'.disk.files;
            var i :| 0 <= i < |predictions[1..]| && f == predictions[1..][i].path + "~";
            assert f == predictions[i + 1].path + "~";
          } else {
            assert f == predictions[0].path + "~";
          }
        }
      }
    }
  }

  /** Without RAW handling no RAW file is touched and every report says so. */
  lemma {:induction false} RunWithoutRaw(disk: Disk, predictions: seq<Prediction>, overwrite: bool, env: Env)
    ensures var r := Run(disk, predictions, false, overwrite, env);
      && r.disk.rawIptc == disk.rawIptc
      && forall i :: 0 <= i < |r.reports| ==> r.reports[i].raw == RawSkipped
    decreases |predictions|
  {
    if predictions != [] {
      var next := Step(disk, predictions[0], false, overwrite, env);
      if next.Some? {
        RunWithoutRaw(next.value.0, predictions[1..], overwrite, env);
        StepReport(disk, predictions[0], false, overwrite, env);
        StepRawOthersKept(disk, predictions[0], false, overwrite, env);
        var rest := Run(next.value.0, predictions[1..], false, overwrite, env);
        forall i | 0 < i < |rest.reports| + 1
          ensures ([next.value.1] + rest.reports)[i].raw == RawSkipped
        {
          assert ([next.value.1] + rest.reports)[i] == rest.reports[i - 1];
        }
      }
    }
  }

  /** No image path equals another image path with the backup suffix "~" appended. */
  predicate NoBackupPaths(predictions: seq<Prediction>) {
    forall i, j :: 0 <= i < |predictions| && 0 <= j < |predictions| ==> predictions[i].path != predictions[j].path + "~"
  }

  /**
   * Failure isolation: when every image exists and can be opened, none is
   * another's backup, and every RAW file present can be opened, the batch handles every prediction,
   * whatever saves and RAW writes fail; each report records its own save.
   */
  lemma {:induction false} RunIsolatesFailures(disk: Disk, predictions: seq<Prediction>, applyToRaw: bool, overwrite: bool, env: Env)
    requires forall i :: 0 <= i < |predictions| ==> predictions[i].path in disk.files
    requires forall i :: 0 <= i < |predictions| ==> predictions[i].path !in env.openFails
    requires NoBackupPaths(predictions)
    requires applyToRaw ==> disk.files !! env.rawOpenFails
    ensures var r := Run(disk, predictions, applyToRaw, overwrite, env);
      && r.completed
      && |r.reports| == |predictions|
      && forall i :: 0 <= i < |predictions| ==> r.reports[i].saved == (predictions[i].path !in env.saveFails)
    decreases |predictions|
  {
    RunReports(disk, predictions, applyToRaw, overwrite, env);
    if predictions != [] {
      var p := predictions[0];
      StepStopsIff(disk, p, applyToRaw, overwrite, env);
      if applyToRaw && RawSibling(p.path, disk.files).Some? {
        RawSiblingExists(p.path, disk.files);
      }
      var next := Step(disk, p, applyToRaw, overwrite, env);
      assert next.Some?;
      StepReport(disk, p, applyToRaw, overwrite, env);
      StepSavesMerged(disk, p, applyToRaw, overwrite, env);
      var d := next.value.0;
      var tail := predictions[1..];
      forall i | 0 <= i < |tail|
        ensures tail[i].path in d.files
      {
        assert tail[i] == predictions[i + 1];
        assert tail[i].path != p.path + "~";
      }
      assert NoBackupPaths(tail) by {
        forall i, j | 0 <= i < |tail| && 0 <= j < |tail|
          ensures tail[i].path != tail[j].path + "~"
        {
          assert tail[i] == predictions[i + 1] && tail[j] == predictions[j + 1];
        }
      }
      RunIsolatesFailures(d, tail, applyToRaw, overwrite, env);
      var rest := Run(d, tail, applyToRaw, overwrite, env);
      forall i | 0 < i < |predictions|
        ensures ([next.value.1] + rest.reports)[i].saved == (predictions[i].path !in env.saveFails)
      {
        assert ([next.value.1] + rest.reports)[i] == rest.reports[i - 1];
        assert tail[i - 1] == predictions[i];
      }
    }
  }
}
