/**
 * The deletion loop of `main` (main.go:184-199): for every selected recording,
 * every video file of type "ts" is either announced (dry run) or handed once
 * to `DeleteVideoFile`; an error is logged and the loop goes on.
 */
module Deletion {
  import opened Wrappers
  import opened Recorded
  import opened Retention
  import opened Client

  /** The "ts" files among `files`, in order. */
  function TsOf(files: seq<VideoFile>): seq<VideoFile>
  {
    if files == [] then []
    else
      var last := files[|files| - 1];
      TsOf(files[..|files| - 1]) + (if last.fileType == "ts" then [last] else [])
  }

  /** The positions in `files` of the files `TsOf` keeps. */
  function TsIndices(files: seq<VideoFile>): seq<nat>
  {
    if files == [] then []
    else
      var n := |files| - 1;
      TsIndices(files[..n]) + (if files[n].fileType == "ts" then [n] else [])
  }

  /** The "ts" files of `records`, in record order and, within a record, in file order. */
  function TsFiles(records: seq<RecordedItem>): seq<VideoFile>
  {
    if records == [] then []
    else TsFiles(records[..|records| - 1]) + TsOf(records[|records| - 1].videoFiles)
  }

  /** The identifiers of `files`, position by position. */
  function Ids(files: seq<VideoFile>): (ids: seq<Int64>)
    ensures |ids| == |files|
  {
    if files == [] then [] else Ids(files[..|files| - 1]) + [files[|files| - 1].id]
  }

  /** The identifier at each position is that of the file at the same position. */
  lemma {:induction false} IdsAt(files: seq<VideoFile>, k: nat)
    requires k < |files|
    ensures Ids(files)[k] == files[k].id
  {
    if k < |files| - 1 {
      IdsAt(files[..|files| - 1], k);
    }
  }

  /** The identifiers among `calls` whose delete came back with an error; call `k` gets `responses(k)`. */
  function Failed(calls: seq<Int64>, responses: nat -> Response): seq<Int64>
  {
    if calls == [] then []
    else
      var n := |calls| - 1;
      Failed(calls[..n], responses) + (if DeleteVideoFile(responses(n)).Fail? then [calls[n]] else [])
  }

  /**
   * The outer loop over the selected recordings. `calls` are the identifiers
   * passed to `DeleteVideoFile`, in order; `failed` those whose call returned an
   * error (and was logged); `planned` those announced by a dry run.
   */
  method DeleteTargets(targets: seq<RecordedItem>, isDryRun: bool, responses: nat -> Response)
    returns (calls: seq<Int64>, failed: seq<Int64>, planned: seq<Int64>)
    ensures isDryRun ==> calls == [] && failed == [] && planned == Ids(TsFiles(targets))
    ensures !isDryRun ==> planned == [] && calls == Ids(TsFiles(targets)) && failed == Failed(calls, responses)
  {
    calls, failed, planned := [], [], [];
    for i := 0 to |targets|
      invariant isDryRun ==> calls == [] && failed == [] && planned == Ids(TsFiles(targets[..i]))
      invariant !isDryRun ==> planned == [] && calls == Ids(TsFiles(targets[..i])) && failed == Failed(calls, responses)
    {
      calls, failed, planned := DeleteRecordFiles(targets[i].videoFiles, isDryRun, responses, calls, failed, planned);
      assert targets[..i + 1] == targets[..i] + [targets[i]];
      TsFilesAppend(targets[..i], targets[i]);
      IdsOfConcat(TsFiles(targets[..i]), TsOf(targets[i].videoFiles));
    }
    assert targets[..|targets|] == targets;
  }

  /**
   * The inner loop over one recording's files, continuing the trace of the
   * calls made so far: each "ts" file is announced (dry run) or deleted once,
   * and an error moves on to the next file.
   */
  method DeleteRecordFiles(
    files: seq<VideoFile>, isDryRun: bool, responses: nat -> Response,
    calls0: seq<Int64>, failed0: seq<Int64>, planned0: seq<Int64>)
    returns (calls: seq<Int64>, failed: seq<Int64>, planned: seq<Int64>)
    requires isDryRun ==> calls0 == [] && failed0 == []
    requires !isDryRun ==> planned0 == [] && failed0 == Failed(calls0, responses)
    ensures isDryRun ==> calls == [] && failed == [] && planned == planned0 + Ids(TsOf(files))
    ensures !isDryRun ==> planned == [] && calls == calls0 + Ids(TsOf(files)) && failed == Failed(calls, responses)
  {
    calls, failed, planned := calls0, failed0, planned0;
    ghost var ts: seq<VideoFile> := [];
    for j := 0 to |files|
      invariant ts == TsOf(files[..j])
      invariant isDryRun ==> calls == [] && failed == [] && planned == planned0 + Ids(ts)
      invariant !isDryRun ==> planned == [] && calls == calls0 + Ids(ts) && failed == Failed(calls, responses)
    {
      var videoFile := files[j];
      assert files[..j + 1] == files[..j] + [videoFile];
      TsOfAppend(files[..j], videoFile);
      if videoFile.fileType == "ts" {
        AppendIdStep(calls0, ts, videoFile);
        AppendIdStep(planned0, ts, videoFile);
        ts := ts + [videoFile];
        if isDryRun {
          planned := planned + [videoFile.id];
        } else {
          var err := DeleteVideoFile(responses(|calls|));
          FailedSnoc(calls, videoFile.id, responses);
          calls := calls + [videoFile.id];
          if err.Fail? {
            failed := failed + [videoFile.id];
            continue;
          }
        }
      }
    }
    assert files[..|files|] == files;
  }

  /** One more recording extends the candidates by its own "ts" files. */
  lemma TsFilesAppend(records: seq<RecordedItem>, r: RecordedItem)
    ensures TsFiles(records + [r]) == TsFiles(records) + TsOf(r.videoFiles)
  {
    assert (records + [r])[..|records|] == records;
  }

  /** The identifiers of a concatenation are the concatenated identifiers. */
  lemma {:induction false} IdsOfConcat(a: seq<VideoFile>, b: seq<VideoFile>)
    ensures Ids(a + b) == Ids(a) + Ids(b)
  {
    if b == [] {
      assert a + b == a;
    } else {
      var front, last := b[..|b| - 1], b[|b| - 1];
      assert b == front + [last];
      calc {
        Ids(a + b);
        { assert a + b == (a + front) + [last]; }
        Ids((a + front) + [last]);
        { IdsSnoc(a + front, last); }
        Ids(a + front) + [last.id];
        { IdsOfConcat(a, front); }
        (Ids(a) + Ids(front)) + [last.id];
        Ids(a) + (Ids(front) + [last.id]);
        { IdsSnoc(front, last); }
        Ids(a) + Ids(b);
      }
    }
  }

  /** One loop step's update of a trace that began with `prefix`. */
  lemma AppendIdStep(prefix: seq<Int64>, files: seq<VideoFile>, f: VideoFile)
    ensures prefix + Ids(files + [f]) == (prefix + Ids(files)) + [f.id]
  {
    IdsSnoc(files, f);
  }

  /** One more file appends its identifier. */
  lemma IdsSnoc(files: seq<VideoFile>, f: VideoFile)
    ensures Ids(files + [f]) == Ids(files) + [f.id]
  {
    assert (files + [f])[..|files|] == files;
  }

  /** One more call appends its identifier to the failures exactly when its answer is an error. */
  lemma FailedSnoc(calls: seq<Int64>, x: Int64, responses: nat -> Response)
    ensures Failed(calls + [x], responses) ==
      Failed(calls, responses) + (if DeleteVideoFile(responses(|calls|)).Fail? then [x] else [])
  {
    assert (calls + [x])[..|calls|] == calls;
  }

  /** A file is among `TsOf(files)` exactly when it is one of `files` and has type "ts". */
  lemma {:induction false} InTsOfIff(files: seq<VideoFile>, f: VideoFile)
    ensures f in TsOf(files) <==> f in files && f.fileType == "ts"
  {
    if files != [] {
      var n := |files| - 1;
      InTsOfIff(files[..n], f);
      assert files == files[..n] + [files[n]];
    }
  }

  /** One more file appends its position exactly when it has type "ts". */
  lemma TsIndicesAppend(files: seq<VideoFile>, f: VideoFile)
    ensures TsIndices(files + [f]) == TsIndices(files) + (if f.fileType == "ts" then [|files|] else [])
  {
    assert (files + [f])[..|files|] == files;
  }

  /** One more file extends the candidates by that file exactly when it has type "ts". */
  lemma TsOfAppend(files: seq<VideoFile>, f: VideoFile)
    ensures TsOf(files + [f]) == TsOf(files) + (if f.fileType == "ts" then [f] else [])
  {
    assert (files + [f])[..|files|] == files;
  }

  /**
   * The k-th candidate of a recording is its file at the k-th "ts" position,
   * and these positions strictly increase: each "ts" file is taken once, in
   * file order.
   */
  lemma {:induction false} TsOfFollowsIndices(files: seq<VideoFile>)
    ensures |TsIndices(files)| == |TsOf(files)|
    ensures forall k :: 0 <= k < |TsIndices(files)| ==>
      TsIndices(files)[k] < |files| && TsOf(files)[k] == files[TsIndices(files)[k]]
    ensures forall k, l :: 0 <= k < l < |TsIndices(files)| ==> TsIndices(files)[k] < TsIndices(files)[l]
  {
    if files != [] {
      var front, last := files[..|files| - 1], files[|files| - 1];
      TsOfFollowsIndices(front);
      assert files == front + [last];
      TsOfAppend(front, last);
      TsIndicesAppend(front, last);
      assert forall i :: 0 <= i < |front| ==> front[i] == files[i];
    }
  }

  /** The candidate positions are exactly the positions of the "ts" files. */
  lemma {:induction false} TsIndicesAreTs(files: seq<VideoFile>)
    ensures forall i :: 0 <= i < |files| ==> (i in TsIndices(files) <==> files[i].fileType == "ts")
  {
    if files != [] {
      var front, last := files[..|files| - 1], files[|files| - 1];
      TsIndicesAreTs(front);
      assert files == front + [last];
      TsIndicesAppend(front, last);
      TsOfFollowsIndices(front);
      assert forall i :: 0 <= i < |front| ==> front[i] == files[i];
    }
  }

  /**
   * Only "ts" files are deleted, and every "ts" file of every given recording
   * is: "encoded" and other files are never touched.
   */
  lemma {:induction false} InTsFilesIff(records: seq<RecordedItem>, f: VideoFile)
    ensures f in TsFiles(records) <==>
      f.fileType == "ts" && exists i :: 0 <= i < |records| && f in records[i].videoFiles
  {
    if records != [] {
      var n := |records| - 1;
      var p := records[..n];
      InTsFilesIff(p, f);
      InTsOfIff(records[n].videoFiles, f);
      assert TsFiles(records) == TsFiles(p) + TsOf(records[n].videoFiles);
      if f in TsFiles(p) {
        var i :| 0 <= i < |p| && f in p[i].videoFiles;
        assert records[i] == p[i];
      }
      if f.fileType == "ts" && exists i :: 0 <= i < |records| && f in records[i].videoFiles {
        var i :| 0 <= i < |records| && f in records[i].videoFiles;
        if i < n {
          assert p[i] == records[i];
        }
      }
    }
  }

  /** The files of one batch of recordings all come before those of a later batch. */
  lemma {:induction false} TsFilesOfConcat(a: seq<RecordedItem>, b: seq<RecordedItem>)
    ensures TsFiles(a + b) == TsFiles(a) + TsFiles(b)
  {
    if b == [] {
      assert a + b == a;
    } else {
      var front, last := b[..|b| - 1], b[|b| - 1];
      assert b == front + [last];
      calc {
        TsFiles(a + b);
        { assert a + b == (a + front) + [last]; }
        TsFiles((a + front) + [last]);
        { TsFilesAppend(a + front, last); }
        TsFiles(a + front) + TsOf(last.videoFiles);
        { TsFilesOfConcat(a, front); }
        (TsFiles(a) + TsFiles(front)) + TsOf(last.videoFiles);
        TsFiles(a) + (TsFiles(front) + TsOf(last.videoFiles));
        { TsFilesAppend(front, last); }
        TsFiles(a) + TsFiles(b);
      }
    }
  }

  /**
   * An identifier is reported failed exactly when some call with it got an
   * error back; the failures are a part of the calls, never more.
   */
  lemma {:induction false} InFailedIff(calls: seq<Int64>, responses: nat -> Response, x: Int64)
    ensures |Failed(calls, responses)| <= |calls|
    ensures x in Failed(calls, responses) <==>
      exists k :: 0 <= k < |calls| && calls[k] == x && DeleteVideoFile(responses(k)).Fail?
  {
    if calls != [] {
      var n := |calls| - 1;
      InFailedIff(calls[..n], responses, x);
      if exists k :: 0 <= k < |calls| && calls[k] == x && DeleteVideoFile(responses(k)).Fail? {
        var k :| 0 <= k < |calls| && calls[k] == x && DeleteVideoFile(responses(k)).Fail?;
        if k < n {
          assert calls[..n][k] == calls[k];
        }
      }
    }
  }

  /** When every delete answers 200, nothing is reported failed. */
  lemma {:induction false} AllOkNoFailures(calls: seq<Int64>, responses: nat -> Response)
    requires forall k: nat :: responses(k) == HttpResponse(200)
    ensures Failed(calls, responses) == []
  {
    if calls != [] {
      AllOkNoFailures(calls[..|calls| - 1], responses);
    }
  }

  /**
   * End to end: a file is deleted exactly when it has type "ts" and belongs to
   * a recording that meets the retention rule.
   */
  lemma DeletedExactlyEligibleTs(src: seq<RecordedItem>, policy: DeletionPolicy, now: int, f: VideoFile)
    ensures f in TsFiles(Targets(src, policy, now)) <==>
      f.fileType == "ts" &&
      exists i :: 0 <= i < |src| && Eligible(src[i], policy, now) && f in src[i].videoFiles
  {
    var targets := Targets(src, policy, now);
    InTsFilesIff(targets, f);
    if f in TsFiles(targets) {
      var j :| 0 <= j < |targets| && f in targets[j].videoFiles;
      InTargetsIff(src, policy, now, targets[j]);
      var i :| 0 <= i < |src| && src[i] == targets[j];
    }
    if f.fileType == "ts" && exists i :: 0 <= i < |src| && Eligible(src[i], policy, now) && f in src[i].videoFiles {
      var i :| 0 <= i < |src| && Eligible(src[i], policy, now) && f in src[i].videoFiles;
      InTargetsIff(src, policy, now, src[i]);
      var j :| 0 <= j < |targets| && targets[j] == src[i];
    }
  }

  /**
   * Every recording whose raw files are deleted keeps an "encoded" file, and
   * that file is not among those deleted.
   */
  lemma EncodedCopySurvives(src: seq<RecordedItem>, policy: DeletionPolicy, now: int, r: RecordedItem)
    requires r in Targets(src, policy, now)
    ensures exists f :: f in r.videoFiles && f.fileType == "encoded" && f !in TsFiles(Targets(src, policy, now))
  {
    InTargetsIff(src, policy, now, r);
    var k :| 0 <= k < |r.videoFiles| && r.videoFiles[k].fileType == "encoded";
    InTsFilesIff(Targets(src, policy, now), r.videoFiles[k]);
  }

  /**
   * A scenario: two recordings 400 hours old with a "ts" and an
   * "encoded" file, the second protected; with the default 336 hours only the
   * first is selected and only its "ts" file is deleted.
   */
  lemma ProtectedTwinScenario(startAt: Int64)
    ensures
      var ts1, enc1 := VideoFile(10, "ts"), VideoFile(11, "encoded");
      var ts2, enc2 := VideoFile(20, "ts"), VideoFile(21, "encoded");
      var r1 := RecordedItem(1, false, startAt, [ts1, enc1]);
      var r2 := RecordedItem(2, true, startAt, [ts2, enc2]);
      var targets := Targets([r1, r2], DeletionPolicy(336 * Hour), startAt * Millisecond + 400 * Hour);
      targets == [r1] && Ids(TsFiles(targets)) == [10]
  {
    var ts1, enc1 := VideoFile(10, "ts"), VideoFile(11, "encoded");
    var r1 := RecordedItem(1, false, startAt, [ts1, enc1]);
    var r2 := RecordedItem(2, true, startAt, [VideoFile(20, "ts"), VideoFile(21, "encoded")]);
    var policy, now := DeletionPolicy(336 * Hour), startAt * Millisecond + 400 * Hour;
    assert Eligible(r1, policy, now) by {
      assert r1.videoFiles[0] == ts1 && r1.videoFiles[1] == enc1;
    }
    assert [r1, r2][..1] == [r1] && [r1][..0] == [];
    assert Targets([r1, r2], policy, now) == [r1];
    assert [ts1, enc1][..1] == [ts1] && [ts1][..0] == [];
    assert TsOf([ts1]) == [ts1];
    assert TsOf([ts1, enc1]) == [ts1];
    assert TsFiles([r1]) == [ts1];
    assert [ts1][..0] == [];
  }
}
