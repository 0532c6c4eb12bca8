/**
 * The retention filter `extractTargetRecordItems` (main.go:112-132): which
 * recordings are old enough, finished encoding and unprotected, so that their
 * raw transport-stream files may be deleted.
 */
module Retention {
  import opened Recorded

  /**
   * `time.Since(time.UnixMilli(startAt))` for a wall-clock reading `now` given
   * in Unix nanoseconds. Go's `Time.Sub` does not wrap around: a difference
   * outside the range of `Duration` saturates at its nearest bound.
   */
  function Elapsed(now: int, startAt: Int64): Duration
  {
    var exact := now - startAt * Millisecond;
    if exact > MaxInt64 then MaxInt64
    else if exact < MinInt64 then MinInt64
    else exact
  }

  /** The distance between two instants or durations. */
  function Distance(x: int, y: int): nat
  {
    if x <= y then y - x else x - y
  }

  /**
   * The elapsed time is the `Duration` nearest to the exact age of the
   * recording: the exact age itself whenever it fits in 64 bits.
   */
  lemma ElapsedIsNearestDuration(now: int, startAt: Int64, e: Duration)
    ensures Distance(Elapsed(now, startAt), now - startAt * Millisecond) <= Distance(e, now - startAt * Millisecond)
  {
  }

  /** Some file in `files` carries the tag `t`. */
  predicate HasFileType(files: seq<VideoFile>, t: string)
  {
    exists k :: 0 <= k < |files| && files[k].fileType == t
  }

  /** The selection rule of main.go:128. */
  predicate Eligible(r: RecordedItem, policy: DeletionPolicy, now: int)
  {
    && !r.isProtected
    && HasFileType(r.videoFiles, "ts")
    && HasFileType(r.videoFiles, "encoded")
    && Elapsed(now, r.startAt) > policy.retainDuration
  }

  /** The recordings of `src` that the filter appends, in the order it meets them. */
  function Targets(src: seq<RecordedItem>, policy: DeletionPolicy, now: int): (dst: seq<RecordedItem>)
    ensures |dst| <= |src|
  {
    if src == [] then []
    else
      var last := src[|src| - 1];
      Targets(src[..|src| - 1], policy, now) + (if Eligible(last, policy, now) then [last] else [])
  }

  /** The positions in `src` of the recordings `Targets` keeps. */
  function TargetIndices(src: seq<RecordedItem>, policy: DeletionPolicy, now: int): seq<nat>
  {
    if src == [] then []
    else
      var n := |src| - 1;
      TargetIndices(src[..n], policy, now) + (if Eligible(src[n], policy, now) then [n] else [])
  }

  /**
   * The inner loop of the filter: one pass over a recording's files that
   * raises `hasTS` on a "ts" file and `hasEncoded` on an "encoded" file.
   */
  method ScanVideoFiles(files: seq<VideoFile>) returns (hasTS: bool, hasEncoded: bool)
    ensures hasTS <==> HasFileType(files, "ts")
    ensures hasEncoded <==> HasFileType(files, "encoded")
  {
    hasTS, hasEncoded := false, false;
    for k := 0 to |files|
      invariant hasTS <==> exists j :: 0 <= j < k && files[j].fileType == "ts"
      invariant hasEncoded <==> exists j :: 0 <= j < k && files[j].fileType == "encoded"
    {
      if files[k].fileType == "ts" {
        hasTS := true;
      } else if files[k].fileType == "encoded" {
        hasEncoded := true;
      }
    }
  }

  /** The caller's slice that `extractTargetRecordItems` appends to through its `dst` pointer. */
  class RecordSlice {
    var items: seq<RecordedItem>

    /** `make([]RecordedItem, 0)` */
    constructor ()
      ensures items == []
    {
      items := [];
    }
  }

  /** `extractTargetRecordItems`: appends the eligible recordings of `src` to `dst`. */
  method ExtractTargetRecordItems(src: seq<RecordedItem>, policy: DeletionPolicy, now: int, dst: RecordSlice)
    modifies dst
    ensures dst.items == old(dst.items) + Targets(src, policy, now)
  {
    for i := 0 to |src|
      invariant dst.items == old(dst.items) + Targets(src[..i], policy, now)
    {
      var record := src[i];
      var hasTS, hasEncoded := ScanVideoFiles(record.videoFiles);
      var elapsed := Elapsed(now, record.startAt);
      if !record.isProtected && hasTS && hasEncoded && elapsed > policy.retainDuration {
        dst.items := dst.items + [record];
      }
      assert src[..i + 1] == src[..i] + [record];
      TargetsAppend(src[..i], record, policy, now);
    }
    assert src[..|src|] == src;
  }

  /** Appending one recording appends its position exactly when it is eligible. */
  lemma TargetIndicesAppend(src: seq<RecordedItem>, r: RecordedItem, policy: DeletionPolicy, now: int)
    ensures TargetIndices(src + [r], policy, now) ==
      TargetIndices(src, policy, now) + (if Eligible(r, policy, now) then [|src|] else [])
  {
    assert (src + [r])[..|src|] == src;
  }

  /**
   * The k-th selected recording is the one at the k-th selected position, and
   * the positions strictly increase: nothing is reordered or duplicated.
   */
  lemma {:induction false} TargetsFollowIndices(src: seq<RecordedItem>, policy: DeletionPolicy, now: int)
    ensures |TargetIndices(src, policy, now)| == |Targets(src, policy, now)|
    ensures forall k :: 0 <= k < |TargetIndices(src, policy, now)| ==>
      TargetIndices(src, policy, now)[k] < |src| &&
      Targets(src, policy, now)[k] == src[TargetIndices(src, policy, now)[k]]
    ensures forall k, l :: 0 <= k < l < |TargetIndices(src, policy, now)| ==>
      TargetIndices(src, policy, now)[k] < TargetIndices(src, policy, now)[l]
  {
    if src != [] {
      var front, last := src[..|src| - 1], src[|src| - 1];
      TargetsFollowIndices(front, policy, now);
      assert src == front + [last];
      TargetsAppend(front, last, policy, now);
      TargetIndicesAppend(front, last, policy, now);
      assert forall i :: 0 <= i < |front| ==> front[i] == src[i];
    }
  }

  /** The selected positions are exactly the positions of eligible recordings. */
  lemma {:induction false} TargetIndicesAreEligible(src: seq<RecordedItem>, policy: DeletionPolicy, now: int)
    ensures forall i :: 0 <= i < |src| ==> (i in TargetIndices(src, policy, now) <==> Eligible(src[i], policy, now))
  {
    if src != [] {
      var front, last := src[..|src| - 1], src[|src| - 1];
      TargetIndicesAreEligible(front, policy, now);
      assert src == front + [last];
      TargetIndicesAppend(front, last, policy, now);
      TargetsFollowIndices(front, policy, now);
      assert forall i :: 0 <= i < |front| ==> front[i] == src[i];
    }
  }

  /** A recording is selected exactly when it occurs in `src` and meets the rule of main.go:128. */
  lemma {:induction false} InTargetsIff(src: seq<RecordedItem>, policy: DeletionPolicy, now: int, r: RecordedItem)
    ensures r in Targets(src, policy, now) <==> r in src && Eligible(r, policy, now)
  {
    if src != [] {
      var n := |src| - 1;
      InTargetsIff(src[..n], policy, now, r);
      assert src == src[..n] + [src[n]];
    }
  }

  /** Protected recordings are never selected, whatever their files or age. */
  lemma ProtectedNeverSelected(src: seq<RecordedItem>, policy: DeletionPolicy, now: int)
    ensures forall r :: r in Targets(src, policy, now) ==> !r.isProtected
  {
    forall r | r in Targets(src, policy, now)
      ensures !r.isProtected
    {
      InTargetsIff(src, policy, now, r);
    }
  }

  /** Appending one recording to the input appends it to the output exactly when it is eligible. */
  lemma TargetsAppend(src: seq<RecordedItem>, r: RecordedItem, policy: DeletionPolicy, now: int)
    ensures Targets(src + [r], policy, now) ==
      Targets(src, policy, now) + (if Eligible(r, policy, now) then [r] else [])
  {
    assert (src + [r])[..|src|] == src;
  }

  /** Filtering a concatenation filters each part: the pass is record by record. */
  lemma {:induction false} TargetsOfConcat(a: seq<RecordedItem>, b: seq<RecordedItem>, policy: DeletionPolicy, now: int)
    ensures Targets(a + b, policy, now) == Targets(a, policy, now) + Targets(b, policy, now)
  {
    if b == [] {
      assert a + b == a;
    } else {
      var front, last := b[..|b| - 1], b[|b| - 1];
      var kept := if Eligible(last, policy, now) then [last] else [];
      assert b == front + [last];
      calc {
        Targets(a + b, policy, now);
        { assert a + b == (a + front) + [last]; }
        Targets((a + front) + [last], policy, now);
        { TargetsAppend(a + front, last, policy, now); }
        Targets(a + front, policy, now) + kept;
        { TargetsOfConcat(a, front, policy, now); }
        (Targets(a, policy, now) + Targets(front, policy, now)) + kept;
        Targets(a, policy, now) + (Targets(front, policy, now) + kept);
        { TargetsAppend(front, last, policy, now); }
        Targets(a, policy, now) + Targets(b, policy, now);
      }
    }
  }

  /** Running the filter on its own output selects everything again. */
  lemma {:induction false} TargetsIdempotent(src: seq<RecordedItem>, policy: DeletionPolicy, now: int)
    ensures Targets(Targets(src, policy, now), policy, now) == Targets(src, policy, now)
  {
    if src != [] {
      var front, last := src[..|src| - 1], src[|src| - 1];
      var kept := if Eligible(last, policy, now) then [last] else [];
      assert src == front + [last];
      calc {
        Targets(Targets(src, policy, now), policy, now);
        { TargetsAppend(front, last, policy, now); }
        Targets(Targets(front, policy, now) + kept, policy, now);
        { TargetsOfConcat(Targets(front, policy, now), kept, policy, now); }
        Targets(Targets(front, policy, now), policy, now) + Targets(kept, policy, now);
        { TargetsIdempotent(front, policy, now); }
        Targets(front, policy, now) + Targets(kept, policy, now);
        { assert kept == [] + kept; TargetsAppend([], last, policy, now); }
        Targets(front, policy, now) + kept;
        { TargetsAppend(front, last, policy, now); }
        Targets(src, policy, now);
      }
    }
  }

  /**
   * The age comparison is strict: a recording exactly `retainDuration` old is
   * kept, and one nanosecond more makes it eligible (unless the duration is
   * already the largest `Duration`, which nothing can exceed).
   */
  lemma RetentionBoundary(r: RecordedItem, policy: DeletionPolicy)
    requires !r.isProtected && HasFileType(r.videoFiles, "ts") && HasFileType(r.videoFiles, "encoded")
    ensures !Eligible(r, policy, r.startAt * Millisecond + policy.retainDuration)
    ensures policy.retainDuration < MaxInt64 ==>
      Eligible(r, policy, r.startAt * Millisecond + policy.retainDuration + Nanosecond)
  {
  }

  /** Because elapsed time saturates, a retain duration of the largest `Duration` selects nothing. */
  lemma {:induction false} MaximalRetentionSelectsNothing(src: seq<RecordedItem>, policy: DeletionPolicy, now: int)
    requires policy.retainDuration == MaxInt64
    ensures Targets(src, policy, now) == []
  {
    if src != [] {
      MaximalRetentionSelectsNothing(src[..|src| - 1], policy, now);
    }
  }

  /** A recording once eligible stays eligible as the clock advances. */
  lemma TargetsPersistOverTime(src: seq<RecordedItem>, policy: DeletionPolicy, now: int, later: int)
    requires now <= later
    ensures forall r :: r in Targets(src, policy, now) ==> r in Targets(src, policy, later)
  {
    forall r | r in Targets(src, policy, now)
      ensures r in Targets(src, policy, later)
    {
      InTargetsIff(src, policy, now, r);
      InTargetsIff(src, policy, later, r);
    }
  }
}
