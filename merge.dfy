/** `merge_audio_files` (7.py:1103-1123): the results are sorted by index in place,
    the merge is refused unless there is one result per chunk, and the decoded chunk
    files are concatenated in index order. Decoding is an oracle that yields a chunk's
    samples or fails, as `AudioSegment.from_wav` does. */
module Merge {
  import opened Naming
  import opened Ledger
  import opened Wrappers

  predicate SortedByIndex(s: seq<DownloadResult>) {
    forall p, q :: 0 <= p < q < |s| ==> s[p].index <= s[q].index
  }

  /** Moves `a[i]` left past every greater index, so that `a[..i + 1]` is sorted. */
  method InsertLeft(a: array<DownloadResult>, i: nat)
    requires i < a.Length && SortedByIndex(a[..i])
    modifies a
    ensures SortedByIndex(a[..i + 1])
    ensures multiset(a[..]) == multiset(old(a[..]))
    ensures a[i + 1..] == old(a[i + 1..])
    ensures old(i == 0 || a[i - 1].index <= a[i].index) ==> a[..] == old(a[..])
  {
    if i == 0 || a[i - 1].index <= a[i].index {
      return;
    }
    var j := i;
    while j > 0 && a[j - 1].index > a[j].index
      invariant 0 <= j <= i
      invariant forall p, q :: 0 <= p < q <= i && q != j ==> a[p].index <= a[q].index
      invariant multiset(a[..]) == multiset(old(a[..]))
      invariant a[i + 1..] == old(a[i + 1..])
    {
      Swap(a, j - 1, j);
      j := j - 1;
    }
  }

  /** Exchanges two results in place. */
  method Swap(a: array<DownloadResult>, x: nat, y: nat)
    requires x < a.Length && y < a.Length
    modifies a
    ensures a[x] == old(a[y]) && a[y] == old(a[x])
    ensures forall p :: 0 <= p < a.Length && p != x && p != y ==> a[p] == old(a[p])
    ensures multiset(a[..]) == multiset(old(a[..]))
  {
    a[x], a[y] := a[y], a[x];
  }

  /** `results.sort(key=lambda r: r.index)`: in place, by index, a permutation, and
      a no-op on results that are already in order. */
  method SortByIndex(a: array<DownloadResult>)
    modifies a
    ensures SortedByIndex(a[..])
    ensures multiset(a[..]) == multiset(old(a[..]))
    ensures SortedByIndex(old(a[..])) ==> a[..] == old(a[..])
  {
    var i := 0;
    while i < a.Length
      invariant 0 <= i <= a.Length
      invariant SortedByIndex(a[..i])
      invariant multiset(a[..]) == multiset(old(a[..]))
      invariant a[i..] == old(a[i..])
      invariant SortedByIndex(old(a[..])) ==> a[..] == old(a[..])
    {
      InsertLeft(a, i);
      i := i + 1;
    }
    assert a[..a.Length] == a[..];
  }

  /** The chunks' samples concatenated in the order of `rs`, or None when a file does
      not decode. */
  function Combined(rs: seq<DownloadResult>, decode: string -> Option<seq<int>>): Option<seq<int>> {
    if rs == [] then Some([])
    else
      match Combined(rs[..|rs| - 1], decode)
      case None => None
      case Some(audio) =>
        match decode(rs[|rs| - 1].finalPath)
        case None => None
        case Some(segment) => Some(audio + segment)
  }

  /** What a merge comes to: refused for a wrong count, failed on a file that does not
      decode, or the concatenated audio written to `finalFilename`. */
  datatype MergeOutcome =
    | NotMerged(have: nat, want: nat)
    | MergeFailed
    | Merged(output: string, audio: seq<int>)

  /** `merge_audio_files` on `results`, which it sorts in place. */
  method MergeAudioFiles(results: array<DownloadResult>, totalChunks: nat, finalFilename: string,
                         decode: string -> Option<seq<int>>) returns (outcome: MergeOutcome)
    modifies results
    ensures SortedByIndex(results[..]) && multiset(results[..]) == multiset(old(results[..]))
    ensures outcome.NotMerged? <==> results.Length != totalChunks
    ensures results.Length == totalChunks ==>
      match Combined(results[..], decode)
      case None => outcome == MergeFailed
      case Some(audio) => outcome == Merged(finalFilename, audio)
  {
    SortByIndex(results);
    if results.Length != totalChunks {
      return NotMerged(results.Length, totalChunks);
    }
    var combined := Concatenate(results[..], decode);
    match combined {
      case None => return MergeFailed;
      case Some(audio) => return Merged(finalFilename, audio);
    }
  }

  /** The loop of `merge_audio_files`: decode each file in turn and append its samples,
      stopping at the first that does not decode. */
  method Concatenate(rs: seq<DownloadResult>, decode: string -> Option<seq<int>>) returns (r: Option<seq<int>>)
    ensures r == Combined(rs, decode)
  {
    var combined: seq<int> := [];
    var i := 0;
    while i < |rs|
      invariant 0 <= i <= |rs|
      invariant Combined(rs[..i], decode) == Some(combined)
    {
      assert rs[..i + 1][..i] == rs[..i];
      match decode(rs[i].finalPath) {
        case None =>
          assert Combined(rs[..i + 1], decode) == None;
          CombinedFailsOnward(rs, i + 1, decode);
          return None;
        case Some(segment) =>
          combined := combined + segment;
      }
      i := i + 1;
    }
    assert rs[..i] == rs;
    return Some(combined);
  }

  /** Once a file fails to decode, the whole merge fails. */
  lemma {:induction false} CombinedFailsOnward(rs: seq<DownloadResult>, i: nat, decode: string -> Option<seq<int>>)
    requires i <= |rs| && Combined(rs[..i], decode) == None
    ensures Combined(rs, decode) == None
    decreases |rs| - i
  {
    if i < |rs| {
      assert rs[..i + 1][..i] == rs[..i];
      CombinedFailsOnward(rs, i + 1, decode);
    } else {
      assert rs[..i] == rs;
    }
  }

  /** Merging all of `rs` is merging a prefix, then the rest, in that order. */
  lemma {:induction false} CombinedAppend(xs: seq<DownloadResult>, ys: seq<DownloadResult>, decode: string -> Option<seq<int>>)
    ensures Combined(xs + ys, decode) ==
      match Combined(xs, decode)
      case None => None
      case Some(a) =>
        match Combined(ys, decode)
        case None => None
        case Some(b) => Some(a + b)
    decreases |ys|
  {
    if ys == [] {
      assert xs + ys == xs;
      match Combined(xs, decode) {
        case None =>
        case Some(a) => assert a + [] == a;
      }
    } else {
      var ys0, y := ys[..|ys| - 1], ys[|ys| - 1];
      assert (xs + ys)[..|xs + ys| - 1] == xs + ys0;
      CombinedAppend(xs, ys0, decode);
      match Combined(xs, decode) {
        case None =>
        case Some(a) =>
          match Combined(ys0, decode) {
            case None =>
            case Some(b) =>
              assert a + b + [] == a + b;
              match decode(y.finalPath) {
                case None =>
                case Some(seg) => assert a + (b + seg) == a + b + seg;
              }
          }
      }
    }
  }

  /** The merged audio is each chunk's audio, one after another, so its length is the
      sum of theirs. */
  lemma {:induction false} CombinedLength(rs: seq<DownloadResult>, decode: string -> Option<seq<int>>)
    requires forall k :: 0 <= k < |rs| ==> decode(rs[k].finalPath).Some?
    ensures Combined(rs, decode).Some?
    ensures |Combined(rs, decode).value| == TotalLength(rs, decode)
  {
    if rs != [] {
      CombinedLength(rs[..|rs| - 1], decode);
    }
  }

  function TotalLength(rs: seq<DownloadResult>, decode: string -> Option<seq<int>>): nat
    requires forall k :: 0 <= k < |rs| ==> decode(rs[k].finalPath).Some?
  {
    if rs == [] then 0 else TotalLength(rs[..|rs| - 1], decode) + |decode(rs[|rs| - 1].finalPath).value|
  }

  // ---------------------------------------------------------------------------
  // The gate and the ledger
  // ---------------------------------------------------------------------------

  /** When every chunk's file exists, the collected results are chunks 1..n in order. */
  lemma {:induction false} CollectAll(t: Template, files: set<string>, n: nat)
    requires forall i :: 1 <= i <= n ==> Format(t, i) in files
    ensures |Collect(t, files, n)| == n
    ensures forall k :: 0 <= k < n ==> Collect(t, files, n)[k].index == k + 1
  {
    if n > 0 {
      CollectAll(t, files, n - 1);
      var r0 := Collect(t, files, n - 1);
      assert forall k :: 0 <= k < n - 1 ==> Collect(t, files, n)[k] == r0[k];
    }
  }

  /** The gate passes on the collected results exactly when planning again would find
      nothing to do, and then they are chunks 1..N in order, so the sort changes nothing
      and the audio comes out in chunk order. */
  lemma GateMeansComplete(t: Template, files: set<string>, chunks: seq<string>)
    ensures var rs := Collect(t, files, |chunks|);
      && (|rs| == |chunks| <==> Pending(t, files, chunks) == [])
      && (|rs| == |chunks| ==> forall k :: 0 <= k < |rs| ==> rs[k].index == k + 1)
      && SortedByIndex(rs)
  {
    var rs := Collect(t, files, |chunks|);
    PlanAndCollectPartition(t, files, chunks);
    CollectAscending(t, files, |chunks|);
    assert SortedByIndex(rs) by {
      forall p, q | 0 <= p < q < |rs| ensures rs[p].index <= rs[q].index {
        assert ResultIndices(rs)[p] < ResultIndices(rs)[q];
      }
    }
    if |rs| == |chunks| {
      PendingComplete(t, files, chunks);
      assert Indices(Pending(t, files, chunks)) == [];
      CollectAll(t, files, |chunks|);
    }
  }
}
