/** How `simple_interaction_flow` tells a freshly generated audio element from the one
    already on the page (7.py:287-308 and 7.py:350-378): it saves the first non-empty
    `src` it finds, with a fingerprint of 100 characters after "base64," when the `src`
    is a `data:audio` URL, and later skips a candidate `src` as stale when it has the
    saved length and either carries the saved fingerprint or, not being a `data:audio`
    URL, equals the saved `src`. An empty string stands for a missing `src`. */
module Freshness {
  import opened Wrappers

  predicate StartsWith(s: string, prefix: string) {
    |prefix| <= |s| && s[..|prefix|] == prefix
  }

  /** The `src` of an audio clip inlined as a data URL. */
  predicate IsDataAudio(s: string) {
    StartsWith(s, "data:audio")
  }

  /** `base64,(.{100})` matches at `i`: the marker, then 100 characters none of which
      is a newline. */
  predicate FingerprintAt(s: string, i: nat) {
    i + 107 <= |s| && s[i..i + 7] == "base64," && forall j :: i + 7 <= j < i + 107 ==> s[j] != '\n'
  }

  /** Where `re.search` finds the pattern from `k` on: the leftmost match, or none. */
  function FindFingerprint(s: string, k: nat): (r: Option<nat>)
    ensures r.Some? ==> k <= r.value && FingerprintAt(s, r.value)
    ensures r.Some? ==> forall j :: k <= j < r.value ==> !FingerprintAt(s, j)
    ensures r.None? ==> forall j :: k <= j ==> !FingerprintAt(s, j)
    decreases |s| - k
  {
    if k + 107 > |s| then None
    else if FingerprintAt(s, k) then Some(k)
    else FindFingerprint(s, k + 1)
  }

  /** The group the search captures: the 100 characters after the first fitting
      "base64,". */
  function Fingerprint(s: string): Option<string> {
    match FindFingerprint(s, 0)
    case None => None
    case Some(i) => Some(s[i + 7..i + 107])
  }

  /** A fingerprint is 100 characters without a newline that follow "base64," in the
      `src`. */
  lemma FingerprintShape(s: string)
    ensures Fingerprint(s).Some? ==>
      var fp := Fingerprint(s).value;
      |fp| == 100 && '\n' !in fp
      && exists i: nat :: FingerprintAt(s, i) && s[i..i + 107] == "base64," + fp
    ensures Fingerprint(s).None? ==> forall i :: !FingerprintAt(s, i)
  {
    match FindFingerprint(s, 0) {
      case None =>
      case Some(i) =>
        var fp := s[i + 7..i + 107];
        assert forall j :: 0 <= j < 100 ==> fp[j] == s[i + 7 + j];
        assert s[i..i + 107] == s[i..i + 7] + fp;
    }
  }

  /** What the first step keeps of the old audio: its `src` ("" when none was found)
      and, when one could be taken, its fingerprint. */
  datatype Saved = Saved(src: string, fingerprint: Option<string>)

  /** The first non-empty `src` of the page's audio elements, with its fingerprint
      when it is a `data:audio` URL that has one. */
  function SavedFrom(srcs: seq<string>): (saved: Saved)
    ensures saved.src == "" <==> forall k :: 0 <= k < |srcs| ==> srcs[k] == ""
    ensures saved.src != "" ==>
      exists k :: 0 <= k < |srcs| && srcs[k] == saved.src && forall j :: 0 <= j < k ==> srcs[j] == ""
    ensures saved.fingerprint == if IsDataAudio(saved.src) then Fingerprint(saved.src) else None
  {
    if srcs == [] then Saved("", None)
    else if srcs[0] == "" then SavedFrom(srcs[1..])
    else Saved(srcs[0], if IsDataAudio(srcs[0]) then Fingerprint(srcs[0]) else None)
  }

  /** The loop over the old audio elements (7.py:292-306). */
  method SaveOldSource(srcs: seq<string>) returns (saved: Saved)
    ensures saved == SavedFrom(srcs)
  {
    saved := Saved("", None);
    var i := 0;
    while i < |srcs|
      invariant 0 <= i <= |srcs|
      invariant SavedFrom(srcs) == SavedFrom(srcs[i..])
    {
      assert srcs[i..][1..] == srcs[i + 1..];
      var src := srcs[i];
      if src != "" {
        var fingerprint := None;
        if IsDataAudio(src) {
          fingerprint := Fingerprint(src);
        }
        saved := Saved(src, fingerprint);
        return;
      }
      i := i + 1;
    }
  }

  /** A candidate `src` is skipped as the old audio when a `src` was saved, the
      candidate has its length, and either it is a `data:audio` URL carrying the saved
      fingerprint or it is not one and equals the saved `src`. */
  predicate IsStale(saved: Saved, cur: string) {
    && saved.src != ""
    && |cur| == |saved.src|
    && if IsDataAudio(cur) then Fingerprint(cur).Some? && saved.fingerprint == Fingerprint(cur)
       else cur == saved.src
  }

  /** Without a saved fingerprint, a `data:audio` candidate is never stale. */
  lemma NoSavedFingerprintMeansFresh(saved: Saved, cur: string)
    requires saved.fingerprint == None && IsDataAudio(cur)
    ensures !IsStale(saved, cur)
  {
  }

  /** The old audio seen again is recognised as stale, except when it is a `data:audio`
      URL without a fingerprint: then it passes for new. */
  lemma SameAudioAgain(srcs: seq<string>)
    requires SavedFrom(srcs).src != ""
    ensures var saved := SavedFrom(srcs);
      IsStale(saved, saved.src) <==> !IsDataAudio(saved.src) || Fingerprint(saved.src).Some?
  {
  }

  /** Two different `data:audio` clips of the same length whose first 100 base64
      characters agree are taken for the same one: the newer is skipped. */
  lemma SameFingerprintIsStale(previous: string, cur: string)
    requires IsDataAudio(previous) && IsDataAudio(cur) && |cur| == |previous|
    requires Fingerprint(previous).Some? && Fingerprint(cur) == Fingerprint(previous)
    ensures IsStale(Saved(previous, Fingerprint(previous)), cur)
  {
  }

  /** The first index from `k` on whose `src` is non-empty and not stale. */
  function FirstNew(saved: Saved, srcs: seq<string>, k: nat): (r: Option<nat>)
    requires k <= |srcs|
    ensures r.Some? ==> k <= r.value < |srcs| && srcs[r.value] != "" && !IsStale(saved, srcs[r.value])
    ensures forall j :: k <= j < |srcs| && (r.None? || j < r.value) ==> srcs[j] == "" || IsStale(saved, srcs[j])
    decreases |srcs| - k
  {
    if k == |srcs| then None
    else if srcs[k] != "" && !IsStale(saved, srcs[k]) then Some(k)
    else FirstNew(saved, srcs, k + 1)
  }

  /** One scan over the page's audio elements (7.py:350-378): the first with a new
      `src`, if any. */
  method FindNewAudio(saved: Saved, srcs: seq<string>) returns (found: Option<nat>)
    ensures found == FirstNew(saved, srcs, 0)
  {
    var i := 0;
    while i < |srcs|
      invariant 0 <= i <= |srcs|
      invariant FirstNew(saved, srcs, 0) == FirstNew(saved, srcs, i)
    {
      var current := srcs[i];
      if current != "" {
        var stale := false;
        if saved.src != "" && |current| == |saved.src| {
          if IsDataAudio(current) {
            var fingerprint := Fingerprint(current);
            if fingerprint.Some? && saved.fingerprint == fingerprint {
              stale := true;
            }
          } else if current == saved.src {
            stale := true;
          }
        }
        if !stale {
          return Some(i);
        }
      }
      i := i + 1;
    }
    return None;
  }
}
