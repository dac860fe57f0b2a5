/** Canonical file names for downloaded chunks: the filename template with its
    zero-padded `{index:0Nd}` field (7.py:954, 1129), the POSIX `pathlib` notions of a
    path's name, stem and suffix, `build_target_name` (7.py:260-265) and the
    collision-free `rename_downloaded_file` (7.py:267-274). A directory is the set of
    the names of the files in it. */
module Naming {

  // ---------------------------------------------------------------------------
  // Decimal numerals: str(index) and its zero-padded form
  // ---------------------------------------------------------------------------

  predicate IsDigit(c: char) {
    '0' <= c <= '9'
  }

  predicate IsNumeral(s: string) {
    forall i :: 0 <= i < |s| ==> IsDigit(s[i])
  }

  function DigitChar(d: nat): (c: char)
    requires d < 10
    ensures IsDigit(c) && c as int - '0' as int == d
  {
    ('0' as int + d) as char
  }

  /** The decimal numeral of `k`, as `str(k)` writes it: digits only, and a leading
      '0' only for zero itself. */
  function Decimal(k: nat): (s: string)
    ensures s != [] && IsNumeral(s)
    ensures s[0] == '0' <==> k == 0
  {
    if k < 10 then [DigitChar(k)] else Decimal(k / 10) + [DigitChar(k % 10)]
  }

  /** The number a string of digits denotes. */
  function Value(s: string): nat
    requires IsNumeral(s)
  {
    if s == [] then 0 else Value(s[..|s| - 1]) * 10 + (s[|s| - 1] as int - '0' as int)
  }

  function Pow10(m: nat): (p: nat)
    ensures p >= 1
  {
    if m == 0 then 1 else 10 * Pow10(m - 1)
  }

  /** Reading a numeral back gives the number: `int(str(k)) == k`. */
  lemma {:induction false} DecimalValue(k: nat)
    ensures Value(Decimal(k)) == k
  {
    if k >= 10 {
      var s := Decimal(k);
      assert s[..|s| - 1] == Decimal(k / 10);
      DecimalValue(k / 10);
    }
  }

  /** A number of at least `10^m` has more than `m` digits. */
  lemma {:induction false} DecimalLong(k: nat, m: nat)
    requires k >= Pow10(m)
    ensures |Decimal(k)| > m
  {
    if m > 0 {
      assert k / 10 >= Pow10(m - 1);
      DecimalLong(k / 10, m - 1);
    }
  }

  /** A number below `10^m` has at most `m` digits. */
  lemma {:induction false} DecimalShort(k: nat, m: nat)
    requires m >= 1 && k < Pow10(m)
    ensures |Decimal(k)| <= m
  {
    if k >= 10 {
      assert m >= 2;
      assert k / 10 < Pow10(m - 1);
      DecimalShort(k / 10, m - 1);
    }
  }

  function Zeros(n: nat): string {
    seq(n, _ => '0')
  }

  /** `s` left-padded with '0' to at least `width` characters. */
  function ZeroPad(s: string, width: nat): string {
    if |s| < width then Zeros(width - |s|) + s else s
  }

  /** `format(k, "0<width>d")`. */
  function Padded(k: nat, width: nat): string {
    ZeroPad(Decimal(k), width)
  }

  lemma {:induction false} ZerosValue(n: nat)
    ensures IsNumeral(Zeros(n)) && Value(Zeros(n)) == 0
  {
    if n > 0 {
      assert Zeros(n)[..n - 1] == Zeros(n - 1);
      ZerosValue(n - 1);
    }
  }

  /** Leading zeros do not change the number a numeral denotes. */
  lemma {:induction false} LeadingZerosValue(n: nat, s: string)
    requires IsNumeral(s)
    ensures IsNumeral(Zeros(n) + s) && Value(Zeros(n) + s) == Value(s)
  {
    if s == [] {
      assert Zeros(n) + s == Zeros(n);
      ZerosValue(n);
    } else {
      var t := Zeros(n) + s;
      assert t[..|t| - 1] == Zeros(n) + s[..|s| - 1];
      LeadingZerosValue(n, s[..|s| - 1]);
    }
  }

  /** The padded field is a numeral of `max(width, digits)` characters that still
      denotes `k`. */
  lemma PaddedValue(k: nat, width: nat)
    ensures IsNumeral(Padded(k, width)) && Value(Padded(k, width)) == k
    ensures |Padded(k, width)| == if |Decimal(k)| < width then width else |Decimal(k)|
  {
    DecimalValue(k);
    if |Decimal(k)| < width {
      LeadingZerosValue(width - |Decimal(k)|, Decimal(k));
    }
  }

  /** Below `10^width` the padded field is exactly `width` characters wide. */
  lemma PaddedWidth(k: nat, width: nat)
    requires width >= 1 && k < Pow10(width)
    ensures |Padded(k, width)| == width
  {
    DecimalShort(k, width);
    PaddedValue(k, width);
  }

  /** Different indices give different padded fields. */
  lemma PaddedInjective(i: nat, j: nat, width: nat)
    requires Padded(i, width) == Padded(j, width)
    ensures i == j
  {
    PaddedValue(i, width);
    PaddedValue(j, width);
  }

  // ---------------------------------------------------------------------------
  // Filename templates
  // ---------------------------------------------------------------------------

  /** A filename template `prefix{index:0<width>d}rest`: literal text around one
      zero-padded index field. */
  datatype Template = Template(prefix: string, width: nat, rest: string)

  /** `template.format(index=index)`. */
  function Format(t: Template, index: nat): string {
    t.prefix + Padded(index, t.width) + t.rest
  }

  /** The default of `automate_google_ai_simple`, "audio_chunk_{index:02d}.wav". */
  const DefaultTemplate: Template := Template("audio_chunk_", 2, ".wav")

  /** The template `main` passes, "audio_chunk_{index:04d}.wav". */
  const MainTemplate: Template := Template("audio_chunk_", 4, ".wav")

  /** A template gives every index its own name. */
  lemma FormatInjective(t: Template, i: nat, j: nat)
    requires Format(t, i) == Format(t, j)
    ensures i == j
  {
    var p := |t.prefix|;
    var s, u := Format(t, i), Format(t, j);
    assert |Padded(i, t.width)| == |Padded(j, t.width)|;
    assert s[p..p + |Padded(i, t.width)|] == Padded(i, t.width);
    assert u[p..p + |Padded(j, t.width)|] == Padded(j, t.width);
    PaddedInjective(i, j, t.width);
  }

  /** Below `10^4`, the name `main` uses is "audio_chunk_", the index as four digits
      and ".wav". */
  lemma MainTemplateName(index: nat)
    requires index < 10000
    ensures |Format(MainTemplate, index)| == 20
    ensures Format(MainTemplate, index)[..12] == "audio_chunk_"
    ensures Format(MainTemplate, index)[16..] == ".wav"
    ensures Format(MainTemplate, index)[12..16] == Padded(index, 4)
    ensures IsNumeral(Format(MainTemplate, index)[12..16]) && Value(Format(MainTemplate, index)[12..16]) == index
  {
    assert Pow10(4) == 10000;
    PaddedWidth(index, 4);
    PaddedValue(index, 4);
    assert Format(MainTemplate, index)[12..16] == Padded(index, 4);
  }

  // ---------------------------------------------------------------------------
  // POSIX path names (pathlib.PurePosixPath)
  // ---------------------------------------------------------------------------

  /** A name a path component can have: non-empty, not ".", without '/'. */
  predicate ValidName(n: string) {
    n != [] && n != "." && '/' !in n
  }

  /** `p.split('/')`. */
  function Segments(p: string): (r: seq<string>)
    ensures |r| >= 1
    ensures forall i :: 0 <= i < |r| ==> '/' !in r[i]
  {
    if p == [] then [[]]
    else
      var rest := Segments(p[1..]);
      if p[0] == '/' then [[]] + rest else [[p[0]] + rest[0]] + rest[1..]
  }

  /** The segments pathlib keeps as components: empty ones and "." are dropped. */
  function Kept(ss: seq<string>): (r: seq<string>)
    requires forall i :: 0 <= i < |ss| ==> '/' !in ss[i]
    ensures forall i :: 0 <= i < |r| ==> ValidName(r[i])
  {
    if ss == [] then []
    else (if ss[0] == [] || ss[0] == "." then [] else [ss[0]]) + Kept(ss[1..])
  }

  /** `Path(p).name`: the last component, or "" for a path without one. */
  function Name(p: string): string {
    var cs := Kept(Segments(p));
    if cs == [] then [] else cs[|cs| - 1]
  }

  lemma {:induction false} SegmentsOfName(n: string)
    requires '/' !in n
    ensures Segments(n) == [n]
  {
    if n != [] {
      assert '/' !in n[1..];
      SegmentsOfName(n[1..]);
      assert [n[0]] + n[1..] == n;
    }
  }

  /** A path's name is empty or a valid name, and a valid name is its own name. */
  lemma NameOfName(p: string)
    ensures Name(p) == [] || ValidName(Name(p))
    ensures ValidName(p) ==> Name(p) == p
  {
    if ValidName(p) {
      SegmentsOfName(p);
      assert Kept([p]) == [p] + Kept([]);
    }
  }

  /** `str.rfind('.')`: the position of the last '.', or -1. */
  function LastDot(n: string): (i: int)
    ensures -1 <= i < |n|
    ensures i >= 0 ==> n[i] == '.'
    ensures forall j :: i < j < |n| ==> n[j] != '.'
  {
    if n == [] then -1
    else if n[|n| - 1] == '.' then |n| - 1
    else LastDot(n[..|n| - 1])
  }

  /** `PurePath.suffix`: from the last '.' on, unless that dot starts or ends the name. */
  function Suffix(n: string): string {
    var i := LastDot(n);
    if 0 < i < |n| - 1 then n[i..] else []
  }

  /** `PurePath.stem`: the name without its suffix. */
  function Stem(n: string): string {
    var i := LastDot(n);
    if 0 < i < |n| - 1 then n[..i] else n
  }

  /** What a suffix looks like: a '.', then at least one character, none a '.'. */
  predicate IsExtension(e: string) {
    |e| >= 2 && e[0] == '.' && forall j :: 1 <= j < |e| ==> e[j] != '.'
  }

  /** The stem and the suffix split the name; the suffix is empty or an extension, and
      the stem of a non-empty name is non-empty. */
  lemma StemSuffix(n: string)
    ensures Stem(n) + Suffix(n) == n
    ensures Suffix(n) == [] || IsExtension(Suffix(n))
    ensures n != [] ==> Stem(n) != []
    ensures '/' !in n ==> '/' !in Stem(n) && '/' !in Suffix(n)
  {
    var i := LastDot(n);
    if 0 < i < |n| - 1 {
      assert n[..i] + n[i..] == n;
      assert forall c :: c in n[i..] ==> c in n;
      assert forall c :: c in n[..i] ==> c in n;
    }
  }

  /** A non-empty name followed by an extension has that extension as its suffix and
      the name as its stem. */
  lemma SuffixAfter(a: string, e: string)
    requires a != [] && IsExtension(e)
    ensures Suffix(a + e) == e && Stem(a + e) == a
  {
    var n := a + e;
    assert n[|a|] == '.';
    assert forall j :: |a| < j < |n| ==> n[j] == e[j - |a|];
    assert LastDot(n) == |a| by {
      LastDotAt(n, |a|);
    }
    assert n[|a|..] == e && n[..|a|] == a;
  }

  lemma LastDotAt(n: string, i: nat)
    requires i < |n| && n[i] == '.'
    requires forall j :: i < j < |n| ==> n[j] != '.'
    ensures LastDot(n) == i
  {
  }

  // ---------------------------------------------------------------------------
  // build_target_name
  // ---------------------------------------------------------------------------

  /** The canonical name of chunk `index`: the name of the formatted template, with
      the downloaded file's suffix added when the template gives none. */
  function BuildTargetName(t: Template, index: nat, original: string): string {
    var name := Name(Format(t, index));
    if Suffix(name) != [] then name else name + Suffix(Name(original))
  }

  /** The target keeps the template's stem, and has the template's suffix when it has
      one and the downloaded file's suffix otherwise; it is empty exactly when neither
      the template's name nor the download's suffix gives it a character. */
  lemma TargetName(t: Template, index: nat, original: string)
    ensures var name, r := Name(Format(t, index)), BuildTargetName(t, index, original);
      && '/' !in r
      && (r == [] <==> name == [] && Suffix(Name(original)) == [])
      && (name != [] ==> Stem(r) == Stem(name))
      && (name != [] ==> Suffix(r) == if Suffix(name) != [] then Suffix(name) else Suffix(Name(original)))
  {
    var name, ext := Name(Format(t, index)), Suffix(Name(original));
    NameOfName(Format(t, index));
    NameOfName(original);
    StemSuffix(name);
    StemSuffix(Name(original));
    if Suffix(name) == [] && ext != [] {
      if name != [] {
        SuffixAfter(name, ext);
      }
      assert forall c :: c in name + ext ==> c in name || c in ext;
    }
  }

  /** A template whose literal text has no '/' and ends in an extension. */
  predicate PlainTemplate(t: Template) {
    '/' !in t.prefix && '/' !in t.rest && IsExtension(t.rest)
  }

  /** For a plain template the target is exactly the formatted template, whatever
      the downloaded file was called: the name the plan looks for. */
  lemma PlainTargetIsFormat(t: Template, index: nat, original: string)
    requires PlainTemplate(t)
    ensures ValidName(Format(t, index))
    ensures BuildTargetName(t, index, original) == Format(t, index)
  {
    var s := Format(t, index);
    var pad := Padded(index, t.width);
    PaddedValue(index, t.width);
    assert '/' !in pad by {
      forall j | 0 <= j < |pad| ensures pad[j] != '/' {
        assert IsDigit(pad[j]);
      }
    }
    assert '/' !in s by {
      assert forall c :: c in s ==> c in t.prefix || c in pad || c in t.rest;
    }
    assert s != "." && s != [];
    NameOfName(s);
    assert Suffix(s) == t.rest by {
      assert s == (t.prefix + pad) + t.rest;
      SuffixAfter(t.prefix + pad, t.rest);
    }
  }

  /** Both templates the program uses are plain. */
  lemma ProgramTemplatesArePlain()
    ensures PlainTemplate(DefaultTemplate) && PlainTemplate(MainTemplate)
  {
    assert IsExtension(".wav");
  }

  // ---------------------------------------------------------------------------
  // rename_downloaded_file
  // ---------------------------------------------------------------------------

  /** The names the rename tries in turn: the target itself, then the target's stem,
      '_', the counter and the suffix of the name tried before. */
  function Candidate(target: string, k: nat): string {
    if k == 0 then target
    else Stem(target) + "_" + Decimal(k) + Suffix(Candidate(target, k - 1))
  }

  /** When the target has a suffix, every later candidate is `stem_k.suffix`. */
  lemma {:induction false} CandidateWithSuffix(target: string, k: nat)
    requires Suffix(target) != [] && k >= 1
    ensures Candidate(target, k) == Stem(target) + "_" + Decimal(k) + Suffix(target)
  {
    StemSuffix(target);
    if k > 1 {
      CandidateWithSuffix(target, k - 1);
      var a := Stem(target) + "_" + Decimal(k - 1);
      assert Candidate(target, k - 1) == a + Suffix(target);
      SuffixAfter(a, Suffix(target));
    }
  }

  /** A target with a trailing '.' has no suffix, so the first retry "a._1" suddenly
      has one and it is carried into every later candidate. */
  lemma CandidateAfterTrailingDot()
    ensures Candidate("a.", 1) == "a._1"
    ensures Candidate("a.", 2) == "a._2._1"
  {
    assert LastDot("a.") == 1;
    assert Suffix("a.") == [] && Stem("a.") == "a.";
    assert Decimal(1) == "1" && Decimal(2) == "2";
    assert Candidate("a.", 1) == "a._1";
    assert LastDot("a._1") == 1 by {
      LastDotAt("a._1", 1);
    }
    assert Suffix("a._1") == "._1";
  }

  /** Every retried candidate is longer than the counter's numeral. */
  lemma CandidateLength(target: string, k: nat)
    requires k >= 1
    ensures |Candidate(target, k)| > |Decimal(k)|
  {
  }

  /** An upper bound on the length of the names in a directory. */
  ghost function MaxLen(files: set<string>): (m: nat)
    ensures forall x :: x in files ==> |x| <= m
  {
    if files == {} then 0
    else
      var x :| x in files;
      var m := MaxLen(files - {x});
      if |x| > m then |x| else m
  }

  /** Only counters below `10^MaxLen(files)` can give a name that is taken, so the
      search ends. */
  lemma TakenBelowBound(files: set<string>, target: string, k: nat)
    requires Candidate(target, k) in files
    ensures k < Pow10(MaxLen(files))
  {
    if k >= Pow10(MaxLen(files)) {
      DecimalLong(k, MaxLen(files));
      CandidateLength(target, k);
    }
  }

  /** Whether the candidate with counter `j` is already a name in the directory. */
  ghost function Taken(files: set<string>, target: string): nat -> bool {
    (j: nat) => Candidate(target, j) in files
  }

  /** Only counters below `10^MaxLen(files)` are taken. */
  lemma TakenBounded(files: set<string>, target: string)
    ensures forall j: nat :: Taken(files, target)(j) ==> j < Pow10(MaxLen(files))
  {
    forall j: nat | Taken(files, target)(j) ensures j < Pow10(MaxLen(files)) {
      TakenBelowBound(files, target, j);
    }
  }

  /** The first counter from `k` on that is not taken, when only counters below
      `bound` are. */
  ghost function FirstFreeFrom(taken: nat -> bool, bound: nat, k: nat): (r: nat)
    requires forall j: nat :: taken(j) ==> j < bound
    ensures k <= r && !taken(r)
    decreases bound - k
  {
    if !taken(k) then k else FirstFreeFrom(taken, bound, k + 1)
  }

  /** Every counter the search passes over is taken. */
  lemma {:induction false} SkippedAreTaken(taken: nat -> bool, bound: nat, k: nat)
    requires forall j: nat :: taken(j) ==> j < bound
    ensures forall j :: k <= j < FirstFreeFrom(taken, bound, k) ==> taken(j)
    decreases bound - k
  {
    if taken(k) {
      var r := FirstFreeFrom(taken, bound, k);
      assert r == FirstFreeFrom(taken, bound, k + 1);
      SkippedAreTaken(taken, bound, k + 1);
      forall j | k <= j < r ensures taken(j) {
        if j > k {
          assert k + 1 <= j < FirstFreeFrom(taken, bound, k + 1);
        }
      }
    }
  }

  /** The counter `rename_downloaded_file` settles on. */
  ghost function FirstFree(files: set<string>, target: string): nat {
    TakenBounded(files, target);
    FirstFreeFrom(Taken(files, target), Pow10(MaxLen(files)), 0)
  }

  /** The counter settled on gives a free name, every counter before it a taken one,
      and the target itself is kept when it is free. */
  lemma FirstFreeMeaning(files: set<string>, target: string)
    ensures Candidate(target, FirstFree(files, target)) !in files
    ensures forall j :: 0 <= j < FirstFree(files, target) ==> Candidate(target, j) in files
    ensures target !in files ==> FirstFree(files, target) == 0
  {
    var taken, bound := Taken(files, target), Pow10(MaxLen(files));
    TakenBounded(files, target);
    SkippedAreTaken(taken, bound, 0);
    var f := FirstFree(files, target);
    assert f == FirstFreeFrom(taken, bound, 0);
    assert !taken(f);
    forall j | 0 <= j < f ensures Candidate(target, j) in files {
      assert taken(j);
    }
    if target !in files {
      assert !taken(0);
    }
  }

  datatype RenameResult =
    | Renamed(name: string, files: set<string>)
    | InvalidName     // `with_name` refuses the target (ValueError)
    | MissingSource   // `rename` finds no file `src` (FileNotFoundError)

  /** What renaming `src` to `target` in the directory `files` comes to. */
  ghost function RenameOutcome(files: set<string>, src: string, target: string): RenameResult {
    if !ValidName(src) || !ValidName(target) then InvalidName
    else if src !in files then MissingSource
    else
      var name := Candidate(target, FirstFree(files, target));
      Renamed(name, files - {src} + {name})
  }

  /** The rename refuses an invalid name and a missing source; otherwise the new name
      is the first free candidate: it was not taken, every candidate before it was, the target itself is used when it is
      free, and only `src` leaves the directory and only the new name joins it. */
  lemma RenameOutcomeMeaning(files: set<string>, src: string, target: string)
    ensures var r := RenameOutcome(files, src, target);
      && (r == InvalidName <==> !ValidName(src) || !ValidName(target))
      && (r == MissingSource <==> ValidName(src) && ValidName(target) && src !in files)
      && (r.Renamed? ==>
        && r.name == Candidate(target, FirstFree(files, target))
        && r.name !in files
        && (forall j :: 0 <= j < FirstFree(files, target) ==> Candidate(target, j) in files)
        && (target !in files ==> r.name == target)
        && src !in r.files && r.name in r.files
        && (forall x :: x in files && x != src ==> x in r.files)
        && (forall x :: x in r.files ==> x in files || x == r.name)
        && |r.files| == |files|)
  {
    var r := RenameOutcome(files, src, target);
    if r.Renamed? {
      FirstFreeMeaning(files, target);
      assert src != r.name;
      assert |files - {src}| == |files| - 1;
    }
  }

  /** Renames `src` in the directory `files` to `target`, or to the first free
      `stem_k`-candidate when `target` is taken. */
  method RenameDownloadedFile(files: set<string>, src: string, target: string) returns (r: RenameResult)
    ensures r == RenameOutcome(files, src, target)
  {
    if !ValidName(src) || !ValidName(target) {
      return InvalidName;
    }
    var final := target;
    var k: nat := 0;
    TakenBounded(files, target);
    while final in files
      invariant final == Candidate(target, k)
      invariant FirstFreeFrom(Taken(files, target), Pow10(MaxLen(files)), k) == FirstFree(files, target)
      decreases Pow10(MaxLen(files)) - k
    {
      TakenBelowBound(files, target, k);
      var suffix := Suffix(final);
      k := k + 1;
      final := Stem(target) + "_" + Decimal(k) + suffix;
    }
    if src !in files {
      return MissingSource;
    }
    return Renamed(final, files - {src} + {final});
  }
}
