/** Whitespace, words and sentences as the text utilities of 7.py see them:
    `normalise_whitespace`, `str.split()`, `" ".join(...)` and the sentence-end
    regular expression `(?<=[.!?])\s+`. Strings are sequences of characters. */
module Text {

  /** Python's `str.isspace()`; `\s` in a `str` regular expression matches the same characters. */
  predicate IsSpace(c: char) {
    c == ' ' || ('\t' <= c <= '\r') || ('\U{1c}' <= c <= '\U{1f}') || c == '\U{85}' || c == '\U{a0}'
    || c == '\U{1680}' || ('\U{2000}' <= c <= '\U{200a}') || c == '\U{2028}' || c == '\U{2029}'
    || c == '\U{202f}' || c == '\U{205f}' || c == '\U{3000}'
  }

  /** The only whitespace character in `s` is the plain space. */
  predicate OnlyPlainSpaces(s: string) {
    forall i :: 0 <= i < |s| && IsSpace(s[i]) ==> s[i] == ' '
  }

  /** No two spaces in a row. */
  ghost predicate NoDoubleSpace(s: string) {
    forall i :: 0 < i < |s| ==> s[i - 1] != ' ' || s[i] != ' '
  }

  /** The shape of `normalise_whitespace`'s output: single plain spaces between non-space text. */
  ghost predicate IsNormal(s: string) {
    && OnlyPlainSpaces(s)
    && NoDoubleSpace(s)
    && (s != [] ==> s[0] != ' ' && s[|s| - 1] != ' ')
  }

  /** A word as `str.split()` yields it: non-empty, no whitespace. */
  predicate IsWord(w: string) {
    w != [] && forall i :: 0 <= i < |w| ==> !IsSpace(w[i])
  }

  /** `s` without its leading whitespace (the left half of `str.strip()`). */
  function DropSpaces(s: string): (r: string)
    ensures |r| <= |s| && r == s[|s| - |r|..]
    ensures r == [] || !IsSpace(r[0])
    ensures forall i :: 0 <= i < |s| - |r| ==> IsSpace(s[i])
  {
    if s != [] && IsSpace(s[0]) then DropSpaces(s[1..]) else s
  }

  /** `s` without its trailing whitespace (the right half of `str.strip()`). */
  function DropSpacesRight(s: string): (r: string)
    ensures |r| <= |s| && r == s[..|r|]
    ensures r == [] || !IsSpace(r[|r| - 1])
  {
    if s != [] && IsSpace(s[|s| - 1]) then DropSpacesRight(s[..|s| - 1]) else s
  }

  /** What `DropSpacesRight` drops is whitespace. */
  lemma {:induction false} DropSpacesRightDropsSpaces(s: string)
    ensures forall i :: |DropSpacesRight(s)| <= i < |s| ==> IsSpace(s[i])
  {
    if s != [] && IsSpace(s[|s| - 1]) {
      DropSpacesRightDropsSpaces(s[..|s| - 1]);
    }
  }

  /** `str.strip()`. */
  function Strip(s: string): string {
    DropSpacesRight(DropSpaces(s))
  }

  /** `re.sub(r"\s+", " ", s)`: every maximal run of whitespace becomes one space. */
  function Collapse(s: string): (r: string)
    decreases |s|
    ensures r == [] <==> s == []
    ensures r != [] ==> (r[0] == ' ' <==> IsSpace(s[0]))
  {
    if s == [] then []
    else if IsSpace(s[0]) then [' '] + Collapse(DropSpaces(s))
    else [s[0]] + Collapse(s[1..])
  }

  /** Collapsing leaves single plain spaces only. */
  lemma {:induction false} CollapseSpacing(s: string)
    ensures OnlyPlainSpaces(Collapse(s)) && NoDoubleSpace(Collapse(s))
    decreases |s|
  {
    if s != [] {
      var r := Collapse(s);
      var tail := if IsSpace(s[0]) then DropSpaces(s) else s[1..];
      var c := Collapse(tail);
      assert OnlyPlainSpaces(c) && NoDoubleSpace(c) by {
        CollapseSpacing(tail);
      }
      assert r == [r[0]] + c;
      assert IsSpace(r[0]) ==> r[0] == ' ';
      assert r[0] == ' ' ==> c == [] || c[0] != ' ';
      GlueSpacing(r[0], c);
    }
  }

  /** Putting a character before text with single plain spaces only keeps it so, unless
      it makes a double space or is whitespace other than the plain space. */
  lemma GlueSpacing(x: char, c: string)
    requires OnlyPlainSpaces(c) && NoDoubleSpace(c)
    requires IsSpace(x) ==> x == ' '
    requires x == ' ' ==> c == [] || c[0] != ' '
    ensures OnlyPlainSpaces([x] + c) && NoDoubleSpace([x] + c)
  {
    var r := [x] + c;
    forall i | 0 <= i < |r| && IsSpace(r[i]) ensures r[i] == ' ' {
      if i > 0 { assert r[i] == c[i - 1]; }
    }
    forall i | 0 < i < |r| && r[i - 1] == ' ' ensures r[i] != ' ' {
      if i > 1 {
        assert r[i - 1] == c[i - 2] && r[i] == c[i - 1];
      }
    }
  }

  /** `normalise_whitespace` (7.py:43-44). */
  function Normalise(s: string): string {
    Strip(Collapse(s))
  }

  /** The non-whitespace characters of `s`, in order. */
  function NonSpaces(s: string): string {
    if s == [] then [] else (if IsSpace(s[0]) then [] else [s[0]]) + NonSpaces(s[1..])
  }

  /** The longest whitespace-free prefix of `s`. */
  function TakeWord(s: string): (w: string)
    ensures |w| <= |s| && w == s[..|w|]
    ensures |w| < |s| ==> IsSpace(s[|w|])
  {
    if s != [] && !IsSpace(s[0]) then [s[0]] + TakeWord(s[1..]) else []
  }

  /** The first word holds no whitespace. */
  lemma {:induction false} TakeWordHasNoSpace(s: string)
    ensures forall i :: 0 <= i < |TakeWord(s)| ==> !IsSpace(TakeWord(s)[i])
  {
    if s != [] && !IsSpace(s[0]) {
      TakeWordHasNoSpace(s[1..]);
      var w := TakeWord(s);
      forall i | 0 < i < |w| ensures !IsSpace(w[i]) {
        assert w[i] == TakeWord(s[1..])[i - 1];
      }
    }
  }

  /** `s.split()`: the maximal whitespace-free runs of `s`, in order. */
  function Words(s: string): (ws: seq<string>)
    decreases |s|
  {
    var t := DropSpaces(s);
    if t == [] then []
    else
      var w := TakeWord(t);
      [w] + Words(t[|w|..])
  }

  /** Every element of `str.split()` is a word. */
  lemma {:induction false} WordsAreWords(s: string)
    ensures forall k :: 0 <= k < |Words(s)| ==> IsWord(Words(s)[k])
    decreases |s|
  {
    var t := DropSpaces(s);
    if t != [] {
      var w := TakeWord(t);
      TakeWordHasNoSpace(t);
      assert w != [] by {
        assert t[0] == s[|s| - |t|];
      }
      WordsAreWords(t[|w|..]);
      var ws := Words(s);
      forall k | 0 <= k < |ws| ensures IsWord(ws[k]) {
        if k > 0 {
          assert ws[k] == Words(t[|w|..])[k - 1];
        }
      }
    }
  }

  /** `" ".join(ws)`. */
  function Join(ws: seq<string>): string {
    if ws == [] then []
    else if |ws| == 1 then ws[0]
    else Join(ws[..|ws| - 1]) + " " + ws[|ws| - 1]
  }

  predicate IsTerminal(c: char) {
    c == '.' || c == '!' || c == '?'
  }

  /** Position `k` starts a match of `(?<=[.!?])\s+` in `t`. */
  predicate BoundaryAt(t: string, k: int) {
    0 < k < |t| && IsSpace(t[k]) && IsTerminal(t[k - 1])
  }

  /** The first sentence boundary at or after `i`, or `|t|` when there is none. */
  function FindBoundary(t: string, i: nat): (k: nat)
    requires i <= |t|
    decreases |t| - i
    ensures i <= k <= |t|
    ensures k == |t| || BoundaryAt(t, k)
  {
    if i == |t| then |t| else if BoundaryAt(t, i) then i else FindBoundary(t, i + 1)
  }

  /** No boundary lies between `i` and the one `FindBoundary` finds. */
  lemma {:induction false} FindBoundaryFirst(t: string, i: nat)
    requires i <= |t|
    ensures forall j :: i <= j < FindBoundary(t, i) ==> !BoundaryAt(t, j)
    decreases |t| - i
  {
    if i < |t| && !BoundaryAt(t, i) {
      FindBoundaryFirst(t, i + 1);
    }
  }

  /** `SENTENCE_END_REGEX.split(t)`: cut `t` at every maximal whitespace run that follows
      '.', '!' or '?', dropping the run (a run at the very end leaves a final empty piece). */
  function SplitAtBoundaries(t: string): seq<string>
    decreases |t|
  {
    var k := if t == [] then 0 else FindBoundary(t, 1);
    if k == |t| then [t] else [t[..k]] + SplitAtBoundaries(DropSpaces(t[k..]))
  }

  /** The sentence list of `smart_split` (7.py:66): none for empty text. */
  function Sentences(t: string): seq<string> {
    if t == [] then [] else SplitAtBoundaries(t)
  }

  // ---------------------------------------------------------------------------
  // Joining
  // ---------------------------------------------------------------------------

  /** Joining two non-empty lists puts exactly one separator between them. */
  lemma {:induction false} JoinAppend(xs: seq<string>, ys: seq<string>)
    requires xs != [] && ys != []
    ensures Join(xs + ys) == Join(xs) + " " + Join(ys)
    decreases |ys|
  {
    var zs := xs + ys;
    var last := ys[|ys| - 1];
    assert zs[..|zs| - 1] == xs + ys[..|ys| - 1] && zs[|zs| - 1] == last;
    if |ys| == 1 {
      assert zs[..|zs| - 1] == xs;
    } else {
      var ys0 := ys[..|ys| - 1];
      JoinAppend(xs, ys0);
      calc {
        Join(zs);
        Join(xs + ys0) + " " + last;
        (Join(xs) + " " + Join(ys0)) + " " + last;
        { ConcatAssoc(Join(xs) + " ", Join(ys0), " " + last); }
        Join(xs) + " " + (Join(ys0) + " " + last);
        Join(xs) + " " + Join(ys);
      }
    }
  }

  lemma ConcatAssoc(a: string, b: string, c: string)
    ensures (a + b) + c == a + (b + c)
  {
  }

  lemma JoinCons(w: string, ws: seq<string>)
    requires ws != []
    ensures Join([w] + ws) == w + " " + Join(ws)
  {
    JoinAppend([w], ws);
  }

  /** Joining normal non-empty pieces gives normal non-empty text. */
  lemma {:induction false} JoinNormal(ws: seq<string>)
    requires ws != []
    requires forall k :: 0 <= k < |ws| ==> ws[k] != [] && IsNormal(ws[k])
    ensures Join(ws) != [] && IsNormal(Join(ws))
    decreases |ws|
  {
    if |ws| > 1 {
      JoinNormal(ws[..|ws| - 1]);
      NormalGlue(Join(ws[..|ws| - 1]), ws[|ws| - 1]);
    }
  }

  /** Two normal non-empty texts glued by one space form a normal text. */
  lemma NormalGlue(a: string, b: string)
    requires a != [] && b != [] && IsNormal(a) && IsNormal(b)
    ensures IsNormal(a + " " + b)
  {
    var s := a + " " + b;
    forall i | 0 <= i < |s| && IsSpace(s[i])
      ensures s[i] == ' '
    {
      if i < |a| { assert s[i] == a[i]; }
      else if i > |a| { assert s[i] == b[i - |a| - 1]; }
    }
    forall i | 0 < i < |s|
      ensures s[i - 1] == ' ' ==> s[i] != ' '
    {
      if i < |a| { assert s[i - 1] == a[i - 1] && s[i] == a[i]; }
      else if i == |a| { assert s[i - 1] == a[|a| - 1]; }
      else if i == |a| + 1 { assert s[i] == b[0]; }
      else { assert s[i - 1] == b[i - |a| - 2] && s[i] == b[i - |a| - 1]; }
    }
  }

  /** A slice of a normal text that does not begin or end with a space is normal. */
  lemma NormalSlice(t: string, a: nat, b: nat)
    requires IsNormal(t) && a <= b <= |t|
    requires a < b ==> t[a] != ' ' && t[b - 1] != ' '
    ensures IsNormal(t[a..b])
  {
    var s := t[a..b];
    forall i | 0 < i < |s| && s[i - 1] == ' '
      ensures s[i] != ' '
    {
      assert s[i - 1] == t[a + i - 1] && s[i] == t[a + i];
    }
  }

  // ---------------------------------------------------------------------------
  // normalise_whitespace
  // ---------------------------------------------------------------------------

  /** `normalise_whitespace` yields normal text: no leading or trailing space, no two
      consecutive spaces, no whitespace but the plain space. */
  lemma NormaliseIsNormal(s: string)
    ensures IsNormal(Normalise(s))
  {
    CollapseSpacing(s);
    StripIsNormal(Collapse(s));
  }

  /** Stripping text whose only whitespace is single plain spaces gives normal text. */
  lemma StripIsNormal(c: string)
    requires OnlyPlainSpaces(c) && NoDoubleSpace(c)
    ensures IsNormal(Strip(c))
  {
    StripKeepsSpacing(c);
    StripEnds(c);
  }

  /** `str.strip()` keeps single plain spaces single and plain. */
  lemma StripKeepsSpacing(c: string)
    requires OnlyPlainSpaces(c) && NoDoubleSpace(c)
    ensures OnlyPlainSpaces(Strip(c)) && NoDoubleSpace(Strip(c))
  {
    DropSpacesKeepsSpacing(c);
    DropSpacesRightKeepsSpacing(DropSpaces(c));
  }

  lemma {:induction false} DropSpacesKeepsSpacing(c: string)
    requires OnlyPlainSpaces(c) && NoDoubleSpace(c)
    ensures OnlyPlainSpaces(DropSpaces(c)) && NoDoubleSpace(DropSpaces(c))
    decreases |c|
  {
    if c != [] && IsSpace(c[0]) {
      SliceKeepsSpacing(c, 1, |c|);
      assert c[1..|c|] == c[1..];
      DropSpacesKeepsSpacing(c[1..]);
    }
  }

  lemma {:induction false} DropSpacesRightKeepsSpacing(c: string)
    requires OnlyPlainSpaces(c) && NoDoubleSpace(c)
    ensures OnlyPlainSpaces(DropSpacesRight(c)) && NoDoubleSpace(DropSpacesRight(c))
    decreases |c|
  {
    if c != [] && IsSpace(c[|c| - 1]) {
      SliceKeepsSpacing(c, 0, |c| - 1);
      assert c[0..|c| - 1] == c[..|c| - 1];
      DropSpacesRightKeepsSpacing(c[..|c| - 1]);
    }
  }

  /** `str.strip()` leaves no whitespace at either end. */
  lemma StripEnds(c: string)
    ensures Strip(c) != [] ==> !IsSpace(Strip(c)[0]) && !IsSpace(Strip(c)[|Strip(c)| - 1])
  {
    var d := DropSpaces(c);
    var r := Strip(c);
    if r != [] {
      assert r[0] == d[0];
    }
  }

  /** Any slice of text with single plain spaces only has single plain spaces only. */
  lemma SliceKeepsSpacing(c: string, a: nat, b: nat)
    requires OnlyPlainSpaces(c) && NoDoubleSpace(c) && a <= b <= |c|
    ensures OnlyPlainSpaces(c[a..b]) && NoDoubleSpace(c[a..b])
  {
    var r := c[a..b];
    forall i | 0 < i < |r|
      ensures r[i - 1] == ' ' ==> r[i] != ' '
    {
      assert r[i - 1] == c[a + i - 1] && r[i] == c[a + i];
    }
    forall i | 0 <= i < |r| && IsSpace(r[i])
      ensures r[i] == ' '
    {
      assert r[i] == c[a + i];
    }
  }

  /** Collapsing changes nothing in text that already has single plain spaces only. */
  lemma {:induction false} CollapseFixed(t: string)
    requires OnlyPlainSpaces(t) && NoDoubleSpace(t)
    ensures Collapse(t) == t
    decreases |t|
  {
    if t != [] {
      var tail := t[1..];
      assert OnlyPlainSpaces(tail) && NoDoubleSpace(tail) by {
        SliceKeepsSpacing(t, 1, |t|);
        assert t[1..|t|] == tail;
      }
      CollapseFixed(tail);
      if IsSpace(t[0]) {
        assert DropSpaces(t) == tail by {
          assert tail == [] || !IsSpace(tail[0]) by {
            if tail != [] {
              assert t[0] == ' ' && tail[0] == t[1];
            }
          }
        }
      }
      assert t == [t[0]] + tail;
    }
  }

  /** Normal text is a fixed point of `normalise_whitespace`. */
  lemma NormaliseFixed(t: string)
    requires IsNormal(t)
    ensures Normalise(t) == t
  {
    CollapseFixed(t);
    assert t != [] ==> !IsSpace(t[0]) && !IsSpace(t[|t| - 1]);
  }

  /** `normalise_whitespace` is idempotent. */
  lemma NormaliseIdempotent(s: string)
    ensures Normalise(Normalise(s)) == Normalise(s)
  {
    NormaliseIsNormal(s);
    NormaliseFixed(Normalise(s));
  }

  lemma {:induction false} NonSpacesAppend(a: string, b: string)
    ensures NonSpaces(a + b) == NonSpaces(a) + NonSpaces(b)
    decreases |a|
  {
    if a == [] {
      assert a + b == b;
    } else {
      assert (a + b)[0] == a[0] && (a + b)[1..] == a[1..] + b;
      var h := if IsSpace(a[0]) then [] else [a[0]];
      var x, y := NonSpaces(a[1..]), NonSpaces(b);
      assert h + (x + y) == (h + x) + y;
      assert NonSpaces(a + b) == h + NonSpaces(a[1..] + b);
      NonSpacesAppend(a[1..], b);
    }
  }

  lemma {:induction false} NonSpacesOfSpaces(s: string)
    requires forall i :: 0 <= i < |s| ==> IsSpace(s[i])
    ensures NonSpaces(s) == []
    decreases |s|
  {
    if s != [] {
      NonSpacesOfSpaces(s[1..]);
    }
  }

  lemma DropSpacesKeepsText(s: string)
    ensures NonSpaces(DropSpaces(s)) == NonSpaces(s)
  {
    var r := DropSpaces(s);
    var p := s[..|s| - |r|];
    assert s == p + r;
    assert NonSpaces(p) == [] by {
      assert forall i :: 0 <= i < |p| ==> p[i] == s[i];
      NonSpacesOfSpaces(p);
    }
    NonSpacesAppend(p, r);
    assert [] + NonSpaces(r) == NonSpaces(r);
  }

  lemma DropSpacesRightKeepsText(s: string)
    ensures NonSpaces(DropSpacesRight(s)) == NonSpaces(s)
  {
    var r := DropSpacesRight(s);
    var p := s[|r|..];
    assert s == r + p;
    assert NonSpaces(p) == [] by {
      DropSpacesRightDropsSpaces(s);
      assert forall i :: 0 <= i < |p| ==> p[i] == s[|r| + i];
      NonSpacesOfSpaces(p);
    }
    NonSpacesAppend(r, p);
    assert NonSpaces(r) + [] == NonSpaces(r);
  }

  lemma {:induction false} CollapseKeepsText(s: string)
    ensures NonSpaces(Collapse(s)) == NonSpaces(s)
    decreases |s|
  {
    if s != [] {
      if IsSpace(s[0]) {
        var d := DropSpaces(s);
        CollapseKeepsText(d);
        DropSpacesKeepsText(s);
        NonSpacesAppend([' '], Collapse(d));
      } else {
        CollapseKeepsText(s[1..]);
        NonSpacesAppend([s[0]], Collapse(s[1..]));
      }
    }
  }

  /** `normalise_whitespace` changes whitespace only: the other characters stay, in order. */
  lemma NormaliseKeepsText(s: string)
    ensures NonSpaces(Normalise(s)) == NonSpaces(s)
  {
    CollapseKeepsText(s);
    DropSpacesKeepsText(Collapse(s));
    DropSpacesRightKeepsText(DropSpaces(Collapse(s)));
  }

  lemma {:induction false} NonSpacesEmpty(s: string)
    ensures NonSpaces(s) == [] <==> forall i :: 0 <= i < |s| ==> IsSpace(s[i])
    decreases |s|
  {
    if s != [] {
      NonSpacesEmpty(s[1..]);
      assert forall i :: 1 <= i < |s| ==> s[i] == s[1..][i - 1];
    }
  }

  /** `normalise_whitespace` yields the empty string exactly for empty or whitespace-only text. */
  lemma NormaliseEmpty(s: string)
    ensures Normalise(s) == [] <==> forall i :: 0 <= i < |s| ==> IsSpace(s[i])
  {
    var n := Normalise(s);
    NormaliseKeepsText(s);
    NormaliseIsNormal(s);
    NonSpacesEmpty(s);
    NonSpacesEmpty(n);
    if n != [] {
      assert !IsSpace(n[0]);
    }
  }

  // ---------------------------------------------------------------------------
  // Words and sentences of normal text
  // ---------------------------------------------------------------------------

  lemma WordsSkipSpace(s: string)
    requires s != [] && IsSpace(s[0])
    ensures Words(s) == Words(s[1..])
  {
    assert DropSpaces(s) == DropSpaces(s[1..]);
  }

  lemma TakeWordNonEmpty(s: string)
    requires s != [] && !IsSpace(s[0])
    ensures TakeWord(s) != []
  {
    assert TakeWord(s) == [s[0]] + TakeWord(s[1..]);
  }

  /** Normal text is its first word, then (if anything is left) one space and normal rest. */
  lemma WordsOfNormalStep(s: string)
    requires IsNormal(s) && s != []
    ensures TakeWord(s) != []
    ensures |TakeWord(s)| == |s| ==> Words(s) == [s]
    ensures |TakeWord(s)| < |s| ==>
              && |TakeWord(s)| + 1 < |s|
              && s == TakeWord(s) + " " + s[|TakeWord(s)| + 1..]
              && IsNormal(s[|TakeWord(s)| + 1..])
              && Words(s) == [TakeWord(s)] + Words(s[|TakeWord(s)| + 1..])
  {
    assert !IsSpace(s[0]);
    var w := TakeWord(s);
    TakeWordNonEmpty(s);
    if |w| < |s| {
      var n := |w|;
      assert n + 1 < |s| && IsNormal(s[n + 1..]) && s == w + " " + s[n + 1..] by {
        SpaceInNormal(s, n);
        NormalSlice(s, n + 1, |s|);
        CutAtSpace(s, n);
      }
      assert Words(s) == [w] + Words(s[n + 1..]) by {
        WordsAfterFirst(s, w);
      }
    } else {
      assert DropSpaces(s) == s;
      assert s[|w|..] == [];
      assert w == s;
    }
  }

  /** In normal text, a whitespace character is a plain space with a non-space after it. */
  lemma SpaceInNormal(s: string, n: nat)
    requires IsNormal(s) && n < |s| && IsSpace(s[n])
    ensures s[n] == ' ' && n + 1 < |s| && s[n + 1] != ' '
  {
    assert s[|s| - 1] != ' ';
  }

  lemma CutAtSpace(s: string, n: nat)
    requires n < |s| && s[n] == ' '
    ensures s == s[..n] + " " + s[n + 1..]
  {
  }

  lemma WordsAfterFirst(s: string, w: string)
    requires s != [] && !IsSpace(s[0])
    requires w == TakeWord(s) && w != [] && |w| < |s|
    ensures Words(s) == [w] + Words(s[|w| + 1..])
  {
    assert DropSpaces(s) == s;
    assert Words(s) == [w] + Words(s[|w|..]);
    WordsSkipSpace(s[|w|..]);
    assert s[|w|..][1..] == s[|w| + 1..];
  }

  /** Splitting normal text into words and joining them back gives the text again. */
  lemma {:induction false} JoinWordsOfNormal(s: string)
    requires IsNormal(s)
    ensures Join(Words(s)) == s
    ensures s != [] ==> Words(s) != []
    decreases |s|
  {
    if s != [] {
      WordsOfNormalStep(s);
      var w := TakeWord(s);
      if |w| < |s| {
        var rest := s[|w| + 1..];
        JoinWordsOfNormal(rest);
        JoinCons(w, Words(rest));
      }
    }
  }

  /** A text is its part before position `k`, the space at `k`, and its part after. */
  lemma CutAround(t: string, k: nat)
    requires k < |t| && t[k] == ' '
    ensures t == t[..k] + " " + t[k + 1..]
  {
    assert t[k..] == " " + t[k + 1..];
    assert t == t[..k] + t[k..];
  }

  /** Every element is non-empty and normal. */
  ghost predicate NormalPieces(ss: seq<string>) {
    forall k :: 0 <= k < |ss| ==> ss[k] != [] && IsNormal(ss[k])
  }

  lemma NormalPiecesCons(s: string, ss: seq<string>)
    requires s != [] && IsNormal(s) && NormalPieces(ss)
    ensures NormalPieces([s] + ss)
  {
    var r := [s] + ss;
    forall j | 0 <= j < |r| ensures r[j] != [] && IsNormal(r[j]) {
      if j > 0 {
        assert r[j] == ss[j - 1];
      }
    }
  }

  /** Sentences of normal text are non-empty and normal, and joining them with single
      spaces gives the text back: the split loses and reorders nothing. */
  lemma {:induction false} SentencesOfNormal(t: string)
    requires IsNormal(t)
    ensures Join(Sentences(t)) == t
    ensures NormalPieces(Sentences(t))
    decreases |t|
  {
    if t != [] {
      var k := FindBoundary(t, 1);
      if k < |t| {
        var first, rest := t[..k], t[k + 1..];
        assert && first != [] && IsNormal(first) && IsNormal(rest) && t == first + " " + rest
               && k + 1 < |t| && DropSpaces(t[k..]) == rest by {
          FirstSentence(t, k);
        }
        assert Sentences(t) == [first] + Sentences(rest) by {
          SentencesAtBoundary(t, k);
        }
        SentencesOfNormal(rest);
        JoinCons(first, Sentences(rest));
        NormalPiecesCons(first, Sentences(rest));
      } else {
        assert Sentences(t) == [t];
      }
    }
  }

  /** At the first boundary `k` of a normal text, the text is its first sentence, one
      space, and the rest; both parts are normal. */
  lemma {:induction false} FirstSentence(t: string, k: nat)
    requires IsNormal(t) && t != [] && k == FindBoundary(t, 1) && k < |t|
    ensures t[..k] != [] && IsNormal(t[..k]) && IsNormal(t[k + 1..])
    ensures t == t[..k] + " " + t[k + 1..]
    ensures k + 1 < |t| && DropSpaces(t[k..]) == t[k + 1..]
  {
    BoundaryInNormal(t, k);
    NormalSlice(t, k + 1, |t|);
    NormalSlice(t, 0, k);
    CutAround(t, k);
  }

  /** In normal text a boundary is a single space with text after it. */
  lemma BoundaryInNormal(t: string, k: nat)
    requires IsNormal(t) && BoundaryAt(t, k)
    ensures t[k] == ' ' && k + 1 < |t| && t[k + 1] != ' ' && !IsSpace(t[k + 1])
    ensures DropSpaces(t[k..]) == t[k + 1..]
  {
    assert t[k] == ' ';
    assert t[k + 1] != ' ';
    assert DropSpaces(t[k..]) == DropSpaces(t[k..][1..]);
    assert t[k..][1..] == t[k + 1..];
  }

  /** The split at the first boundary, when the boundary is a single space. */
  lemma SentencesAtBoundary(t: string, k: nat)
    requires t != [] && k == FindBoundary(t, 1) && k + 1 < |t|
    requires DropSpaces(t[k..]) == t[k + 1..]
    ensures Sentences(t) == [t[..k]] + Sentences(t[k + 1..])
  {
  }

  /** Stripping normal text changes nothing. */
  lemma StripNormal(s: string)
    requires IsNormal(s)
    ensures Strip(s) == s
  {
    assert s != [] ==> !IsSpace(s[0]) && !IsSpace(s[|s| - 1]);
  }
}
