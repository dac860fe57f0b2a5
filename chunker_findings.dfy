/** Two places where smart_split (7.py:64-85) does not keep the promises a chunker
    should keep (every chunk fits and text order is kept), each shown on a concrete
    input, and a corrected chunker with those promises proved: every chunk fits in `max_length`, and the chunks join back to the
    normalised text in order whenever no single word is too long. */
module ChunkerFindings {
  import opened Text
  import opened Chunker

  // ---------------------------------------------------------------------------
  // Evaluating the chunker on small inputs
  // ---------------------------------------------------------------------------

  /** The first boundary of `t` at or after `i` is `k`. */
  lemma {:induction false} FindBoundaryIs(t: string, i: nat, k: nat)
    requires i <= k <= |t|
    requires k == |t| || BoundaryAt(t, k)
    requires forall j :: i <= j < k ==> !BoundaryAt(t, j)
    ensures FindBoundary(t, i) == k
    decreases k - i
  {
    if i < k {
      FindBoundaryIs(t, i + 1, k);
    }
  }

  /** A text with no inner boundary that ends in '.', '!' or '?', followed by whitespace, ends the first sentence. */
  lemma FirstBoundaryAfter(a: string, rest: string)
    requires a != [] && FindBoundary(a, 1) == |a| && IsTerminal(a[|a| - 1])
    requires rest != [] && IsSpace(rest[0])
    ensures FindBoundary(a + rest, 1) == |a|
    ensures (a + rest)[..|a|] == a && (a + rest)[|a|..] == rest
  {
    var t := a + rest;
    FindBoundaryFirst(a, 1);
    forall j | 1 <= j < |a| ensures !BoundaryAt(t, j) {
      assert !BoundaryAt(a, j);
      assert t[j] == a[j] && t[j - 1] == a[j - 1];
    }
    assert t[|a|] == rest[0] && t[|a| - 1] == a[|a| - 1];
    FindBoundaryIs(t, 1, |a|);
  }

  /** Dropping a single leading space. */
  lemma DropOneSpace(x: string)
    requires x != [] && !IsSpace(x[0])
    ensures DropSpaces(" " + x) == x
  {
    assert (" " + x)[1..] == x;
  }

  /** Splitting a sentence with no inner boundary, a space and more text. */
  lemma SplitAfterSentence(a: string, rest: string)
    requires a != [] && FindBoundary(a, 1) == |a| && IsTerminal(a[|a| - 1])
    requires rest != [] && !IsSpace(rest[0])
    ensures SplitAtBoundaries(a + " " + rest) == [a] + SplitAtBoundaries(rest)
  {
    assert a + " " + rest == a + (" " + rest);
    FirstBoundaryAfter(a, " " + rest);
    DropOneSpace(rest);
  }

  /** A word followed by nothing or by whitespace is the first word. */
  lemma {:induction false} TakeWordOf(a: string, rest: string)
    requires IsWord(a) && (rest == [] || IsSpace(rest[0]))
    ensures TakeWord(a + rest) == a
    decreases |a|
  {
    assert (a + rest)[0] == a[0] && (a + rest)[1..] == a[1..] + rest;
    if |a| == 1 {
      assert a[1..] + rest == rest;
    } else {
      assert IsWord(a[1..]) by {
        forall i | 0 <= i < |a[1..]| ensures !IsSpace(a[1..][i]) {
          assert a[1..][i] == a[i + 1];
        }
      }
      TakeWordOf(a[1..], rest);
      assert a == [a[0]] + a[1..];
    }
  }

  /** `str.split()` of a single word. */
  lemma WordsOfOne(w: string)
    requires IsWord(w)
    ensures Words(w) == [w]
  {
    assert w + [] == w;
    TakeWordOf(w, []);
    assert w[|w|..] == [];
  }

  /** A word and one space come off the front of `str.split()`. */
  lemma WordsAfterWord(w: string, rest: string)
    requires IsWord(w)
    ensures Words(w + " " + rest) == [w] + Words(rest)
  {
    var s := w + " " + rest;
    assert TakeWord(s) == w && s[0] == w[0] by {
      assert s == w + (" " + rest);
      TakeWordOf(w, " " + rest);
    }
    assert s[|w| + 1..] == rest;
    WordsAfterFirst(s, w);
  }

  /** `str.split()` of two words separated by one space. */
  lemma WordsOfTwo(w1: string, w2: string)
    requires IsWord(w1) && IsWord(w2)
    ensures Words(w1 + " " + w2) == [w1, w2]
  {
    assert [w1] + [w2] == [w1, w2];
    WordsAfterWord(w1, w2);
    WordsOfOne(w2);
  }

  /** Packing two words that do not fit together emits the first and buffers the second. */
  lemma PackTwoWords(w1: string, w2: string, n: nat)
    requires n >= 1 && |w1| <= n && |w1| + 1 + |w2| > n
    ensures PackWords([w1, w2], n) == Buffered([w1], [w2])
  {
    assert PackWords([w1], n) == Buffered([], [w1]) by {
      PackWordsSnoc([], w1, n);
      assert [] + [w1] == [w1];
    }
    assert |Join([w1] + [w2])| > n by {
      JoinSnoc([w1], w2);
    }
    assert PackWords([w1, w2], n) == PackWord(Buffered([], [w1]), w2, n) by {
      PackWordsSnoc([w1], w2, n);
      assert [w1] + [w2] == [w1, w2];
    }
  }

  /** split_sentence on two words that do not fit together. */
  lemma PiecesOfTwoWords(w1: string, w2: string, n: nat)
    requires n >= 1 && IsWord(w1) && IsWord(w2) && |w1| <= n && |w1| + 1 + |w2| > n
    ensures SentencePieces(w1 + " " + w2, n) == [w1, w2]
  {
    WordsOfTwo(w1, w2);
    PackTwoWords(w1, w2, n);
  }

  /** A first sentence that fits is buffered. */
  lemma PackFirstSentence(s: string, n: nat)
    requires n >= 1 && s != [] && IsNormal(s) && |s| <= n
    ensures PackSentences([s], n) == Buffered([], [s])
  {
    PackSentencesSnoc([], s, n);
    PackSentenceGreedy(Buffered([], []), s, n);
    assert [] + [s] == [s];
  }

  /** A sentence that fits alone but not behind the single buffered one flushes it. */
  lemma PackSecondSentence(e: seq<string>, x: string, s: string, ss: seq<string>, n: nat)
    requires n >= 1 && s != [] && IsNormal(s) && |s| <= n && |x| + 1 + |s| > n
    requires PackSentences(ss, n) == Buffered(e, [x])
    ensures PackSentences(ss + [s], n) == Buffered(e + [x], [s])
  {
    PackSentencesSnoc(ss, s, n);
    PackSentenceGreedy(Buffered(e, [x]), s, n);
    JoinSnoc([x], s);
  }

  /** An oversized sentence emits its pieces and leaves the buffer alone. */
  lemma PackOversizedSentence(b: Buffered, s: string, ss: seq<string>, n: nat)
    requires n >= 1 && s != [] && IsNormal(s) && |s| > n
    requires PackSentences(ss, n) == b
    ensures PackSentences(ss + [s], n) == Buffered(b.emitted + SentencePieces(s, n), b.buffer)
  {
    StripNormal(s);
    PackSentencesSnoc(ss, s, n);
  }

  /** Three sentences where the second does not fit behind the first and the third is
      oversized: the third's pieces are emitted while the second is still buffered. */
  lemma PackThreeSentences(a1: string, a2: string, a3: string, n: nat)
    requires n >= 1
    requires a1 != [] && IsNormal(a1) && |a1| <= n
    requires a2 != [] && IsNormal(a2) && |a2| <= n && |a1| + 1 + |a2| > n
    requires a3 != [] && IsNormal(a3) && |a3| > n
    ensures PackSentences([a1, a2, a3], n) == Buffered([a1] + SentencePieces(a3, n), [a2])
  {
    assert PackSentences([a1], n) == Buffered([], [a1]) by {
      PackFirstSentence(a1, n);
    }
    assert PackSentences([a1, a2], n) == Buffered([a1], [a2]) by {
      PackSecondSentence([], a1, a2, [a1], n);
      assert [a1] + [a2] == [a1, a2] && [] + [a1] == [a1];
    }
    assert [a1, a2] + [a3] == [a1, a2, a3];
    PackOversizedSentence(Buffered([a1], [a2]), a3, [a1, a2], n);
  }

  /** smart_split on three sentences packed as in `PackThreeSentences`. */
  lemma SmartChunksOfThree(text: string, a1: string, a2: string, a3: string, p1: string, p2: string, n: nat)
    requires n >= 1 && Normalise(text) == text && Sentences(text) == [a1, a2, a3]
    requires SentencePieces(a3, n) == [p1, p2]
    requires a1 != [] && IsNormal(a1) && |a1| <= n
    requires a2 != [] && IsNormal(a2) && |a2| <= n && |a1| + 1 + |a2| > n
    requires a3 != [] && IsNormal(a3) && |a3| > n
    ensures SmartChunks(text, n) == [a1, p1, p2, a2]
  {
    FlushThree(a1, a2, a3, p1, p2, n);
  }

  /** The chunks left after packing the three sentences of `PackThreeSentences`. */
  lemma FlushThree(a1: string, a2: string, a3: string, p1: string, p2: string, n: nat)
    requires n >= 1 && SentencePieces(a3, n) == [p1, p2]
    requires a1 != [] && IsNormal(a1) && |a1| <= n
    requires a2 != [] && IsNormal(a2) && |a2| <= n && |a1| + 1 + |a2| > n
    requires a3 != [] && IsNormal(a3) && |a3| > n
    ensures Flush(PackSentences([a1, a2, a3], n)) == [a1, p1, p2, a2]
  {
    var b := PackSentences([a1, a2, a3], n);
    assert b == Buffered([a1, p1, p2], [a2]) by {
      PackThreeSentences(a1, a2, a3, n);
      assert [a1] + [p1, p2] == [a1, p1, p2];
    }
    assert Join([a2]) == a2;
  }

  /** A join ends with the last character of its last part. */
  lemma JoinEndsWith(xs: seq<string>, y: string)
    requires y != []
    ensures Join(xs + [y]) != [] && Join(xs + [y])[|Join(xs + [y])| - 1] == y[|y| - 1]
  {
    if xs != [] {
      JoinSnoc(xs, y);
    } else {
      assert xs + [y] == [y];
    }
  }

  // ---------------------------------------------------------------------------
  // As written: an oversized sentence overtakes the buffered ones (7.py:73-75)
  // ---------------------------------------------------------------------------

  /** "Hello world. This is a test! Another sentence?" */
  const Example: string := "Hello world." + " " + "This is a test!" + " " + "Another sentence?"

  /** The three sentences of `Example` are normal text. */
  lemma ExampleSentencesNormal()
    ensures IsNormal("Hello world.") && IsNormal("This is a test!") && IsNormal("Another sentence?")
  {
    FirstSentenceNormal();
    SecondSentenceNormal();
    ThirdSentenceNormal();
  }

  lemma FirstSentenceNormal()
    ensures IsNormal("Hello world.")
  {
  }

  lemma SecondSentenceNormal()
    ensures IsNormal("This is a test!")
  {
  }

  lemma ThirdSentenceNormal()
    ensures IsNormal("Another sentence?")
  {
  }

  /** `Example` is normal text. */
  lemma ExampleIsNormal()
    ensures IsNormal(Example)
  {
    var a1, a2, a3 := "Hello world.", "This is a test!", "Another sentence?";
    ExampleSentencesNormal();
    NormalGlue(a1, a2);
    NormalGlue(a1 + " " + a2, a3);
  }

  /** `Example` is already normalised. */
  lemma ExampleNormal()
    ensures Normalise(Example) == Example
  {
    ExampleIsNormal();
    NormaliseFixed(Example);
  }

  /** A text with '.', '!' or '?' at most in its last place has no boundary after its
      first character. */
  lemma NoInnerBoundary(t: string)
    requires t != [] && forall j :: 0 <= j < |t| - 1 ==> !IsTerminal(t[j])
    ensures FindBoundary(t, 1) == |t|
  {
    FindBoundaryIs(t, 1, |t|);
  }

  /** No sentence of `Example` has a boundary inside it. */
  lemma FirstHasNoInnerBoundary()
    ensures FindBoundary("Hello world.", 1) == 12
  {
    NoInnerBoundary("Hello world.");
  }

  lemma SecondHasNoInnerBoundary()
    ensures FindBoundary("This is a test!", 1) == 15
  {
    NoInnerBoundary("This is a test!");
  }

  lemma ThirdHasNoInnerBoundary()
    ensures FindBoundary("Another sentence?", 1) == 17
  {
    NoInnerBoundary("Another sentence?");
  }

  /** Three sentences, each ended by '.', '!' or '?' and free of inner boundaries,
      joined by single spaces, split back into the three. */
  lemma SentencesOfThree(a1: string, a2: string, a3: string)
    requires a1 != [] && FindBoundary(a1, 1) == |a1| && IsTerminal(a1[|a1| - 1])
    requires a2 != [] && FindBoundary(a2, 1) == |a2| && IsTerminal(a2[|a2| - 1]) && !IsSpace(a2[0])
    requires a3 != [] && FindBoundary(a3, 1) == |a3| && !IsSpace(a3[0])
    ensures Sentences(a1 + " " + a2 + " " + a3) == [a1, a2, a3]
  {
    var r := a2 + " " + a3;
    assert SplitAtBoundaries(r) == [a2, a3] by {
      SplitAfterSentence(a2, a3);
      assert SplitAtBoundaries(a3) == [a3];
    }
    assert r != [] && !IsSpace(r[0]) by {
      assert r[0] == a2[0];
    }
    assert a1 + " " + a2 + " " + a3 == a1 + " " + r;
    assert SplitAtBoundaries(a1 + " " + r) == [a1] + SplitAtBoundaries(r) by {
      SplitAfterSentence(a1, r);
    }
  }

  /** The sentences of `Example`. */
  lemma ExampleSentences()
    ensures Sentences(Example) == ["Hello world.", "This is a test!", "Another sentence?"]
  {
    FirstHasNoInnerBoundary();
    SecondHasNoInnerBoundary();
    ThirdHasNoInnerBoundary();
    SentencesOfThree("Hello world.", "This is a test!", "Another sentence?");
  }

  /** The words of the third sentence. */
  lemma ExampleWords()
    ensures Words("Another sentence?") == ["Another", "sentence?"]
  {
    assert IsWord("Another");
    assert IsWord("sentence?");
    assert "Another" + " " + "sentence?" == "Another sentence?";
    WordsOfTwo("Another", "sentence?");
  }

  /** With limit 15, split_sentence cuts the third sentence into its two words. */
  lemma ExamplePieces()
    ensures SentencePieces("Another sentence?", 15) == ["Another", "sentence?"]
  {
    ExampleWords();
    PackTwoWords("Another", "sentence?", 15);
  }

  /** What smart_split returns for `Example` with limit 15. */
  lemma ExampleChunks()
    ensures SmartChunks(Example, 15) == ["Hello world.", "Another", "sentence?", "This is a test!"]
  {
    assert IsNormal("Hello world.") && IsNormal("This is a test!") && IsNormal("Another sentence?") by {
      ExampleSentencesNormal();
    }
    assert Normalise(Example) == Example by {
      ExampleNormal();
    }
    assert Sentences(Example) == ["Hello world.", "This is a test!", "Another sentence?"] by {
      ExampleSentences();
    }
    assert SentencePieces("Another sentence?", 15) == ["Another", "sentence?"] by {
      ExamplePieces();
    }
    SmartChunksOfThree(Example, "Hello world.", "This is a test!", "Another sentence?", "Another", "sentence?", 15);
  }

  /** A join whose last part ends in a different character from `t` is not `t`. */
  lemma JoinDiffersAtEnd(xs: seq<string>, y: string, t: string)
    requires y != [] && t != [] && y[|y| - 1] != t[|t| - 1]
    ensures Join(xs + [y]) != t
  {
    JoinEndsWith(xs, y);
  }

  /** The last character of a concatenation is that of its second part. */
  lemma LastOfConcat(x: string, y: string)
    requires y != []
    ensures (x + y)[|x + y| - 1] == y[|y| - 1]
  {
  }

  /** The normalised `Example` ends with '?'. */
  lemma ExampleEndsWithQuestion()
    ensures Normalise(Example) != [] && Normalise(Example)[|Normalise(Example)| - 1] == '?'
  {
    ExampleNormal();
    LastOfConcat("Hello world." + " " + "This is a test!" + " ", "Another sentence?");
  }

  /** The last chunk of `Example` with limit 15 is its second sentence. */
  lemma ExampleChunksEndWith()
    ensures SmartChunks(Example, 15) == ["Hello world.", "Another", "sentence?"] + ["This is a test!"]
  {
    ExampleChunks();
  }

  /** As written, the pieces of the oversized third sentence of `Example` come out
      before the buffered second sentence, so with limit 15 the chunks (`ExampleChunks`)
      no longer join back to the text. */
  lemma SmartSplitReorders()
    ensures Join(SmartChunks(Example, 15)) != Normalise(Example)
  {
    ExampleChunksEndWith();
    ExampleEndsWithQuestion();
    JoinDiffersAtEnd(["Hello world.", "Another", "sentence?"], "This is a test!", Normalise(Example));
  }

  // ---------------------------------------------------------------------------
  // As written: a long word behind a buffered word is not hard-split (7.py:54-60)
  // ---------------------------------------------------------------------------

  /** As written, split_sentence emits the word "abcdef" whole although it is longer
      than the limit 3, because a shorter word was buffered before it. */
  lemma SplitSentenceOverlong()
    ensures SentencePieces("ab abcdef", 3) == ["ab", "abcdef"]
    ensures |SentencePieces("ab abcdef", 3)[1]| > 3
  {
    assert "ab" + " " + "abcdef" == "ab abcdef";
    assert IsWord("ab") && IsWord("abcdef");
    PiecesOfTwoWords("ab", "abcdef", 3);
  }

  // ---------------------------------------------------------------------------
  // Corrected chunker
  // ---------------------------------------------------------------------------

  /** split_sentence's step with a long word hard-split whether or not words were
      buffered before it. */
  function PackWordFixed(b: Buffered, word: string, n: nat): Buffered
    requires n >= 1
  {
    var candidate := if b.buffer != [] then Join(b.buffer + [word]) else word;
    if |candidate| <= n then Buffered(b.emitted, b.buffer + [word])
    else if |word| <= n then Buffered(Flush(b), [word])
    else Buffered(Flush(b) + Slices(word, n), [])
  }

  function PackWordsFixed(words: seq<string>, n: nat): Buffered
    requires n >= 1
  {
    if words == [] then Buffered([], [])
    else PackWordFixed(PackWordsFixed(words[..|words| - 1], n), words[|words| - 1], n)
  }

  function SentencePiecesFixed(sentence: string, n: nat): seq<string>
    requires n >= 1
  {
    Flush(PackWordsFixed(Words(sentence), n))
  }

  /** smart_split's step with the sentence buffer flushed before an oversized
      sentence's pieces are emitted. */
  function PackSentenceFixed(b: Buffered, sentence: string, n: nat): Buffered
    requires n >= 1
  {
    var s := Strip(sentence);
    if s == [] then b
    else if |s| > n then Buffered(Flush(b) + SentencePiecesFixed(s, n), [])
    else Greedy(b, s, n)
  }

  function PackSentencesFixed(sentences: seq<string>, n: nat): Buffered
    requires n >= 1
  {
    if sentences == [] then Buffered([], [])
    else PackSentenceFixed(PackSentencesFixed(sentences[..|sentences| - 1], n), sentences[|sentences| - 1], n)
  }

  /** The corrected smart_split. */
  function SmartChunksFixed(text: string, n: nat): seq<string>
    requires n >= 1
  {
    Flush(PackSentencesFixed(Sentences(Normalise(text)), n))
  }

  /** The fix changes nothing where no sentence is longer than the limit. */
  lemma {:induction false} FixedAgreesOnShortSentences(sentences: seq<string>, n: nat)
    requires n >= 1
    requires forall k :: 0 <= k < |sentences| ==> |Strip(sentences[k])| <= n
    ensures PackSentencesFixed(sentences, n) == PackSentences(sentences, n)
  {
    if sentences != [] {
      FixedAgreesOnShortSentences(sentences[..|sentences| - 1], n);
    }
  }

  /** Non-empty normal text that fits in `n` characters. */
  ghost predicate Fits(c: string, n: nat) {
    c != [] && IsNormal(c) && |c| <= n
  }

  /** The invariant of both corrected loops: everything emitted fits, and the buffer
      holds non-empty normal parts whose join fits. */
  ghost predicate FitPacked(b: Buffered, n: nat) {
    && (forall k :: 0 <= k < |b.emitted| ==> Fits(b.emitted[k], n))
    && (forall k :: 0 <= k < |b.buffer| ==> b.buffer[k] != [] && IsNormal(b.buffer[k]))
    && (b.buffer != [] ==> |Join(b.buffer)| <= n)
  }

  lemma FlushFits(b: Buffered, n: nat)
    requires FitPacked(b, n)
    ensures forall k :: 0 <= k < |Flush(b)| ==> Fits(Flush(b)[k], n)
  {
    if b.buffer != [] {
      JoinNormal(b.buffer);
    }
  }

  lemma AppendFits(b: Buffered, x: string, n: nat)
    requires FitPacked(b, n) && x != [] && IsNormal(x) && |Join(b.buffer + [x])| <= n
    ensures FitPacked(Buffered(b.emitted, b.buffer + [x]), n)
  {
  }

  lemma GreedyFits(b: Buffered, x: string, n: nat)
    requires FitPacked(b, n) && x != [] && IsNormal(x) && |x| <= n
    ensures FitPacked(Greedy(b, x, n), n)
  {
    var candidate := if b.buffer != [] then Join(b.buffer + [x]) else x;
    if |candidate| <= n {
      if b.buffer == [] {
        assert b.buffer + [x] == [x];
      }
      AppendFits(b, x, n);
    } else {
      FlushFits(b, n);
    }
  }

  lemma PackWordFixedFits(b: Buffered, word: string, n: nat)
    requires n >= 1 && FitPacked(b, n) && IsWord(word)
    ensures FitPacked(PackWordFixed(b, word, n), n)
  {
    WordIsNormal(word);
    if |word| <= n {
      GreedyFits(b, word, n);
    } else {
      var candidate := if b.buffer != [] then Join(b.buffer + [word]) else word;
      if |candidate| <= n {
        AppendFits(b, word, n);
      } else {
        FlushFits(b, n);
        SlicesOfWord(word, n);
        forall k | 0 <= k < |Slices(word, n)| ensures Fits(Slices(word, n)[k], n) {
          WordIsNormal(Slices(word, n)[k]);
        }
      }
    }
  }

  lemma {:induction false} PackWordsFixedFits(words: seq<string>, n: nat)
    requires n >= 1
    requires forall k :: 0 <= k < |words| ==> IsWord(words[k])
    ensures FitPacked(PackWordsFixed(words, n), n)
  {
    if words != [] {
      PackWordsFixedFits(words[..|words| - 1], n);
      PackWordFixedFits(PackWordsFixed(words[..|words| - 1], n), words[|words| - 1], n);
    }
  }

  /** Every piece of the corrected split_sentence is non-empty normal text of at most
      `n` characters. */
  lemma SentencePiecesFixedFit(sentence: string, n: nat)
    requires n >= 1
    ensures forall k :: 0 <= k < |SentencePiecesFixed(sentence, n)| ==> Fits(SentencePiecesFixed(sentence, n)[k], n)
  {
    WordsAreWords(sentence);
    PackWordsFixedFits(Words(sentence), n);
    FlushFits(PackWordsFixed(Words(sentence), n), n);
  }

  lemma PackSentenceFixedFits(b: Buffered, sentence: string, n: nat)
    requires n >= 1 && FitPacked(b, n) && IsNormal(sentence)
    ensures FitPacked(PackSentenceFixed(b, sentence, n), n)
  {
    StripNormal(sentence);
    if sentence == [] {
    } else if |sentence| > n {
      FlushFits(b, n);
      SentencePiecesFixedFit(sentence, n);
    } else {
      GreedyFits(b, sentence, n);
    }
  }

  lemma {:induction false} PackSentencesFixedFits(sentences: seq<string>, n: nat)
    requires n >= 1
    requires forall k :: 0 <= k < |sentences| ==> IsNormal(sentences[k])
    ensures FitPacked(PackSentencesFixed(sentences, n), n)
  {
    if sentences != [] {
      PackSentencesFixedFits(sentences[..|sentences| - 1], n);
      PackSentenceFixedFits(PackSentencesFixed(sentences[..|sentences| - 1], n), sentences[|sentences| - 1], n);
    }
  }

  /** Every chunk of the corrected smart_split is non-empty normal text of at most `n`
      characters. */
  lemma SmartChunksFixedFit(text: string, n: nat)
    requires n >= 1
    ensures forall k :: 0 <= k < |SmartChunksFixed(text, n)| ==> Fits(SmartChunksFixed(text, n)[k], n)
  {
    var t := Normalise(text);
    NormaliseIsNormal(text);
    SentencesOfNormal(t);
    PackSentencesFixedFits(Sentences(t), n);
    FlushFits(PackSentencesFixed(Sentences(t), n), n);
  }

  /** No word of `s` is longer than `n`. */
  ghost predicate ShortWords(s: string, n: nat) {
    forall k :: 0 <= k < |Words(s)| ==> |Words(s)[k]| <= n
  }

  /** A word that fits on its own is packed greedily by the corrected step too. */
  lemma PackWordFixedGreedy(b: Buffered, word: string, n: nat)
    requires n >= 1 && |word| <= n
    ensures PackWordFixed(b, word, n) == Greedy(b, word, n)
  {
  }

  lemma {:induction false} PackWordsFixedFaithful(words: seq<string>, n: nat)
    requires n >= 1
    requires forall k :: 0 <= k < |words| ==> |words[k]| <= n
    ensures Faithful(PackWordsFixed(words, n), words)
  {
    if words != [] {
      var init, last := words[..|words| - 1], words[|words| - 1];
      assert init + [last] == words;
      var b := PackWordsFixed(init, n);
      assert Faithful(b, init) by {
        PackWordsFixedFaithful(init, n);
      }
      assert PackWordFixed(b, last, n) == Greedy(b, last, n) by {
        PackWordFixedGreedy(b, last, n);
      }
      GreedyFaithful(b, init, last, n);
    }
  }

  /** The corrected split_sentence loses nothing when no word is too long. */
  lemma SentencePiecesFixedRoundTrip(sentence: string, n: nat)
    requires n >= 1 && sentence != [] && IsNormal(sentence) && ShortWords(sentence, n)
    ensures Join(SentencePiecesFixed(sentence, n)) == sentence
    ensures SentencePiecesFixed(sentence, n) != []
  {
    PackWordsFixedFaithful(Words(sentence), n);
    JoinWordsOfNormal(sentence);
  }

  lemma PackSentenceFixedFaithful(b: Buffered, xs: seq<string>, sentence: string, n: nat)
    requires n >= 1 && Faithful(b, xs)
    requires sentence != [] && IsNormal(sentence) && ShortWords(sentence, n)
    ensures Faithful(PackSentenceFixed(b, sentence, n), xs + [sentence])
  {
    StripNormal(sentence);
    if |sentence| > n {
      var pieces := SentencePiecesFixed(sentence, n);
      SentencePiecesFixedRoundTrip(sentence, n);
      assert Flush(PackSentenceFixed(b, sentence, n)) == Flush(b) + pieces;
      if xs == [] {
        assert Flush(b) + pieces == pieces && xs + [sentence] == [sentence];
      } else {
        JoinAppend(Flush(b), pieces);
        JoinSnoc(xs, sentence);
      }
    } else {
      GreedyFaithful(b, xs, sentence, n);
    }
  }

  lemma {:induction false} PackSentencesFixedFaithful(sentences: seq<string>, n: nat)
    requires n >= 1
    requires forall k :: 0 <= k < |sentences| ==>
      sentences[k] != [] && IsNormal(sentences[k]) && ShortWords(sentences[k], n)
    ensures Faithful(PackSentencesFixed(sentences, n), sentences)
  {
    if sentences != [] {
      var init, last := sentences[..|sentences| - 1], sentences[|sentences| - 1];
      assert init + [last] == sentences;
      var b := PackSentencesFixed(init, n);
      assert Faithful(b, init) by {
        PackSentencesFixedFaithful(init, n);
      }
      assert last != [] && IsNormal(last) && ShortWords(last, n);
      assert Faithful(PackSentenceFixed(b, last, n), init + [last]) by {
        PackSentenceFixedFaithful(b, init, last, n);
      }
      assert PackSentencesFixed(sentences, n) == PackSentenceFixed(b, last, n);
    }
  }

  /** The corrected smart_split loses and reorders nothing: when no word of any sentence
      is longer than `n`, its chunks joined with single spaces are the normalised text. */
  lemma SmartChunksFixedRoundTrip(text: string, n: nat)
    requires n >= 1
    requires forall k :: 0 <= k < |Sentences(Normalise(text))| ==> ShortWords(Sentences(Normalise(text))[k], n)
    ensures Join(SmartChunksFixed(text, n)) == Normalise(text)
  {
    var t := Normalise(text);
    NormaliseIsNormal(text);
    SentencesOfNormal(t);
    PackSentencesFixedFaithful(Sentences(t), n);
  }
}
