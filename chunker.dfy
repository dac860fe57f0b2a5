/** The text chunker of 7.py: `split_sentence` (7.py:46-62) and `smart_split`
    (7.py:64-85). Both loops are modelled as methods proved against a left fold of
    one loop iteration over the words (respectively sentences) seen so far. */
module Chunker {
  import opened Text

  /** The slices `word[start : start + n]` for `start` in `range(0, len(word), n)` (7.py:58-59). */
  function Slices(word: string, n: nat): seq<string>
    requires n >= 1
    decreases |word|
  {
    if word == [] then [] else if |word| <= n then [word] else [word[..n]] + Slices(word[n..], n)
  }

  /** Concatenation without separators. */
  function Concat(ss: seq<string>): string {
    if ss == [] then [] else ss[0] + Concat(ss[1..])
  }

  /** The loop state shared by both chunkers: what has been emitted so far, and the
      buffer of parts still to be joined (`chunk` in split_sentence, `current` in smart_split). */
  datatype Buffered = Buffered(emitted: seq<string>, buffer: seq<string>)

  /** Emitting what is left in the buffer (7.py:61-62, 80-81, 83-84). */
  function Flush(b: Buffered): seq<string> {
    b.emitted + (if b.buffer != [] then [Join(b.buffer)] else [])
  }

  /** One iteration of split_sentence's loop over words (7.py:50-60). */
  function PackWord(b: Buffered, word: string, n: nat): Buffered
    requires n >= 1
  {
    var candidate := if b.buffer != [] then Join(b.buffer + [word]) else word;
    if |candidate| <= n then Buffered(b.emitted, b.buffer + [word])
    else if b.buffer != [] then Buffered(b.emitted + [Join(b.buffer)], [word])
    else Buffered(b.emitted + Slices(word, n), [])
  }

  /** The state of split_sentence's loop after the given words. */
  function PackWords(words: seq<string>, n: nat): Buffered
    requires n >= 1
  {
    if words == [] then Buffered([], [])
    else PackWord(PackWords(words[..|words| - 1], n), words[|words| - 1], n)
  }

  /** Everything `split_sentence(sentence, n)` yields, in order. */
  function SentencePieces(sentence: string, n: nat): seq<string>
    requires n >= 1
  {
    Flush(PackWords(Words(sentence), n))
  }

  /** One iteration of smart_split's loop over sentences (7.py:70-82). */
  function PackSentence(b: Buffered, sentence: string, n: nat): Buffered
    requires n >= 1
  {
    var s := Strip(sentence);
    if s == [] then b
    else if |s| > n then Buffered(b.emitted + SentencePieces(s, n), b.buffer)
    else
      var prospective := if b.buffer != [] then Join(b.buffer + [s]) else s;
      if |prospective| <= n then Buffered(b.emitted, b.buffer + [s])
      else Buffered(Flush(b), [s])
  }

  /** The state of smart_split's loop after the given sentences. */
  function PackSentences(sentences: seq<string>, n: nat): Buffered
    requires n >= 1
  {
    if sentences == [] then Buffered([], [])
    else PackSentence(PackSentences(sentences[..|sentences| - 1], n), sentences[|sentences| - 1], n)
  }

  /** What `smart_split(text, n)` returns. */
  function SmartChunks(text: string, n: nat): seq<string>
    requires n >= 1
  {
    Flush(PackSentences(Sentences(Normalise(text)), n))
  }

  /** `split_sentence` (7.py:46-62). */
  method SplitSentence(sentence: string, maxLength: nat) returns (pieces: seq<string>)
    requires maxLength >= 1
    ensures pieces == SentencePieces(sentence, maxLength)
  {
    var words := Words(sentence);
    var chunk: seq<string> := [];
    pieces := [];
    var i := 0;
    while i < |words|
      invariant 0 <= i <= |words|
      invariant Buffered(pieces, chunk) == PackWords(words[..i], maxLength)
    {
      pieces, chunk := SplitStepAt(pieces, chunk, words, i, maxLength);
      i := i + 1;
    }
    assert words[..i] == words;
    if chunk != [] {
      pieces := pieces + [Join(chunk)];
    }
  }

  /** The body of split_sentence's loop for the word at `i` (7.py:50-60), as a step of
      the fold. */
  method SplitStepAt(pieces: seq<string>, chunk: seq<string>, words: seq<string>, i: nat, maxLength: nat)
    returns (pieces': seq<string>, chunk': seq<string>)
    requires maxLength >= 1 && i < |words|
    requires Buffered(pieces, chunk) == PackWords(words[..i], maxLength)
    ensures Buffered(pieces', chunk') == PackWords(words[..i + 1], maxLength)
  {
    var word := words[i];
    assert words[..i + 1][..i] == words[..i];
    var candidate := if chunk != [] then Join(chunk + [word]) else word;
    if |candidate| <= maxLength {
      pieces', chunk' := pieces, chunk + [word];
    } else if chunk != [] {
      pieces', chunk' := pieces + [Join(chunk)], [word];
    } else {
      pieces' := HardSplit(pieces, word, maxLength);
      chunk' := [];
    }
  }

  /** The inner `for start in range(0, len(word), max_length)` loop of split_sentence
      (7.py:58-59), appending the slices to what was emitted before. */
  method HardSplit(before: seq<string>, word: string, maxLength: nat) returns (pieces: seq<string>)
    requires maxLength >= 1
    ensures pieces == before + Slices(word, maxLength)
  {
    pieces := before;
    var start := 0;
    while start < |word|
      invariant 0 <= start <= |word|
      invariant pieces + Slices(word[start..], maxLength) == before + Slices(word, maxLength)
    {
      var stop := if start + maxLength < |word| then start + maxLength else |word|;
      var rest := word[start..];
      if |rest| > maxLength {
        assert rest[..maxLength] == word[start..stop] && rest[maxLength..] == word[stop..];
      } else {
        assert stop == |word| && rest == word[start..stop] && word[stop..] == [];
      }
      pieces := pieces + [word[start..stop]];
      start := stop;
    }
    assert word[start..] == [];
  }

  /** `smart_split` (7.py:64-85): normalise, split into sentences, pack them. */
  method SmartSplit(text: string, maxLength: nat) returns (chunks: seq<string>)
    requires maxLength >= 1
    ensures chunks == SmartChunks(text, maxLength)
  {
    var normal := Normalise(text);
    var sentences := Sentences(normal);
    chunks := PackAll(sentences, maxLength);
  }

  /** smart_split's loop over the sentences and the final flush (7.py:67-85). */
  method PackAll(sentences: seq<string>, maxLength: nat) returns (chunks: seq<string>)
    requires maxLength >= 1
    ensures chunks == Flush(PackSentences(sentences, maxLength))
  {
    chunks := [];
    var current: seq<string> := [];
    var i := 0;
    PackSentencesStart(sentences, maxLength);
    while i < |sentences|
      invariant 0 <= i <= |sentences|
      invariant Buffered(chunks, current) == PackSentences(sentences[..i], maxLength)
    {
      chunks, current := SmartStepAt(chunks, current, sentences, i, maxLength);
      i := i + 1;
    }
    assert sentences[..i] == sentences;
    if current != [] {
      chunks := chunks + [Join(current)];
    }
  }

  /** smart_split's loop body on the sentence at `i`, as a step of the fold. */
  method SmartStepAt(chunks: seq<string>, current: seq<string>, sentences: seq<string>, i: nat, maxLength: nat)
    returns (chunks': seq<string>, current': seq<string>)
    requires maxLength >= 1 && i < |sentences|
    requires Buffered(chunks, current) == PackSentences(sentences[..i], maxLength)
    ensures Buffered(chunks', current') == PackSentences(sentences[..i + 1], maxLength)
  {
    PackSentencesStep(sentences, i, maxLength);
    chunks', current' := SmartStep(chunks, current, sentences[i], maxLength);
  }

  /** The fold over no sentence. */
  lemma PackSentencesStart(sentences: seq<string>, n: nat)
    requires n >= 1
    ensures PackSentences(sentences[..0], n) == Buffered([], [])
  {
    assert sentences[..0] == [];
  }

  /** The fold over the first `i + 1` sentences takes one step from the first `i`. */
  lemma PackSentencesStep(sentences: seq<string>, i: nat, n: nat)
    requires n >= 1 && i < |sentences|
    ensures PackSentences(sentences[..i + 1], n) == PackSentence(PackSentences(sentences[..i], n), sentences[i], n)
  {
    assert sentences[..i + 1][..i] == sentences[..i];
  }

  /** Unfolding the fold over words by its last word. */
  lemma PackWordsSnoc(words: seq<string>, word: string, n: nat)
    requires n >= 1
    ensures PackWords(words + [word], n) == PackWord(PackWords(words, n), word, n)
  {
    assert (words + [word])[..|words|] == words;
  }

  /** Unfolding the fold over sentences by its last sentence. */
  lemma PackSentencesSnoc(sentences: seq<string>, sentence: string, n: nat)
    requires n >= 1
    ensures PackSentences(sentences + [sentence], n) == PackSentence(PackSentences(sentences, n), sentence, n)
  {
    assert (sentences + [sentence])[..|sentences|] == sentences;
  }

  /** The body of smart_split's loop for one sentence (7.py:70-82). */
  method SmartStep(chunks: seq<string>, current: seq<string>, sentence: string, maxLength: nat)
    returns (chunks': seq<string>, current': seq<string>)
    requires maxLength >= 1
    ensures Buffered(chunks', current') == PackSentence(Buffered(chunks, current), sentence, maxLength)
  {
    chunks', current' := chunks, current;
    var s := Strip(sentence);
    if s == [] {
      return;
    }
    if |s| > maxLength {
      var pieces := SplitSentence(s, maxLength);
      chunks' := chunks' + pieces;
      return;
    }
    var prospective := if current' != [] then Join(current' + [s]) else s;
    if |prospective| <= maxLength {
      current' := current' + [s];
      return;
    }
    if current' != [] {
      chunks' := chunks' + [Join(current')];
    }
    current' := [s];
  }

  // ---------------------------------------------------------------------------
  // Shape of the pieces
  // ---------------------------------------------------------------------------

  /** A chunk as the chunker emits it: non-empty normal text that fits in `n`
      characters, or a single word too long to fit. */
  ghost predicate IsChunk(c: string, n: nat) {
    c != [] && IsNormal(c) && (|c| <= n || IsWord(c))
  }

  /** The hard split of a word: non-empty slices that concatenate back to the word,
      every one but the last exactly `n` characters long, each still a word. */
  lemma {:induction false} SlicesOfWord(word: string, n: nat)
    requires n >= 1
    ensures Concat(Slices(word, n)) == word
    ensures forall k :: 0 <= k < |Slices(word, n)| ==> Slices(word, n)[k] != [] && |Slices(word, n)[k]| <= n
    ensures forall k :: 0 <= k < |Slices(word, n)| - 1 ==> |Slices(word, n)[k]| == n
    ensures IsWord(word) ==> forall k :: 0 <= k < |Slices(word, n)| ==> IsWord(Slices(word, n)[k])
    decreases |word|
  {
    if word == [] {
    } else if |word| <= n {
      assert Concat([word]) == word + Concat([]);
    } else {
      var rest := word[n..];
      SlicesOfWord(rest, n);
      var s := Slices(word, n);
      assert s == [word[..n]] + Slices(rest, n);
      assert s[1..] == Slices(rest, n);
      assert word == word[..n] + rest;
      if IsWord(word) {
        assert IsWord(word[..n]);
        assert IsWord(rest) by {
          forall i | 0 <= i < |rest| ensures !IsSpace(rest[i]) {
            assert rest[i] == word[n + i];
          }
        }
      }
    }
  }

  /** A word is normal text. */
  lemma WordIsNormal(w: string)
    requires IsWord(w)
    ensures IsNormal(w)
  {
  }

  /** The invariant of split_sentence's loop: emitted pieces are chunks, the buffer holds
      words, and a buffer of several words fits. */
  ghost predicate WordsPacked(b: Buffered, n: nat) {
    && (forall k :: 0 <= k < |b.emitted| ==> IsChunk(b.emitted[k], n))
    && (forall k :: 0 <= k < |b.buffer| ==> IsWord(b.buffer[k]))
    && (|b.buffer| > 1 ==> |Join(b.buffer)| <= n)
  }

  /** Joining a buffer that satisfies `WordsPacked` gives a chunk. */
  lemma JoinedWordsChunk(b: Buffered, n: nat)
    requires WordsPacked(b, n) && b.buffer != []
    ensures IsChunk(Join(b.buffer), n)
  {
    forall k | 0 <= k < |b.buffer| ensures b.buffer[k] != [] && IsNormal(b.buffer[k]) {
      WordIsNormal(b.buffer[k]);
    }
    JoinNormal(b.buffer);
    if |b.buffer| == 1 {
      assert Join(b.buffer) == b.buffer[0];
    }
  }

  lemma PackWordKeeps(b: Buffered, word: string, n: nat)
    requires n >= 1 && WordsPacked(b, n) && IsWord(word)
    ensures WordsPacked(PackWord(b, word, n), n)
  {
    var candidate := if b.buffer != [] then Join(b.buffer + [word]) else word;
    if |candidate| <= n {
      if b.buffer == [] {
        assert b.buffer + [word] == [word];
      }
    } else if b.buffer != [] {
      JoinedWordsChunk(b, n);
    } else {
      SlicesOfWord(word, n);
      forall k | 0 <= k < |Slices(word, n)| ensures IsChunk(Slices(word, n)[k], n) {
        WordIsNormal(Slices(word, n)[k]);
      }
    }
  }

  lemma {:induction false} PackWordsKeeps(words: seq<string>, n: nat)
    requires n >= 1
    requires forall k :: 0 <= k < |words| ==> IsWord(words[k])
    ensures WordsPacked(PackWords(words, n), n)
  {
    if words != [] {
      PackWordsKeeps(words[..|words| - 1], n);
      PackWordKeeps(PackWords(words[..|words| - 1], n), words[|words| - 1], n);
    }
  }

  /** Every piece split_sentence yields is non-empty normal text that fits in `n`
      characters or is a single word (quirk: a long word behind a buffered word is not
      hard-split). */
  lemma SentencePiecesAreChunks(sentence: string, n: nat)
    requires n >= 1
    ensures forall k :: 0 <= k < |SentencePieces(sentence, n)| ==> IsChunk(SentencePieces(sentence, n)[k], n)
  {
    var b := PackWords(Words(sentence), n);
    WordsAreWords(sentence);
    PackWordsKeeps(Words(sentence), n);
    if b.buffer != [] {
      JoinedWordsChunk(b, n);
    }
  }

  /** The invariant of smart_split's loop: emitted pieces are chunks, and the buffer holds
      non-empty normal sentences whose join fits. */
  ghost predicate SentencesPacked(b: Buffered, n: nat) {
    && (forall k :: 0 <= k < |b.emitted| ==> IsChunk(b.emitted[k], n))
    && (forall k :: 0 <= k < |b.buffer| ==> b.buffer[k] != [] && IsNormal(b.buffer[k]))
    && (b.buffer != [] ==> |Join(b.buffer)| <= n)
  }

  /** Joining a buffer that satisfies `SentencesPacked` gives a chunk that fits. */
  lemma JoinedSentencesChunk(b: Buffered, n: nat)
    requires SentencesPacked(b, n) && b.buffer != []
    ensures IsChunk(Join(b.buffer), n) && |Join(b.buffer)| <= n
  {
    JoinNormal(b.buffer);
  }

  lemma PackSentenceKeeps(b: Buffered, sentence: string, n: nat)
    requires n >= 1 && SentencesPacked(b, n) && IsNormal(sentence)
    ensures SentencesPacked(PackSentence(b, sentence, n), n)
  {
    StripNormal(sentence);
    var s := sentence;
    if s == [] {
    } else if |s| > n {
      assert SentencesPacked(Buffered(b.emitted + SentencePieces(s, n), b.buffer), n) by {
        SentencePiecesAreChunks(s, n);
      }
    } else {
      var prospective := if b.buffer != [] then Join(b.buffer + [s]) else s;
      if |prospective| <= n {
        assert |Join(b.buffer + [s])| <= n by {
          if b.buffer == [] {
            assert b.buffer + [s] == [s];
          }
        }
        AppendSentenceKeeps(b, s, n);
      } else {
        FlushSentenceKeeps(b, s, n);
      }
    }
  }

  lemma AppendSentenceKeeps(b: Buffered, s: string, n: nat)
    requires SentencesPacked(b, n) && s != [] && IsNormal(s) && |Join(b.buffer + [s])| <= n
    ensures SentencesPacked(Buffered(b.emitted, b.buffer + [s]), n)
  {
  }

  lemma FlushSentenceKeeps(b: Buffered, s: string, n: nat)
    requires SentencesPacked(b, n) && s != [] && IsNormal(s) && |s| <= n
    ensures SentencesPacked(Buffered(Flush(b), [s]), n)
  {
    if b.buffer != [] {
      JoinedSentencesChunk(b, n);
    }
  }

  lemma {:induction false} PackSentencesKeeps(sentences: seq<string>, n: nat)
    requires n >= 1
    requires forall k :: 0 <= k < |sentences| ==> IsNormal(sentences[k])
    ensures SentencesPacked(PackSentences(sentences, n), n)
  {
    if sentences != [] {
      PackSentencesKeeps(sentences[..|sentences| - 1], n);
      PackSentenceKeeps(PackSentences(sentences[..|sentences| - 1], n), sentences[|sentences| - 1], n);
    }
  }

  /** Every chunk smart_split returns is non-empty normal text, at most `n` characters
      long unless it is a single over-long word; the chunks built from the sentence
      buffer always fit, so a chunk longer than `n` is one of the pieces
      split_sentence cut from a sentence that was itself longer than `n`. */
  lemma SmartChunksAreChunks(text: string, n: nat)
    requires n >= 1
    ensures forall k :: 0 <= k < |SmartChunks(text, n)| ==> IsChunk(SmartChunks(text, n)[k], n)
    ensures var chunks, sentences := SmartChunks(text, n), Sentences(Normalise(text));
      forall k :: 0 <= k < |chunks| && |chunks[k]| > n ==>
        exists j :: 0 <= j < |sentences| && |sentences[j]| > n && chunks[k] in SentencePieces(sentences[j], n)
  {
    var t := Normalise(text);
    assert NormalPieces(Sentences(t)) by {
      NormaliseIsNormal(text);
      SentencesOfNormal(t);
    }
    FlushedSentencesAreChunks(Sentences(t), n);
    PackSentencesOverlong(Sentences(t), n);
    var b := PackSentences(Sentences(t), n);
    if b.buffer != [] {
      LongOnlyFromFits(b.emitted, OverlongPieces(Sentences(t), n), Join(b.buffer), n);
    }
    OverlongChunksFrom(Flush(b), Sentences(t), n);
  }

  /** The pieces split_sentence cuts from those of `sentences` that are longer than
      `n` once stripped, in order. */
  function OverlongPieces(sentences: seq<string>, n: nat): seq<string>
    requires n >= 1
  {
    if sentences == [] then []
    else
      var s := Strip(sentences[|sentences| - 1]);
      OverlongPieces(sentences[..|sentences| - 1], n) + (if |s| > n then SentencePieces(s, n) else [])
  }

  /** Every chunk of `chunks` longer than `n` is one of `pool`. */
  ghost predicate LongOnlyFrom(chunks: seq<string>, pool: seq<string>, n: nat) {
    forall k :: 0 <= k < |chunks| && |chunks[k]| > n ==> chunks[k] in pool
  }

  /** Every chunk of `chunks` longer than `n` is one of `OverlongPieces(sentences, n)`. */
  ghost predicate OverlongFromPieces(chunks: seq<string>, sentences: seq<string>, n: nat)
    requires n >= 1
  {
    LongOnlyFrom(chunks, OverlongPieces(sentences, n), n)
  }

  /** A piece in `OverlongPieces` was cut by split_sentence from one of the sentences,
      and that sentence was longer than `n`. */
  lemma {:induction false} OverlongPiecesFrom(sentences: seq<string>, n: nat, x: string)
    requires n >= 1 && x in OverlongPieces(sentences, n)
    ensures exists j :: 0 <= j < |sentences| && |Strip(sentences[j])| > n && x in SentencePieces(Strip(sentences[j]), n)
  {
    var m := |sentences| - 1;
    var init, s := sentences[..m], Strip(sentences[m]);
    var pool, extra := OverlongPieces(init, n), if |s| > n then SentencePieces(s, n) else [];
    assert OverlongPieces(sentences, n) == pool + extra;
    if x in pool {
      OverlongPiecesFrom(init, n, x);
      var j :| 0 <= j < |init| && |Strip(init[j])| > n && x in SentencePieces(Strip(init[j]), n);
      assert init[j] == sentences[j];
    } else {
      assert x in extra;
      assert |Strip(sentences[m])| > n && x in SentencePieces(Strip(sentences[m]), n);
    }
  }

  /** For stripped sentences, a chunk longer than `n` drawn from `OverlongPieces` is a
      piece of a sentence longer than `n`. */
  lemma OverlongChunksFrom(chunks: seq<string>, sentences: seq<string>, n: nat)
    requires n >= 1 && NormalPieces(sentences) && OverlongFromPieces(chunks, sentences, n)
    ensures forall k :: 0 <= k < |chunks| && |chunks[k]| > n ==>
      exists j :: 0 <= j < |sentences| && |sentences[j]| > n && chunks[k] in SentencePieces(sentences[j], n)
  {
    forall k | 0 <= k < |chunks| && |chunks[k]| > n
      ensures exists j :: 0 <= j < |sentences| && |sentences[j]| > n && chunks[k] in SentencePieces(sentences[j], n)
    {
      OverlongPiecesFrom(sentences, n, chunks[k]);
      var j :| 0 <= j < |sentences| && |Strip(sentences[j])| > n && chunks[k] in SentencePieces(Strip(sentences[j]), n);
      StripNormal(sentences[j]);
    }
  }

  /** Over-long chunks are emitted only as pieces of over-long sentences, and the
      buffer always fits. */
  lemma {:induction false} PackSentencesOverlong(sentences: seq<string>, n: nat)
    requires n >= 1
    ensures var b := PackSentences(sentences, n);
      OverlongFromPieces(b.emitted, sentences, n) && (b.buffer != [] ==> |Join(b.buffer)| <= n)
  {
    if sentences != [] {
      var init := sentences[..|sentences| - 1];
      PackSentencesOverlong(init, n);
      PackLastOverlong(PackSentences(init, n), sentences, n);
    }
  }

  /** The last step of smart_split's loop over `sentences`: the chunks it emits are the
      sentence's pieces when it is over-long, and otherwise the buffer, which fits. */
  lemma PackLastOverlong(b: Buffered, sentences: seq<string>, n: nat)
    requires n >= 1 && sentences != []
    requires OverlongFromPieces(b.emitted, sentences[..|sentences| - 1], n)
    requires b.buffer != [] ==> |Join(b.buffer)| <= n
    ensures var b' := PackSentence(b, sentences[|sentences| - 1], n);
      OverlongFromPieces(b'.emitted, sentences, n) && (b'.buffer != [] ==> |Join(b'.buffer)| <= n)
  {
    var init, s := sentences[..|sentences| - 1], Strip(sentences[|sentences| - 1]);
    var pool, extra := OverlongPieces(init, n), if |s| > n then SentencePieces(s, n) else [];
    assert OverlongPieces(sentences, n) == pool + extra;
    PackSentenceFromPool(b, sentences[|sentences| - 1], pool, n);
  }

  /** One step of smart_split's loop emits an over-long sentence's pieces, or else only
      the buffer, which fits. */
  lemma PackSentenceFromPool(b: Buffered, sentence: string, pool: seq<string>, n: nat)
    requires n >= 1 && LongOnlyFrom(b.emitted, pool, n)
    requires b.buffer != [] ==> |Join(b.buffer)| <= n
    ensures var s := Strip(sentence);
      var b' := PackSentence(b, sentence, n);
      && LongOnlyFrom(b'.emitted, pool + (if |s| > n then SentencePieces(s, n) else []), n)
      && (b'.buffer != [] ==> |Join(b'.buffer)| <= n)
  {
    var s := Strip(sentence);
    var extra := if |s| > n then SentencePieces(s, n) else [];
    LongOnlyFromMore(b.emitted, pool, extra, n);
    if s == [] {
    } else if |s| > n {
      LongOnlyFromAppend(b.emitted, pool, extra, n);
    } else {
      var prospective := if b.buffer != [] then Join(b.buffer + [s]) else s;
      if |prospective| <= n {
        assert |Join(b.buffer + [s])| <= n by {
          if b.buffer == [] {
            assert b.buffer + [s] == [s];
          }
        }
      } else {
        if b.buffer != [] {
          LongOnlyFromFits(b.emitted, pool + extra, Join(b.buffer), n);
        }
        assert |Join([s])| <= n;
      }
    }
  }

  lemma LongOnlyFromMore(chunks: seq<string>, pool: seq<string>, extra: seq<string>, n: nat)
    requires LongOnlyFrom(chunks, pool, n)
    ensures LongOnlyFrom(chunks, pool + extra, n)
  {
  }

  lemma LongOnlyFromAppend(chunks: seq<string>, pool: seq<string>, extra: seq<string>, n: nat)
    requires LongOnlyFrom(chunks, pool, n)
    ensures LongOnlyFrom(chunks + extra, pool + extra, n)
  {
    forall k | 0 <= k < |chunks + extra| && |(chunks + extra)[k]| > n
      ensures (chunks + extra)[k] in pool + extra
    {
      if k < |chunks| {
        assert (chunks + extra)[k] == chunks[k];
      } else {
        assert (chunks + extra)[k] == extra[k - |chunks|] == (pool + extra)[|pool| + k - |chunks|];
      }
    }
  }

  lemma LongOnlyFromFits(chunks: seq<string>, pool: seq<string>, c: string, n: nat)
    requires LongOnlyFrom(chunks, pool, n) && |c| <= n
    ensures LongOnlyFrom(chunks + [c], pool, n)
  {
    assert forall k :: 0 <= k < |chunks| ==> (chunks + [c])[k] == chunks[k];
  }

  /** Packing normal sentences and flushing gives chunks. */
  lemma FlushedSentencesAreChunks(sentences: seq<string>, n: nat)
    requires n >= 1 && NormalPieces(sentences)
    ensures forall k :: 0 <= k < |Flush(PackSentences(sentences, n))| ==> IsChunk(Flush(PackSentences(sentences, n))[k], n)
  {
    PackSentencesKeeps(sentences, n);
    FlushedChunks(PackSentences(sentences, n), n);
  }

  /** Flushing a state that satisfies `SentencesPacked` gives chunks. */
  lemma FlushedChunks(b: Buffered, n: nat)
    requires SentencesPacked(b, n)
    ensures forall k :: 0 <= k < |Flush(b)| ==> IsChunk(Flush(b)[k], n)
  {
    if b.buffer != [] {
      JoinedSentencesChunk(b, n);
    }
  }

  // ---------------------------------------------------------------------------
  // Nothing in, nothing out
  // ---------------------------------------------------------------------------

  /** A word that is not empty always leaves something emitted or buffered. */
  lemma PackWordLeavesSomething(b: Buffered, word: string, n: nat)
    requires n >= 1 && word != []
    ensures Flush(PackWord(b, word, n)) != []
  {
    var r := PackWord(b, word, n);
    assert r.buffer != [] || r.emitted == b.emitted + Slices(word, n);
    assert Slices(word, n) != [];
  }

  /** split_sentence yields something for every sentence that has a word. */
  lemma SentencePiecesNonEmpty(sentence: string, n: nat)
    requires n >= 1 && sentence != [] && IsNormal(sentence)
    ensures SentencePieces(sentence, n) != []
  {
    JoinWordsOfNormal(sentence);
    var words := Words(sentence);
    var last := words[|words| - 1];
    WordsAreWords(sentence);
    assert IsWord(last);
    PackWordLeavesSomething(PackWords(words[..|words| - 1], n), last, n);
  }

  /** A sentence with text always leaves something emitted or buffered. */
  lemma PackSentenceLeavesSomething(b: Buffered, sentence: string, n: nat)
    requires n >= 1 && sentence != [] && IsNormal(sentence)
    ensures Flush(PackSentence(b, sentence, n)) != []
  {
    StripNormal(sentence);
    if |sentence| > n {
      SentencePiecesNonEmpty(sentence, n);
    }
  }

  /** smart_split returns no chunk exactly when the text is empty or all whitespace. */
  lemma SmartChunksEmpty(text: string, n: nat)
    requires n >= 1
    ensures SmartChunks(text, n) == [] <==> forall i :: 0 <= i < |text| ==> IsSpace(text[i])
  {
    var t := Normalise(text);
    NormaliseEmpty(text);
    if t != [] {
      NormaliseIsNormal(text);
      SentencesOfNormal(t);
      var ss := Sentences(t);
      PackSentenceLeavesSomething(PackSentences(ss[..|ss| - 1], n), ss[|ss| - 1], n);
    }
  }

  // ---------------------------------------------------------------------------
  // Round trip
  // ---------------------------------------------------------------------------

  /** Appending after a non-empty list puts one separator before the new element. */
  lemma JoinSnoc(xs: seq<string>, y: string)
    requires xs != []
    ensures Join(xs + [y]) == Join(xs) + " " + y
  {
    assert (xs + [y])[..|xs|] == xs;
  }

  /** Extending the last element of a list by `" " + y` extends the join the same way. */
  lemma JoinExtendLast(xs: seq<string>, x: string, y: string)
    ensures Join(xs + [x + " " + y]) == Join(xs + [x]) + " " + y
  {
    if xs == [] {
      assert xs + [x] == [x];
    } else {
      JoinSnoc(xs, x);
      JoinSnoc(xs, x + " " + y);
    }
  }

  /** The greedy packing step both loops share when the new part fits on its own:
      append it to the buffer if the joined buffer still fits, otherwise flush. */
  function Greedy(b: Buffered, x: string, n: nat): Buffered {
    var candidate := if b.buffer != [] then Join(b.buffer + [x]) else x;
    if |candidate| <= n then Buffered(b.emitted, b.buffer + [x]) else Buffered(Flush(b), [x])
  }

  /** A word that fits on its own is packed greedily. */
  lemma PackWordGreedy(b: Buffered, word: string, n: nat)
    requires n >= 1 && |word| <= n
    ensures PackWord(b, word, n) == Greedy(b, word, n)
  {
  }

  /** A non-empty normal sentence that fits on its own is packed greedily. */
  lemma PackSentenceGreedy(b: Buffered, sentence: string, n: nat)
    requires n >= 1 && sentence != [] && IsNormal(sentence) && |sentence| <= n
    ensures PackSentence(b, sentence, n) == Greedy(b, sentence, n)
  {
    StripNormal(sentence);
  }

  /** The packing state `b` after the parts `xs` loses nothing: flushing it and joining
      gives the joined parts, and it is empty only before the first part. */
  ghost predicate Faithful(b: Buffered, xs: seq<string>) {
    && Join(Flush(b)) == Join(xs)
    && (Flush(b) == [] <==> xs == [])
  }

  lemma GreedyFaithful(b: Buffered, xs: seq<string>, x: string, n: nat)
    requires Faithful(b, xs) && |x| <= n
    ensures Faithful(Greedy(b, x, n), xs + [x])
  {
    var candidate := if b.buffer != [] then Join(b.buffer + [x]) else x;
    if b.buffer == [] {
      assert b.buffer + [x] == [x];
      if b.emitted == [] {
        assert xs == [] && xs + [x] == [x];
        assert Flush(Greedy(b, x, n)) == [x];
      } else {
        assert Flush(b) == b.emitted && xs != [];
        assert Flush(Greedy(b, x, n)) == b.emitted + [x];
        JoinSnoc(b.emitted, x);
        JoinSnoc(xs, x);
      }
    } else {
      JoinSnoc(xs, x);
      assert Flush(b) == b.emitted + [Join(b.buffer)];
      if |candidate| <= n {
        JoinSnoc(b.buffer, x);
        JoinExtendLast(b.emitted, Join(b.buffer), x);
      } else {
        JoinSnoc(Flush(b), x);
      }
    }
  }

  lemma {:induction false} PackWordsFaithful(words: seq<string>, n: nat)
    requires n >= 1
    requires forall k :: 0 <= k < |words| ==> |words[k]| <= n
    ensures Faithful(PackWords(words, n), words)
  {
    if words != [] {
      var init, last := words[..|words| - 1], words[|words| - 1];
      assert init + [last] == words;
      PackWordsFaithful(init, n);
      PackWordGreedy(PackWords(init, n), last, n);
      GreedyFaithful(PackWords(init, n), init, last, n);
    }
  }

  /** When no word of a normal sentence is longer than `n`, joining what split_sentence
      yields with single spaces gives back the sentence. */
  lemma SentencePiecesRoundTrip(sentence: string, n: nat)
    requires n >= 1 && IsNormal(sentence)
    requires forall k :: 0 <= k < |Words(sentence)| ==> |Words(sentence)[k]| <= n
    ensures Join(SentencePieces(sentence, n)) == sentence
  {
    PackWordsFaithful(Words(sentence), n);
    JoinWordsOfNormal(sentence);
  }

  lemma {:induction false} PackSentencesFaithful(sentences: seq<string>, n: nat)
    requires n >= 1
    requires forall k :: 0 <= k < |sentences| ==> sentences[k] != [] && IsNormal(sentences[k]) && |sentences[k]| <= n
    ensures Faithful(PackSentences(sentences, n), sentences)
  {
    if sentences != [] {
      var init, last := sentences[..|sentences| - 1], sentences[|sentences| - 1];
      assert init + [last] == sentences;
      var b := PackSentences(init, n);
      assert Faithful(b, init) by {
        PackSentencesFaithful(init, n);
      }
      assert PackSentence(b, last, n) == Greedy(b, last, n) by {
        PackSentenceGreedy(b, last, n);
      }
      GreedyFaithful(b, init, last, n);
    }
  }

  /** When no sentence of the normalised text is longer than `n`, joining the chunks with
      single spaces gives back the normalised text: nothing is lost or reordered. */
  lemma SmartSplitRoundTrip(text: string, n: nat)
    requires n >= 1
    requires forall k :: 0 <= k < |Sentences(Normalise(text))| ==> |Sentences(Normalise(text))[k]| <= n
    ensures Join(SmartChunks(text, n)) == Normalise(text)
  {
    var t := Normalise(text);
    NormaliseIsNormal(text);
    SentencesOfNormal(t);
    PackSentencesFaithful(Sentences(t), n);
  }
}
