/** The query chunker of `generate_openai_response` (mytelbot.py): the user's
    query is split into words, and the words are packed greedily into chunks whose
    character count stays under `max_tokens_per_response`.
 */
module Chunker {
  import opened Strings
  import opened Seqs

  /** `max_tokens_per_response`: the budget a chunk is measured against. The
      source compares it with a character count, not a token count. */
  const MaxTokensPerResponse: nat := 200

  /** The accumulator `current_chunk` after the words `cw` were added to it:
      every word followed by one space. */
  function Pieces(cw: seq<string>): string
  {
    if |cw| == 0 then "" else Pieces(cw[..|cw| - 1]) + cw[|cw| - 1] + " "
  }

  /** The chunks the loop appends from the point where `words` are still to be
      read and the accumulator holds `current`, the final chunk included. */
  function ChunkFrom(words: seq<string>, current: string): (chunks: seq<string>)
    ensures |chunks| > 0
  {
    if |words| == 0 then
      [Strip(current)]
    else if |current| + |words[0]| < MaxTokensPerResponse then
      ChunkFrom(words[1..], current + words[0] + " ")
    else
      [Strip(current)] + ChunkFrom(words[1..], words[0] + " ")
  }

  /** `query_chunks` for a query: the fold above over `query.split()`, starting
      from an empty accumulator. */
  function Chunk(query: string): (chunks: seq<string>)
    ensures |chunks| > 0
  {
    ChunkFrom(Split(query), "")
  }

  /** The chunking loop as the source writes it: one pass over the words with a
      string accumulator. */
  method ChunkQuery(query: string) returns (queryChunks: seq<string>)
    ensures queryChunks == Chunk(query)
    ensures |queryChunks| > 0
  {
    var words := Split(query);
    queryChunks := [];
    var current := "";
    var i := 0;
    while i < |words|
      invariant 0 <= i <= |words|
      invariant queryChunks + ChunkFrom(words[i..], current) == ChunkFrom(words, "")
    {
      var token := words[i];
      assert words[i..][1..] == words[i + 1..];
      if |current| + |token| < MaxTokensPerResponse {
        current := current + token + " ";
      } else {
        queryChunks := queryChunks + [Strip(current)];
        current := token + " ";
      }
      i := i + 1;
    }
    queryChunks := queryChunks + [Strip(current)];
  }

  /** Splits each chunk on whitespace and concatenates the results in order. */
  function SplitEach(chunks: seq<string>): seq<string>
  {
    if |chunks| == 0 then [] else Split(chunks[0]) + SplitEach(chunks[1..])
  }

  // ---------------------------------------------------------------------------
  // The accumulator

  lemma PiecesSnoc(cw: seq<string>, w: string)
    ensures Pieces(cw + [w]) == Pieces(cw) + w + " "
  {
    assert (cw + [w])[..|cw|] == cw;
  }

  /** A non-empty accumulator is its words joined by single spaces, plus the
      trailing space. */
  lemma {:induction false} PiecesIsJoin(cw: seq<string>)
    requires |cw| > 0
    ensures Pieces(cw) == Join(" ", cw) + " "
    decreases |cw|
  {
    if |cw| > 1 {
      var front := cw[..|cw| - 1];
      PiecesIsJoin(front);
      JoinSnoc(" ", front, cw[|cw| - 1]);
      assert front + [cw[|cw| - 1]] == cw;
    }
  }

  /** `current_chunk.strip()` is the words of the accumulator joined by single
      spaces. */
  lemma StripPieces(cw: seq<string>)
    requires AllWords(cw)
    ensures Strip(Pieces(cw)) == Join(" ", cw)
  {
    if |cw| == 0 {
      StripTrailingSpace("");
    } else {
      PiecesIsJoin(cw);
      JoinWordsNormalized(cw);
      var j := Join(" ", cw);
      assert !IsSpace(j[0]) && !IsSpace(j[|j| - 1]);
      StripTrailingSpace(j);
    }
  }

  // ---------------------------------------------------------------------------
  // One step of the fold, for an accumulator built from words

  /** After the last word, the accumulator is emitted stripped. */
  lemma ChunkFromEnd(cw: seq<string>)
    requires AllWords(cw)
    ensures ChunkFrom([], Pieces(cw)) == [Join(" ", cw)]
  {
    StripPieces(cw);
  }

  /** A word that fits is appended to the accumulator. */
  lemma ChunkFromAppend(words: seq<string>, cw: seq<string>)
    requires |words| > 0 && |Pieces(cw)| + |words[0]| < MaxTokensPerResponse
    ensures ChunkFrom(words, Pieces(cw)) == ChunkFrom(words[1..], Pieces(cw + [words[0]]))
  {
    PiecesSnoc(cw, words[0]);
  }

  /** A word that does not fit closes the chunk and starts the next one. */
  lemma ChunkFromCut(words: seq<string>, cw: seq<string>)
    requires AllWords(cw)
    requires |words| > 0 && |Pieces(cw)| + |words[0]| >= MaxTokensPerResponse
    ensures ChunkFrom(words, Pieces(cw))
            == [Join(" ", cw)] + ChunkFrom(words[1..], Pieces([words[0]]))
  {
    StripPieces(cw);
    PiecesSnoc([], words[0]);
    assert [] + [words[0]] == [words[0]];
    assert Pieces([words[0]]) == words[0] + " ";
  }

  lemma AllWordsTail(words: seq<string>)
    requires AllWords(words) && |words| > 0
    ensures IsWord(words[0]) && AllWords(words[1..])
  {
    assert forall i :: 0 <= i < |words| - 1 ==> words[1..][i] == words[i + 1];
  }

  lemma SplitEachCons(c: string, rest: seq<string>)
    ensures SplitEach([c] + rest) == Split(c) + SplitEach(rest)
  {
    assert ([c] + rest)[1..] == rest;
  }

  lemma AllWordsSnoc(cw: seq<string>, w: string)
    requires AllWords(cw) && IsWord(w)
    ensures AllWords(cw + [w])
  {
    assert forall i :: 0 <= i < |cw| ==> (cw + [w])[i] == cw[i];
  }

  // ---------------------------------------------------------------------------
  // Properties of the fold, for any accumulator built from words

  /** No word is dropped, split, reordered or duplicated: the words of the chunks,
      in order, are the accumulator's words followed by the words still to read. */
  lemma {:induction false} ChunkFromKeepsWords(words: seq<string>, cw: seq<string>)
    requires AllWords(words) && AllWords(cw)
    ensures SplitEach(ChunkFrom(words, Pieces(cw))) == cw + words
    decreases |words|
  {
    var chunks := ChunkFrom(words, Pieces(cw));
    if |words| == 0 {
      assert SplitEach(chunks) == cw + words by {
        SplitJoin(cw);
        ChunkFromEnd(cw);
        SplitEachCons(Join(" ", cw), []);
        AppendNil(cw, words);
      }
    } else if |Pieces(cw)| + |words[0]| < MaxTokensPerResponse {
      assert SplitEach(chunks) == cw + words by {
        ChunkFromAppend(words, cw);
        AllWordsSnoc(cw, words[0]);
        ChunkFromKeepsWords(words[1..], cw + [words[0]]);
        ShiftHead(cw, words);
      }
    } else {
      assert SplitEach(chunks) == cw + words by {
        SplitJoin(cw);
        ChunkFromCut(words, cw);
        ChunkFromKeepsWords(words[1..], [words[0]]);
        SplitEachCons(Join(" ", cw), ChunkFrom(words[1..], Pieces([words[0]])));
        ShiftHead(cw, words);
      }
    }
  }

  /** Each chunk is its own words joined by single spaces. */
  predicate AllCanonical(chunks: seq<string>) {
    forall c :: c in chunks ==> Join(" ", Split(c)) == c
  }

  /** Every chunk is its own words joined by single spaces: the fold only ever
      emits an accumulator of words, stripped. */
  lemma {:induction false} ChunkFromCanonical(words: seq<string>, cw: seq<string>)
    requires AllWords(words) && AllWords(cw)
    ensures AllCanonical(ChunkFrom(words, Pieces(cw)))
    decreases |words|, 1
  {
    if |words| == 0 {
      ChunkFromEnd(cw);
      SplitJoin(cw);
    } else if |Pieces(cw)| + |words[0]| < MaxTokensPerResponse {
      CanonicalAppend(words, cw);
    } else {
      CanonicalCut(words, cw);
    }
  }

  // ChunkFromCanonical when the next word fits.
  lemma {:induction false} CanonicalAppend(words: seq<string>, cw: seq<string>)
    requires AllWords(words) && AllWords(cw)
    requires |words| > 0 && |Pieces(cw)| + |words[0]| < MaxTokensPerResponse
    ensures AllCanonical(ChunkFrom(words, Pieces(cw)))
    decreases |words|, 0
  {
    ChunkFromAppend(words, cw);
    AllWordsTail(words);
    AllWordsSnoc(cw, words[0]);
    ChunkFromCanonical(words[1..], cw + [words[0]]);
  }

  // ChunkFromCanonical when the next word closes the chunk.
  lemma {:induction false} CanonicalCut(words: seq<string>, cw: seq<string>)
    requires AllWords(words) && AllWords(cw)
    requires |words| > 0 && |Pieces(cw)| + |words[0]| >= MaxTokensPerResponse
    ensures AllCanonical(ChunkFrom(words, Pieces(cw)))
    decreases |words|, 0
  {
    ChunkFromCut(words, cw);
    SplitJoin(cw);
    AllWordsTail(words);
    ChunkFromCanonical(words[1..], [words[0]]);
  }

  /** Each chunk is shorter than the budget or is one single word. */
  predicate AllBounded(chunks: seq<string>) {
    forall c :: c in chunks ==> |c| < MaxTokensPerResponse || Split(c) == [c]
  }

  /** The length bound: an accumulator of two or more words never exceeds the
      budget, so a chunk is shorter than the budget unless it is one single word. */
  lemma {:induction false} ChunkFromBound(words: seq<string>, cw: seq<string>)
    requires AllWords(words) && AllWords(cw)
    requires |cw| <= 1 || |Pieces(cw)| <= MaxTokensPerResponse
    ensures AllBounded(ChunkFrom(words, Pieces(cw)))
    decreases |words|, 1
  {
    if |words| == 0 {
      ChunkFromEnd(cw);
      JoinBounded(cw);
    } else if |Pieces(cw)| + |words[0]| < MaxTokensPerResponse {
      BoundAppend(words, cw);
    } else {
      BoundCut(words, cw);
    }
  }

  // ChunkFromBound when the next word fits.
  lemma {:induction false} BoundAppend(words: seq<string>, cw: seq<string>)
    requires AllWords(words) && AllWords(cw)
    requires |words| > 0 && |Pieces(cw)| + |words[0]| < MaxTokensPerResponse
    ensures AllBounded(ChunkFrom(words, Pieces(cw)))
    decreases |words|, 0
  {
    ChunkFromAppend(words, cw);
    PiecesSnoc(cw, words[0]);
    AllWordsTail(words);
    AllWordsSnoc(cw, words[0]);
    ChunkFromBound(words[1..], cw + [words[0]]);
  }

  // ChunkFromBound when the next word closes the chunk.
  lemma {:induction false} BoundCut(words: seq<string>, cw: seq<string>)
    requires AllWords(words) && AllWords(cw)
    requires |cw| <= 1 || |Pieces(cw)| <= MaxTokensPerResponse
    requires |words| > 0 && |Pieces(cw)| + |words[0]| >= MaxTokensPerResponse
    ensures AllBounded(ChunkFrom(words, Pieces(cw)))
    decreases |words|, 0
  {
    ChunkFromCut(words, cw);
    JoinBounded(cw);
    AllWordsTail(words);
    ChunkFromBound(words[1..], [words[0]]);
  }

  /** The chunk an accumulator within the bound is emitted as is shorter than
      the budget or a single word. */
  lemma JoinBounded(cw: seq<string>)
    requires AllWords(cw)
    requires |cw| <= 1 || |Pieces(cw)| <= MaxTokensPerResponse
    ensures |Join(" ", cw)| < MaxTokensPerResponse || Split(Join(" ", cw)) == [Join(" ", cw)]
  {
    SplitJoin(cw);
    if |cw| >= 2 {
      PiecesIsJoin(cw);
    }
  }

  /** Once the accumulator holds a word, no chunk is empty. */
  lemma {:induction false} ChunkFromNonEmpty(words: seq<string>, cw: seq<string>)
    requires AllWords(words) && AllWords(cw) && |cw| > 0
    ensures forall c :: c in ChunkFrom(words, Pieces(cw)) ==> c != ""
    decreases |words|
  {
    var chunks := ChunkFrom(words, Pieces(cw));
    assert Join(" ", cw) != "" by {
      JoinWordsNormalized(cw);
    }
    if |words| == 0 {
      assert forall c :: c in chunks ==> c != "" by {
        ChunkFromEnd(cw);
      }
    } else if |Pieces(cw)| + |words[0]| < MaxTokensPerResponse {
      assert forall c :: c in chunks ==> c != "" by {
        ChunkFromAppend(words, cw);
        AllWordsSnoc(cw, words[0]);
        ChunkFromNonEmpty(words[1..], cw + [words[0]]);
      }
    } else {
      assert forall c :: c in chunks ==> c != "" by {
        ChunkFromCut(words, cw);
        ChunkFromNonEmpty(words[1..], [words[0]]);
      }
    }
  }

  /** While everything left fits under the budget, the fold never cuts: it
      returns the one chunk holding all the words. */
  lemma {:induction false} ChunkFromFits(words: seq<string>, cw: seq<string>)
    requires AllWords(words) && AllWords(cw)
    requires |words| == 0 || |Pieces(cw)| + |Join(" ", words)| < MaxTokensPerResponse
    ensures ChunkFrom(words, Pieces(cw)) == [Join(" ", cw + words)]
    decreases |words|
  {
    if |words| == 0 {
      assert ChunkFrom(words, Pieces(cw)) == [Join(" ", cw + words)] by {
        ChunkFromEnd(cw);
        AppendNil(cw, words);
      }
    } else {
      assert ChunkFrom(words, Pieces(cw)) == [Join(" ", cw + words)] by {
        ChunkFromAppend(words, cw);
        PiecesSnoc(cw, words[0]);
        AllWordsSnoc(cw, words[0]);
        ChunkFromFits(words[1..], cw + [words[0]]);
        ShiftHead(cw, words);
      }
    }
  }

  /** A word too long for the budget, sitting alone in the accumulator, is cut
      off as a chunk of its own. */
  lemma LongWordFirst(words: seq<string>, w: string)
    requires AllWords(words) && IsWord(w) && |w| >= MaxTokensPerResponse
    ensures ChunkFrom(words, Pieces([w]))[0] == w
  {
    assert Join(" ", [w]) == w;
    if |words| == 0 {
      ChunkFromEnd([w]);
    } else {
      PiecesSnoc([], w);
      ChunkFromCut(words, [w]);
    }
  }

  // ---------------------------------------------------------------------------
  // Properties of Chunk

  /** The chunks' words, in order, are exactly the query's words. */
  lemma ChunkKeepsWords(query: string)
    ensures SplitEach(Chunk(query)) == Split(query)
  {
    ChunkFromKeepsWords(Split(query), []);
    assert [] + Split(query) == Split(query);
  }

  /** Every chunk has no surrounding whitespace and single spaces between words. */
  lemma ChunkNormalized(query: string)
    ensures forall c :: c in Chunk(query) ==> Normalized(c) && Join(" ", Split(c)) == c
  {
    ChunkFromCanonical(Split(query), []);
    forall c | c in Chunk(query)
      ensures Normalized(c)
    {
      JoinWordsNormalized(Split(c));
    }
  }

  /** A chunk of 200 characters or more is a single word; in particular every
      chunk of two or more words is at most 199 characters long. */
  lemma ChunkLength(query: string)
    ensures forall c :: c in Chunk(query) ==> |c| < MaxTokensPerResponse || Split(c) == [c]
    ensures forall c :: c in Chunk(query) && |Split(c)| >= 2 ==> |c| <= MaxTokensPerResponse - 1
  {
    ChunkFromBound(Split(query), []);
  }

  /** The chunker always returns at least one chunk, and it returns `[""]`
      exactly when the query has no non-whitespace character. */
  lemma ChunkOfBlank(query: string)
    ensures |Chunk(query)| > 0
    ensures Chunk(query) == [""] <==> AllSpace(query)
  {
    SplitEmptyIffAllSpace(query);
    ChunkKeepsWords(query);
    if Chunk(query) == [""] {
      assert SplitEach([""]) == Split("") + SplitEach([]);
    }
  }

  /** Only the first chunk can be empty, and it is empty exactly when there
      are no words or the first word is at least 200 characters long; in the
      latter case that word is the second chunk. */
  lemma FirstChunks(words: seq<string>)
    requires AllWords(words)
    ensures forall i :: 1 <= i < |ChunkFrom(words, "")| ==> ChunkFrom(words, "")[i] != ""
    ensures ChunkFrom(words, "")[0] == "" <==>
              (|words| == 0 || |words[0]| >= MaxTokensPerResponse)
    ensures |words| > 0 && |words[0]| >= MaxTokensPerResponse ==>
              |ChunkFrom(words, "")| >= 2 && ChunkFrom(words, "")[1] == words[0]
  {
    if |words| == 0 {
      assert ChunkFrom(words, "") == [""] by {
        ChunkFromEnd([]);
      }
    } else if |words[0]| >= MaxTokensPerResponse {
      LongFirstWord(words);
    } else {
      ShortFirstWord(words);
    }
  }

  /** A first word that does not fit leaves the first chunk empty and becomes
      the second. */
  lemma LongFirstWord(words: seq<string>)
    requires AllWords(words) && |words| > 0 && |words[0]| >= MaxTokensPerResponse
    ensures |ChunkFrom(words, "")| >= 2
    ensures ChunkFrom(words, "")[0] == "" && ChunkFrom(words, "")[1] == words[0]
    ensures forall i :: 1 <= i < |ChunkFrom(words, "")| ==> ChunkFrom(words, "")[i] != ""
  {
    assert Pieces([]) == "";
    var w := words[0];
    AllWordsTail(words);
    var rest := ChunkFrom(words[1..], Pieces([w]));
    assert forall c :: c in rest ==> c != "" by {
      ChunkFromNonEmpty(words[1..], [w]);
    }
    assert ChunkFrom(words, "") == [""] + rest by {
      ChunkFromCut(words, []);
    }
    assert rest[0] == w by {
      LongWordFirst(words[1..], w);
    }
    NonEmptyAfterHead(ChunkFrom(words, ""), "", rest);
    SecondIsHeadOfRest(ChunkFrom(words, ""), "", rest);
  }

  /** A first word that fits starts the first chunk, and no chunk is empty. */
  lemma ShortFirstWord(words: seq<string>)
    requires AllWords(words) && |words| > 0 && |words[0]| < MaxTokensPerResponse
    ensures forall i :: 0 <= i < |ChunkFrom(words, "")| ==> ChunkFrom(words, "")[i] != ""
  {
    assert Pieces([]) == "";
    var w := words[0];
    AllWordsTail(words);
    var rest := ChunkFrom(words[1..], Pieces([w]));
    assert forall c :: c in rest ==> c != "" by {
      ChunkFromNonEmpty(words[1..], [w]);
    }
    assert ChunkFrom(words, "") == rest by {
      ChunkFromAppend(words, []);
      assert [] + [w] == [w];
    }
    NoneEmpty(rest);
  }

  /** Only the first chunk can be empty, and it is empty exactly when the query
      has no words or its first word is at least 200 characters long; in the
      latter case that word is the second chunk. */
  lemma EmptyFirstChunk(query: string)
    ensures forall i :: 1 <= i < |Chunk(query)| ==> Chunk(query)[i] != ""
    ensures Chunk(query)[0] == "" <==>
              (|Split(query)| == 0 || |Split(query)[0]| >= MaxTokensPerResponse)
    ensures |Split(query)| > 0 && |Split(query)[0]| >= MaxTokensPerResponse ==>
              |Chunk(query)| >= 2 && Chunk(query)[1] == Split(query)[0]
  {
    FirstChunks(Split(query));
  }

  /** A word of 200 characters or more ends up alone in a chunk of its own. */
  lemma LongWordAlone(query: string)
    ensures forall w :: w in Split(query) && |w| >= MaxTokensPerResponse ==> w in Chunk(query)
    ensures forall c, w :: c in Chunk(query) && w in Split(c) && |w| >= MaxTokensPerResponse ==> c == w
  {
    forall c, w | c in Chunk(query) && w in Split(c) && |w| >= MaxTokensPerResponse
      ensures c == w
    {
      ChunkLength(query);
      SplitWordLength(c);
      assert Split(c) == [c];
    }
    forall w | w in Split(query) && |w| >= MaxTokensPerResponse
      ensures w in Chunk(query)
    {
      ChunkKeepsWords(query);
      var c := InSplitEach(Chunk(query), w);
    }
  }

  /** A word of the concatenated splits comes from one of the chunks. */
  lemma {:induction false} InSplitEach(chunks: seq<string>, w: string) returns (c: string)
    requires w in SplitEach(chunks)
    ensures c in chunks && w in Split(c)
    decreases |chunks|
  {
    if w in Split(chunks[0]) {
      c := chunks[0];
    } else {
      c := InSplitEach(chunks[1..], w);
    }
  }

  /** The query fits in one chunk exactly when its normalized form
      `" ".join(query.split())` is shorter than 200 characters, and then that
      chunk is the normalized form. */
  lemma SingleChunk(query: string)
    ensures |Chunk(query)| == 1 <==> |Join(" ", Split(query))| < MaxTokensPerResponse
    ensures |Join(" ", Split(query))| < MaxTokensPerResponse ==>
              Chunk(query) == [Join(" ", Split(query))]
  {
    var words := Split(query);
    var chunks := Chunk(query);
    if |Join(" ", words)| < MaxTokensPerResponse {
      assert chunks == [Join(" ", words)] by {
        ChunkFromFits(words, []);
        assert [] + words == words;
      }
    } else if |chunks| == 1 {
      var c := chunks[0];
      assert words == Split(c) by {
        ChunkKeepsWords(query);
        SplitEachCons(c, []);
        assert chunks == [c] + [];
      }
      assert |c| >= MaxTokensPerResponse by {
        ChunkNormalized(query);
      }
      assert words == [c] by {
        ChunkLength(query);
      }
      EmptyFirstChunk(query);
      assert false;
    }
  }
}
