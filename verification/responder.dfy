/** The answer assembly of `generate_openai_response` (mytelbot.py): one prompt
    per query chunk, one completion per prompt, and the collected answers joined
    and cleaned of the `{'answer': ['']}` artifact. The completion service is a
    function parameter `complete`, so equal prompts get equal answers; nothing
    else is fixed about what it answers.
 */
module Responder {
  import opened Strings
  import opened Chunker

  /** The text between the reference data and the chunk in every prompt. */
  const QueryLabel: string := "\n\nUser query: "

  /** The separator the collected answers are joined with. */
  const AnswerSeparator: string := "\n\n"

  /** The artifact removed from the joined answer. */
  const Artifact: string := "{'answer': ['']}"

  /** The prompt sent for one chunk: the reference data, the label, the chunk. */
  function Prompt(data: string, chunk: string): (p: string)
    ensures |p| == |data| + |QueryLabel| + |chunk|
    ensures p[..|data|] == data && p[|data|..|data| + |QueryLabel|] == QueryLabel
    ensures p[|data| + |QueryLabel|..] == chunk
  {
    data + QueryLabel + chunk
  }

  /** The prompt text determines the chunk it was built from. */
  lemma PromptDeterminesChunk(data: string, c1: string, c2: string)
    requires Prompt(data, c1) == Prompt(data, c2)
    ensures c1 == c2
  {
    var n := |data| + |QueryLabel|;
    assert Prompt(data, c1)[n..] == c1;
    assert Prompt(data, c2)[n..] == c2;
  }

  /** The stripped answer to each chunk's prompt, in chunk order. */
  function Responses(chunks: seq<string>, data: string, complete: string -> string): seq<string>
  {
    seq(|chunks|, i requires 0 <= i < |chunks| => Strip(complete(Prompt(data, chunks[i]))))
  }

  /** Each response is the stripped answer to its own chunk's prompt. */
  lemma ResponseAt(chunks: seq<string>, data: string, complete: string -> string, i: int)
    requires 0 <= i < |chunks|
    ensures |Responses(chunks, data, complete)| == |chunks|
    ensures Responses(chunks, data, complete)[i] == Strip(complete(Prompt(data, chunks[i])))
  {
  }

  // ---------------------------------------------------------------------------
  // The reply as the source computes it

  /** The reply as written: the `if partial_response:` test sits after the loop,
      so the one answer that can be collected is the last chunk's, and only when
      it is non-empty. The chunker never returns an empty list, so the loop
      binds `partial_response` at least once. The reply is never longer than
      the last answer, stripped, and is exactly that answer when the raw answer
      holds no `{`. */
  function ReplyAsWritten(chunks: seq<string>, data: string, complete: string -> string): (r: string)
    requires |chunks| > 0
    ensures |r| <= |Strip(complete(Prompt(data, chunks[|chunks| - 1])))|
    ensures '{' !in complete(Prompt(data, chunks[|chunks| - 1])) ==>
              r == Strip(complete(Prompt(data, chunks[|chunks| - 1])))
  {
    var raw := complete(Prompt(data, chunks[|chunks| - 1]));
    var last := Strip(raw);
    if last == "" then ""
    else if '{' in raw then Remove(last, Artifact)
    else
      StripKeepsChars(raw);
      AbsentFirstChar(last, Artifact);
      Remove(last, Artifact)
  }

  /** The reply to `query` as written. */
  function AnswerAsWritten(query: string, data: string, complete: string -> string): string
  {
    ChunkOfBlank(query);
    ReplyAsWritten(Chunk(query), data, complete)
  }

  /** The loop over the chunks as written: one completion per chunk, keeping
      only the response bound when the loop ends. `prompts` lists the prompts
      sent, in order. */
  method RespondAsWritten(chunks: seq<string>, data: string, complete: string -> string)
      returns (reply: string, prompts: seq<string>)
    requires |chunks| > 0
    ensures |prompts| == |chunks|
    ensures forall i :: 0 <= i < |chunks| ==> prompts[i] == Prompt(data, chunks[i])
    ensures reply == ReplyAsWritten(chunks, data, complete)
  {
    prompts := [];
    var partialResponse := "";
    var i := 0;
    while i < |chunks|
      invariant 0 <= i <= |chunks|
      invariant |prompts| == i
      invariant forall k :: 0 <= k < i ==> prompts[k] == Prompt(data, chunks[k])
      invariant i > 0 ==> partialResponse == Strip(complete(Prompt(data, chunks[i - 1])))
    {
      var prompt := Prompt(data, chunks[i]);
      prompts := prompts + [prompt];
      partialResponse := Strip(complete(prompt));
      i := i + 1;
    }
    var partialResponses: seq<string> := [];
    if partialResponse != "" {
      partialResponses := partialResponses + [partialResponse];
    }
    var completeResponse := Join(AnswerSeparator, partialResponses);
    reply := Remove(completeResponse, Artifact);
    CollectLast(chunks, data, complete, partialResponse);
  }

  /** Collecting the response bound after the loop, joining and removing the
      artifact gives the reply as written. */
  lemma CollectLast(chunks: seq<string>, data: string, complete: string -> string, partial: string)
    requires |chunks| > 0
    requires partial == Strip(complete(Prompt(data, chunks[|chunks| - 1])))
    ensures Remove(Join(AnswerSeparator, if partial != "" then [partial] else []), Artifact)
            == ReplyAsWritten(chunks, data, complete)
  {
    assert Remove("", Artifact) == "" by {
      AbsentFirstChar("", Artifact);
    }
  }

  /** `generate_openai_response` as written: chunk the query, then answer the
      chunks. A blank query is still sent, as the one prompt holding the data
      and the label. */
  method GenerateResponse(query: string, data: string, complete: string -> string)
      returns (reply: string, prompts: seq<string>)
    ensures |prompts| == |Chunk(query)| >= 1
    ensures forall i :: 0 <= i < |prompts| ==> prompts[i] == Prompt(data, Chunk(query)[i])
    ensures AllSpace(query) ==> prompts == [data + QueryLabel]
    ensures reply == AnswerAsWritten(query, data, complete)
  {
    var queryChunks := ChunkQuery(query);
    reply, prompts := RespondAsWritten(queryChunks, data, complete);
    if AllSpace(query) {
      BlankQueryPrompt(query, data);
      assert prompts == [prompts[0]];
    }
  }

  /** A blank query is sent as one prompt: the data and the label, with an
      empty chunk. */
  lemma BlankQueryPrompt(query: string, data: string)
    requires AllSpace(query)
    ensures Chunk(query) == [""]
    ensures Prompt(data, "") == data + QueryLabel
  {
    ChunkOfBlank(query);
  }

  // ---------------------------------------------------------------------------
  // The reply as evidently intended

  /** The non-empty strings of `rs`, in order: what `if partial_response:`
      keeps when it runs once per chunk. */
  function NonEmpty(rs: seq<string>): (ps: seq<string>)
    ensures |ps| <= |rs|
  {
    if |rs| == 0 then []
    else if rs[0] == "" then NonEmpty(rs[1..])
    else [rs[0]] + NonEmpty(rs[1..])
  }

  /** NonEmpty keeps exactly the non-empty strings. */
  lemma {:induction false} NonEmptyMembers(rs: seq<string>)
    ensures forall r :: r in NonEmpty(rs) <==> r in rs && r != ""
    decreases |rs|
  {
    if |rs| > 0 {
      NonEmptyMembers(rs[1..]);
      assert rs == [rs[0]] + rs[1..];
    }
  }

  /** Filtering one more string appends it exactly when it is non-empty. */
  lemma {:induction false} NonEmptySnoc(rs: seq<string>, r: string)
    ensures NonEmpty(rs + [r]) == NonEmpty(rs) + (if r == "" then [] else [r])
    decreases |rs|
  {
    if |rs| == 0 {
      assert NonEmpty([r]) == (if r == "" then [] else [r]) by {
        assert [r][1..] == [];
      }
    } else {
      assert (rs + [r])[1..] == rs[1..] + [r];
      NonEmptySnoc(rs[1..], r);
    }
  }

  /** Filtering only empty strings leaves nothing. */
  lemma {:induction false} NonEmptyOfBlanks(rs: seq<string>)
    requires forall i :: 0 <= i < |rs| ==> rs[i] == ""
    ensures NonEmpty(rs) == []
    decreases |rs|
  {
    if |rs| > 0 {
      assert forall i :: 0 <= i < |rs| - 1 ==> rs[1..][i] == rs[i + 1];
      NonEmptyOfBlanks(rs[1..]);
    }
  }

  /** The reply as evidently intended: every chunk's non-empty answer, in chunk
      order, joined by a blank line, with the artifact removed. It is never
      longer than the kept answers joined, and it is empty when no answer is
      kept. */
  function ReplyIntended(chunks: seq<string>, data: string, complete: string -> string): (r: string)
    ensures |r| <= |Join(AnswerSeparator, NonEmpty(Responses(chunks, data, complete)))|
    ensures NonEmpty(Responses(chunks, data, complete)) == [] ==> r == ""
  {
    AbsentFirstChar("", Artifact);
    Remove(Join(AnswerSeparator, NonEmpty(Responses(chunks, data, complete))), Artifact)
  }

  /** The loop over the chunks with the `if partial_response:` test inside it,
      collecting every non-empty answer. */
  method RespondIntended(chunks: seq<string>, data: string, complete: string -> string)
      returns (reply: string, prompts: seq<string>)
    ensures |prompts| == |chunks|
    ensures forall i :: 0 <= i < |chunks| ==> prompts[i] == Prompt(data, chunks[i])
    ensures reply == ReplyIntended(chunks, data, complete)
  {
    ghost var responses := Responses(chunks, data, complete);
    prompts := [];
    var partialResponses: seq<string> := [];
    var i := 0;
    while i < |chunks|
      invariant 0 <= i <= |chunks|
      invariant |prompts| == i
      invariant forall k :: 0 <= k < i ==> prompts[k] == Prompt(data, chunks[k])
      invariant partialResponses == NonEmpty(responses[..i])
    {
      var prompt := Prompt(data, chunks[i]);
      prompts := prompts + [prompt];
      var partialResponse := Strip(complete(prompt));
      assert responses[..i + 1] == responses[..i] + [partialResponse];
      NonEmptySnoc(responses[..i], partialResponse);
      if partialResponse != "" {
        partialResponses := partialResponses + [partialResponse];
      }
      i := i + 1;
    }
    assert responses[..i] == responses;
    var completeResponse := Join(AnswerSeparator, partialResponses);
    reply := Remove(completeResponse, Artifact);
  }

  /** The reply to `query` as evidently intended. */
  function AnswerIntended(query: string, data: string, complete: string -> string): string
  {
    ReplyIntended(Chunk(query), data, complete)
  }

  /** `generate_openai_response` as evidently intended. */
  method GenerateResponseIntended(query: string, data: string, complete: string -> string)
      returns (reply: string, prompts: seq<string>)
    ensures |prompts| == |Chunk(query)| >= 1
    ensures forall i :: 0 <= i < |prompts| ==> prompts[i] == Prompt(data, Chunk(query)[i])
    ensures reply == AnswerIntended(query, data, complete)
  {
    var queryChunks := ChunkQuery(query);
    reply, prompts := RespondIntended(queryChunks, data, complete);
  }

  /** No stripped response holds a character its raw answer lacks. */
  lemma ResponsesAvoid(chunks: seq<string>, data: string, complete: string -> string, c: char)
    requires forall k :: 0 <= k < |chunks| ==> c !in complete(Prompt(data, chunks[k]))
    ensures forall r :: r in Responses(chunks, data, complete) ==> c !in r
  {
    var rs := Responses(chunks, data, complete);
    forall r | r in rs
      ensures c !in r
    {
      var k :| 0 <= k < |rs| && rs[k] == r;
      ResponseAt(chunks, data, complete, k);
      StripKeepsChars(complete(Prompt(data, chunks[k])));
    }
  }

  /** With no `{` in any answer, the intended reply keeps every non-empty
      answer, in chunk order, separated by blank lines. */
  lemma IntendedKeepsResponses(chunks: seq<string>, data: string, complete: string -> string)
    requires forall k :: 0 <= k < |chunks| ==> '{' !in complete(Prompt(data, chunks[k]))
    ensures ReplyIntended(chunks, data, complete)
            == Join(AnswerSeparator, NonEmpty(Responses(chunks, data, complete)))
    ensures forall r :: r in Responses(chunks, data, complete) && r != "" ==>
              r in NonEmpty(Responses(chunks, data, complete))
  {
    var rs := Responses(chunks, data, complete);
    var ps := NonEmpty(rs);
    NonEmptyMembers(rs);
    ResponsesAvoid(chunks, data, complete, '{');
    assert forall i :: 0 <= i < |ps| ==> '{' !in ps[i] by {
      forall i | 0 <= i < |ps|
        ensures '{' !in ps[i]
      {
        assert ps[i] in ps;
      }
    }
    JoinAvoids(AnswerSeparator, ps, '{');
    AbsentFirstChar(Join(AnswerSeparator, ps), Artifact);
  }

  /** When every string but the last is empty, filtering keeps at most the
      last. */
  lemma NonEmptyLastOnly(rs: seq<string>)
    requires |rs| > 0
    requires forall i :: 0 <= i < |rs| - 1 ==> rs[i] == ""
    ensures NonEmpty(rs) == if rs[|rs| - 1] == "" then [] else [rs[|rs| - 1]]
  {
    var n := |rs| - 1;
    var front := rs[..n];
    assert NonEmpty(front) == [] by {
      NonEmptyOfBlanks(front);
    }
    NonEmptySnoc(front, rs[n]);
    assert front + [rs[n]] == rs;
  }

  /** The two replies agree whenever every chunk before the last got an empty
      answer. */
  lemma IntendedAgreesWhenEarlierEmpty(chunks: seq<string>, data: string, complete: string -> string)
    requires |chunks| > 0
    requires forall i :: 0 <= i < |chunks| - 1 ==> Strip(complete(Prompt(data, chunks[i]))) == ""
    ensures ReplyIntended(chunks, data, complete) == ReplyAsWritten(chunks, data, complete)
  {
    var rs := Responses(chunks, data, complete);
    ResponseAt(chunks, data, complete, |chunks| - 1);
    assert NonEmpty(rs) == if rs[|rs| - 1] == "" then [] else [rs[|rs| - 1]] by {
      forall i | 0 <= i < |rs| - 1
        ensures rs[i] == ""
      {
        ResponseAt(chunks, data, complete, i);
      }
      NonEmptyLastOnly(rs);
    }
    assert Remove("", Artifact) == "" by {
      AbsentFirstChar("", Artifact);
    }
  }

  /** The reply as written is the intended reply to the last chunk alone: the
      answers to the earlier chunks never contribute to it. */
  lemma AsWrittenLastOnly(chunks: seq<string>, data: string, complete: string -> string)
    requires |chunks| > 0
    ensures ReplyAsWritten(chunks, data, complete) == ReplyIntended(chunks[|chunks| - 1..], data, complete)
  {
    var tail := chunks[|chunks| - 1..];
    assert tail == [chunks[|chunks| - 1]];
    IntendedAgreesWhenEarlierEmpty(tail, data, complete);
  }

  /** When every answer strips to nothing, the reply is empty, both as written
      and as intended. */
  lemma AllBlankReplies(chunks: seq<string>, data: string, complete: string -> string)
    requires |chunks| > 0
    requires forall i :: 0 <= i < |chunks| ==> Strip(complete(Prompt(data, chunks[i]))) == ""
    ensures ReplyAsWritten(chunks, data, complete) == ""
    ensures ReplyIntended(chunks, data, complete) == ""
  {
    IntendedAgreesWhenEarlierEmpty(chunks, data, complete);
  }

  /** A query that fits in one chunk gets the same reply both ways. */
  lemma IntendedAgreesOnOneChunk(query: string, data: string, complete: string -> string)
    requires |Join(" ", Split(query))| < MaxTokensPerResponse
    ensures AnswerIntended(query, data, complete) == AnswerAsWritten(query, data, complete)
  {
    SingleChunk(query);
    IntendedAgreesWhenEarlierEmpty(Chunk(query), data, complete);
  }

  // ---------------------------------------------------------------------------
  // A query on which the two replies differ

  /** A query of 200 letters `a`. */
  const LongQuery: string := seq(MaxTokensPerResponse, _ => 'a')

  /** A completion service that answers "ok" to every prompt. */
  function AnswerOk(prompt: string): string
  {
    "ok"
  }

  /** LongQuery is chunked into `["", LongQuery]`; a service answering "ok" to
      everything gets "ok" back as written, not the "ok\n\nok" that collecting
      every answer gives. */
  lemma LastResponseOnly()
    ensures Chunk(LongQuery) == ["", LongQuery]
    ensures AnswerAsWritten(LongQuery, "", AnswerOk) == "ok"
    ensures AnswerIntended(LongQuery, "", AnswerOk) == "ok\n\nok"
  {
    LongQueryChunks(LongQuery);
    OkReplies(["", LongQuery]);
  }

  /** A single word of 200 characters is chunked into an empty chunk and
      itself. */
  lemma LongQueryChunks(query: string)
    requires IsWord(query) && |query| == MaxTokensPerResponse
    ensures Chunk(query) == ["", query]
  {
    SplitWord(query);
    StripTrailingSpace(query);
    StripTrailingSpace("");
    assert ChunkFrom([], query + " ") == [query];
    assert [query][1..] == [];
  }

  /** Two chunks answered "ok" each. */
  lemma OkReplies(chunks: seq<string>)
    requires |chunks| == 2
    ensures ReplyAsWritten(chunks, "", AnswerOk) == "ok"
    ensures ReplyIntended(chunks, "", AnswerOk) == "ok\n\nok"
  {
    assert Strip("ok") == "ok" by {
      assert LeadingSpaces("ok") == 0;
      assert TrailingSpaces("ok") == 0;
    }
    assert Responses(chunks, "", AnswerOk) == ["ok", "ok"] by {
      ResponseAt(chunks, "", AnswerOk, 0);
      ResponseAt(chunks, "", AnswerOk, 1);
    }
    assert NonEmpty(["ok", "ok"]) == ["ok", "ok"] && Join(AnswerSeparator, ["ok", "ok"]) == "ok\n\nok" by {
      assert ["ok", "ok"][1..] == ["ok"];
      assert ["ok"][1..] == [];
    }
    AbsentFirstChar("ok", Artifact);
    AbsentFirstChar("ok\n\nok", Artifact);
  }

  // ---------------------------------------------------------------------------
  // Removing the artifact

  /** Removal is one pass: an artifact wrapped around another artifact loses
      the inner one, and the outer one, closed up by that removal, is what
      remains. */
  lemma ArtifactSurvives()
    ensures Remove("{'answer': ['" + Artifact + "']}", Artifact) == Artifact
  {
    var a := "{'answer': ['";
    var b := "']}";
    assert forall j :: 0 <= j < |a| ==> !OccursAt(a + Artifact + b, Artifact, j) by {
      var s := a + Artifact + b;
      forall j | 0 <= j < |a|
        ensures !OccursAt(s, Artifact, j)
      {
        if j == 0 {
          assert s[13] != Artifact[13];
        } else {
          assert s[j] != Artifact[0];
        }
      }
    }
    RemoveLeftmost(a, Artifact, b);
    AbsentFirstChar(b, Artifact);
    assert a + b == Artifact;
  }
}
