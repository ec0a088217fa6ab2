# RUDN library bot: query chunking and answer assembly

This project models the core of `generate_openai_response` in `mytelbot.py`. The Telegram bot uses it to turn a user's question into a reply. The function has two parts:

- **Chunking (lines 38-46).**
  - It splits the query on whitespace and packs the words greedily into chunks.
  - A word joins the running chunk while the chunk's length plus the word's length stays below `max_tokens_per_response` (200). That value is a character count, not a token count.
  - Otherwise the stripped chunk is emitted and a new chunk starts with the word.
  - The last chunk is always emitted.
- **Answer assembly (lines 49-73).**
  - Each chunk becomes the prompt `data + "\n\nUser query: " + chunk`, and the completion service is asked once per prompt.
  - Each answer is stripped.
  - The collected answers are joined with a blank line, and every occurrence of `{'answer': ['']}` is deleted.

The model is written in Dafny and has four modules:

- `Seqs` (`seqs.dfy`): a few generic facts about sequences that the chunker proofs cite.
- `Strings` (`strings.dfy`): the Python `str` operations the core uses. These are `split()` and `strip()` without arguments, `sep.join`, and `replace(pat, "")`.
  - `FindFrom` is the search for the next occurrence that `replace` performs at line 73. The source never calls `find` itself.
  - Strings are sequences of code points.
  - Whitespace is exactly the set `str.isspace` accepts.
- `Chunker` (`chunker.dfy`): the chunking loop.
  - `ChunkFrom` is a recursive fold whose accumulator is the source's `current_chunk` string.
  - `ChunkQuery` is the loop as written, and it is proved equal to the fold.
  - The properties are proved for any accumulator made of words, through `Pieces`, which is the accumulator after a list of words was added to it.
- `Responder` (`responder.dfy`): the answer assembly.
  - The completion service is a parameter `complete: string -> string`, and the reference data is its rendered text `data`.
  - `GenerateResponse` is the code as written.
  - `GenerateResponseIntended` is the same code with the `if partial_response:` test moved into the loop (see Findings).

The comments in the source state what the answer assembly is meant to do, and the code does something else in two places. The model follows the code in both:
- The comment at line 66 checks that "the partial response" is not empty, and the comment at line 69 says the partial responses are joined into the complete answer. The code keeps only the last chunk's answer, because the test at line 66 sits outside the loop (see Findings).
- The comment at line 72 says the `{'answer': ['']}` details are removed from the response. The code removes them in one left-to-right pass (`str.replace`), so an artifact nested inside another one leaves one artifact behind (`Responder.ArtifactSurvives`).

## Model

| member | source | states |
|---|---|---|
| Strings.Split | mytelbot.py:40 | `query.split()` yields words that are non-empty and free of whitespace |
| Strings.SplitKeepsText | mytelbot.py:40 | splitting drops whitespace and nothing else: the words glued together are the input's non-whitespace characters, in order |
| Strings.SplitEmptyIffAllSpace | mytelbot.py:40 | a string has no words exactly when it is all whitespace |
| Strings.SplitJoin | mytelbot.py:40-42 | round trip: splitting words joined by single spaces gives the same words back |
| Strings.SplitAtSpace | mytelbot.py:40 | splitting at a whitespace character splits the two sides independently |
| Strings.JoinWordsNormalized | mytelbot.py:42-44 | words joined by single spaces have no surrounding whitespace, and each space stands alone between two non-space characters |
| Strings.Strip | mytelbot.py:65 | `strip()` never lengthens its input (StripSpec gives the full characterisation) |
| Strings.StripSpec | mytelbot.py:44 | `strip()` returns a slice of its input that has only whitespace on either side and does not start or end with whitespace |
| Strings.StripKeepsChars | mytelbot.py:65 | every character of a stripped answer occurs in the raw answer |
| Strings.StripTrailingSpace | mytelbot.py:42-44 | stripping a whitespace-trimmed text followed by one space gives the text back |
| Strings.Join | mytelbot.py:70 | `sep.join(parts)` is empty for no parts and otherwise begins with the first part |
| Strings.FindFrom | mytelbot.py:73 | the search inside `replace` reports only an index at or after the start where the pattern really occurs |
| Strings.FindFromLeftmost | mytelbot.py:73 | the scan reports an occurrence exactly when one exists from the start index on, and the one it reports is the leftmost |
| Strings.Remove | mytelbot.py:73 | `replace(pat, "")` never lengthens the text, and leaves text without an occurrence unchanged |
| Strings.RemoveLeftmost | mytelbot.py:73 | removal deletes the leftmost occurrence and resumes right after it |
| Chunker.ChunkFrom | mytelbot.py:40-46 | from any state of the loop, the remaining words produce at least one more chunk, because the final chunk is always appended |
| Chunker.Chunk | mytelbot.py:38-46 | `query_chunks` is never empty |
| Chunker.ChunkQuery | mytelbot.py:38-46 | the loop returns the chunks of the fold, and there is always at least one |
| Chunker.ChunkKeepsWords | mytelbot.py:40-46 | splitting each chunk and concatenating the results gives `query.split()`: no word is dropped, split, reordered or duplicated |
| Chunker.ChunkNormalized | mytelbot.py:42-46 | every chunk has no leading or trailing whitespace and exactly one space between words, so it is its own words re-joined |
| Chunker.ChunkLength | mytelbot.py:41-42 | a chunk of 200 or more characters is a single word, so every chunk of two or more words is at most 199 characters |
| Chunker.ChunkOfBlank | mytelbot.py:38-46 | there is at least one chunk, and the chunks are `[""]` exactly when the query has no non-whitespace character |
| Chunker.EmptyFirstChunk | mytelbot.py:41-45 | only the first chunk can be empty; it is empty exactly when there are no words or the first word has 200 or more characters, and then that word is the second chunk |
| Chunker.LongWordAlone | mytelbot.py:41-45 | a word of 200 or more characters is a chunk of its own, and any chunk holding such a word is that word |
| Chunker.SingleChunk | mytelbot.py:40-46 | there is one chunk exactly when `" ".join(query.split())` is shorter than 200 characters, and then it is that string |
| Chunker.ChunkFromFits | mytelbot.py:41-42 | while all remaining words fit under the budget, the fold returns the single chunk of all the words |
| Responder.Prompt | mytelbot.py:51 | a prompt is the reference data, then the label `"\n\nUser query: "`, then the chunk, with nothing else |
| Responder.PromptDeterminesChunk | mytelbot.py:51 | distinct chunks give distinct prompts |
| Responder.RespondAsWritten | mytelbot.py:49-73 | the loop sends one prompt per chunk, in order, and its reply equals the reply as written |
| Responder.GenerateResponse | mytelbot.py:32-74 | the service is asked once per chunk with `data + "\n\nUser query: " + chunk`; a blank query still sends one prompt, the data and the label; the reply is the last chunk's stripped answer with the artifact removed, or `""` when that answer is empty |
| Responder.ReplyAsWritten | mytelbot.py:65-73 | the reply as written is never longer than the last chunk's stripped answer, and is exactly that answer when the raw answer holds no `{` |
| Responder.AsWrittenLastOnly | mytelbot.py:65-67 | the reply as written equals the intended reply computed on the last chunk alone: the answers to earlier chunks never contribute |
| Responder.NonEmptyMembers | mytelbot.py:66-67 | the kept answers are exactly the non-empty ones |
| Responder.ReplyIntended | mytelbot.py:66-73 | the intended reply is never longer than the kept answers joined, and is empty when no answer is kept |
| Responder.RespondIntended | mytelbot.py:49-73 | with the test inside the loop, the reply collects every non-empty answer in chunk order |
| Responder.GenerateResponseIntended | mytelbot.py:49-73 | the intended reply for a query, with one prompt per chunk |
| Responder.IntendedKeepsResponses | mytelbot.py:66-70 | when no answer holds `{`, the intended reply is every non-empty answer joined by blank lines, and none is lost |
| Responder.IntendedAgreesWhenEarlierEmpty | mytelbot.py:66-67 | the two replies agree whenever every chunk before the last got an empty answer |
| Responder.IntendedAgreesOnOneChunk | mytelbot.py:40-67 | a query that fits in one chunk gets the same reply both ways |
| Responder.AllBlankReplies | mytelbot.py:65-70 | when every answer strips to nothing, both replies are empty |
| Responder.LastResponseOnly | mytelbot.py:66-67 | on a query of one 200-character word answered "ok", the reply as written is "ok" and the intended one is "ok\n\nok" |
| Responder.LongQueryChunks | mytelbot.py:41-46 | a single word of exactly 200 characters is chunked into `["", word]` |
| Responder.ArtifactSurvives | mytelbot.py:73 | removal is a single pass: an artifact nested inside another leaves one artifact behind |

## Left out

- Environment loading, secrets and client setup (mytelbot.py:10-18): these are configuration and I/O.
- `read_data_from_file` and YAML parsing (mytelbot.py:26-29): these are file I/O and a foreign parser. The reference data is the text `data` that the f-string would render.
- The completion request (mytelbot.py:52-64), including the model name, the system instruction and the sampling parameters: this is a network call. It is the function parameter `complete`. Only the choice of prompt and the use of the first choice's content are modelled.
- The completion service's nondeterminism: `complete` is a function of the prompt, so within one model run equal prompts get equal answers, whatever the order of the calls. The real service does not promise that, even at temperature 0. The lemmas use it only to name "the answer to chunk i"; none of them depends on two equal prompts getting equal answers.
- Failures of the completion call: they propagate out of the function and nothing in the core handles them.
- The Telegram handlers and the polling loop (mytelbot.py:77-107): these are UI and transport.
- Token counting with tiktoken (mytelbot.py:7-8, 22): it is a foreign tokenizer. `tokens_count` is not part of this model.
- `logging_config.py` in full: it only formats a message and writes it to a file.

## Findings

| source | as written | input that shows it | evidently intended | confidence | as-written member | corrected member |
|---|---|---|---|---|---|---|
| mytelbot.py:66-67 | the `if partial_response:` test is outside the `for` loop, so only the last chunk's stripped answer can be collected | a query of one 200-character word: the chunks are `["", word]`, and a service answering "ok" to every prompt gives the reply "ok" | every chunk's non-empty answer is collected and joined by blank lines, giving "ok\n\nok" | medium, not executed | Responder.LastResponseOnly | Responder.IntendedKeepsResponses |
