# pandoc-runblocks in Dafny

pandoc-runblocks is a pandoc filter. It runs code blocks through a live
interpreter and puts each block's output after it as a new code block. This
project models the filter's core and proves properties of it. The model has
three modules.

- `Matcher` (`matcher.dfy`) is the sentinel matcher of the output drain
  `Interpreter.queue_output`. The drain reads the child's output one
  character at a time. It holds back a run that is a prefix of the marker
  `MAGIC`. A run that becomes the whole marker is dropped, and the drain
  clears `running`. A run that stops being a prefix goes to the output queue
  as one chunk, with the breaking character included. `Step` is one pass of
  the loop body and `Run` is the loop over a finite stream. `Segment` is an
  independent, front-to-back cut of the input into chunks and recognised
  markers. `RunIsSegment` proves that the two descriptions agree, and the
  order, content and not-KMP properties are proved through it.
- `InterpreterProcess` (`interpreter.dfy`) holds the class `Interpreter`.
  Its mutable fields are `start`, `queue` and `running`, and its methods
  `Feed`, `EndOfStream` and `QueueOutput` are proved against `Step` and
  `Run`. The module also defines the text that `communicate` writes to the
  child's stdin.
- `Filter` (`filter.dfy`) models `Environment.convert`. It picks the tag
  from a code block's classes and creates each tag's interpreter at most
  once. It rewrites the block into itself followed by a code block with
  empty attributes that holds the interpreter's answer. `Rewrite` is the
  specification on a registry value, and `Environment.Convert` is the
  stateful method proved against it.

Some parts of the source are modelled as parameters:

- The marker is a parameter of the model. In the source it is drawn at
  random. `IsMagic` restricts it to the source's shape: the three
  characters `` ~`; `` followed by 29 ASCII letters.
- An interpreter is named by the id it was created with.
- What an interpreter answers for a piece of code is the function parameter
  `communicate`.
- The source's `None` for "no run held" is the empty string. The source
  never holds an empty run, so nothing is lost.

## Model

| member | source | states |
|---|---|---|
| Matcher.IsMagic | pandoc_runblocks.py:14 | A predicate with no contract. It gives the shape of `MAGIC`: 32 characters, `` ~`; `` followed by 29 ASCII letters. Every marker-specific lemma requires it. |
| Matcher.Step | pandoc_runblocks.py:41-49 | One pass of the loop body. Its own contract says only that the queue grows by at most one entry. What the step does in full is stated by `Matcher.StepSpec`. |
| Matcher.Run | pandoc_runblocks.py:40-49 | The `for` loop over a finite stream. It has no contract of its own. Its properties are `Matcher.RunKeepsShape`, `Matcher.RunAppend` and `Matcher.RunIsSegment`. |
| Matcher.StepSpec | pandoc_runblocks.py:41-49 | One character either extends the held run, completes the marker, or flushes the run. Completing the marker enqueues nothing, drops the run and clears `running`. A flush appends exactly the old run plus the new character, and only when that is no longer a prefix of the marker. No other step changes `running`. No character is lost. The held run stays a proper prefix of the marker, and what is enqueued is a chunk. |
| Matcher.RunKeepsShape | pandoc_runblocks.py:40-49 | Over any stream the held run stays empty or a proper prefix of the marker. The queue is only appended to, and every entry appended is a chunk. `running` is never set to true. |
| Matcher.RunAppend | pandoc_runblocks.py:40 | Feeding `a + b` is feeding `a` and then `b`. |
| Matcher.RunHeld | pandoc_runblocks.py:42-44 | A proper prefix of the marker, fed from an empty run, is held back whole and enqueues nothing. |
| Matcher.MarkerRecognised | pandoc_runblocks.py:42-46 | The marker, fed from an empty run, is recognised: nothing is enqueued, nothing is held and `running` is cleared. |
| Matcher.MatchLengthIsCommonPrefix | pandoc_runblocks.py:42 | `MatchLength` is the length of the longest common prefix of the marker and the input: the prefixes agree and the next characters differ. |
| Matcher.RunBreaks | pandoc_runblocks.py:47-49 | A run that breaks after its longest common prefix with the marker leaves as one chunk, breaking character included. |
| Matcher.SegmentSpellsInput | pandoc_runblocks.py:40-49 | The front-to-back cut loses, duplicates and reorders nothing: its pieces, with the marker written back in, followed by the held tail, spell the input. |
| Matcher.ChunksAreTextWithoutMarkers | pandoc_runblocks.py:48 | The concatenated chunks are the pieces written out with every recognised marker deleted. |
| Matcher.RunIsSegment | pandoc_runblocks.py:40-49 | From an empty run, the character-at-a-time matcher ends holding the cut's tail. It has enqueued exactly the cut's chunks, in order. It has cleared `running` exactly when the cut contains a recognised marker. |
| Matcher.OrderAndContent | pandoc_runblocks.py:40-49 | The queue grows by exactly the cut's pieces with every recognised marker deleted. Those pieces with the markers put back, followed by the run still held, give the input itself. `running` ends cleared if and only if a marker was recognised. |
| Matcher.ChunkHoldsNoMarker | pandoc_runblocks.py:41-48 | No enqueued chunk is the marker or longer than it, so no chunk contains the marker. |
| Matcher.SegmentWithoutOpener | pandoc_runblocks.py:47-49 | Input in which no character equals the marker's first character is cut into one-character chunks: piece `i` is the chunk holding the input's character `i`. There is no marker and nothing is held. |
| Matcher.NotKmp | pandoc_runblocks.py:41-49 | After a mismatch the breaking character is not looked at again. For `"~"` followed by the marker, `"~~"` leaves as one chunk, and each later character `k` of the marker leaves as the one-character chunk at queue position `k` after the old queue. The marker is not recognised, `running` is untouched, nothing is held and the queued text is `"~"` followed by the marker. |
| InterpreterProcess.EchoCommand | pandoc_runblocks.py:54 | `echocmd.format(magic=MAGIC)` for a command with one `{magic}` field. The marker stands right after the text before the field, and the length is the sum of the three parts. |
| InterpreterProcess.StdinText | pandoc_runblocks.py:52-55 | The text written to stdin has the input first, unchanged, closed by a newline. Between that newline and the final newline stands exactly the echo command, with the marker at its stated offset. The length of the text is stated exactly. |
| InterpreterProcess.PythonEchoIsPlainLiteral | pandoc_runblocks.py:73 | For a marker of the source's shape, the Python echo command `print("…")` is one line that holds the marker at index 7. Its only double quotes are the two around the marker, and it holds no backslash, so the child prints the marker exactly. |
| InterpreterProcess.Interpreter.StdinFor | pandoc_runblocks.py:52-55 | What `communicate` writes to this interpreter's stdin, built from its own stored echo command and marker. The input comes first and is closed by a newline. Then comes exactly this interpreter's echo command, carrying its own marker at the stated offset, and a final newline. |
| InterpreterProcess.Interpreter.constructor | pandoc_runblocks.py:28-31 | A new interpreter holds nothing, has an empty queue and is not running. |
| InterpreterProcess.Interpreter.Feed | pandoc_runblocks.py:41-49 | The loop body on the fields is exactly `Step`, and it keeps the held-run and chunk invariant. |
| InterpreterProcess.Interpreter.EndOfStream | pandoc_runblocks.py:38-40 | At the end of the stream the held run is dropped, not queued. The queue and `running` are unchanged. |
| InterpreterProcess.Interpreter.QueueOutput | pandoc_runblocks.py:37-49 | One pass of the drain over a finite stream starts from no held run. It leaves the fields at `Run` over the stream, and then the held run is dropped. |
| Filter.Interpreters | pandoc_runblocks.py:76 | A constant with no contract: `INTERPRETERS`, the single tag `python` with the command `python -qi` and the echo command `print("{magic}")`. |
| Filter.KnownClasses | pandoc_runblocks.py:87 | The known classes are exactly the block's classes that are keys of `INTERPRETERS`, and there are no more of them than classes. |
| Filter.KnownClassesAppend | pandoc_runblocks.py:87 | The known classes of two lists joined are the known classes of each, joined. Together with the membership clause of `KnownClasses`, this means the list comprehension keeps the block's order. |
| Filter.FirstKnownClass | pandoc_runblocks.py:87 | The first known class is a class of the block, and no class before it is known. |
| Filter.SelectTag | pandoc_runblocks.py:86-89 | There is no tag exactly when no class is known. Otherwise the tag is a key of `INTERPRETERS` and the first known class in the block's order. |
| Filter.Lookup | pandoc_runblocks.py:90-94 | After the lookup the tag is registered, and the interpreter returned is the one registered for it. |
| Filter.LookupSpec | pandoc_runblocks.py:90-94 | A registered tag leaves the registry unchanged. A missing tag creates exactly one interpreter, whose id no other tag has. Either way every tag registered before keeps its interpreter. The registered tags grow by this tag only, and the registry stays valid. |
| Filter.LookupAllKeeps | pandoc_runblocks.py:90-94 | Over a run of lookups every tag seen is registered and earlier registrations are kept. Each lookup is answered by the interpreter its tag has at the end. |
| Filter.LookupAllValid | pandoc_runblocks.py:90-94 | Over a run of lookups the registry stays valid: one interpreter per created id and no id shared by two tags. |
| Filter.LookupAllCreates | pandoc_runblocks.py:90-94 | Over a run of lookups exactly one interpreter is created per distinct tag that was not registered before. |
| Filter.LookupAllReuses | pandoc_runblocks.py:90-94 | Two lookups in a run get the same interpreter if and only if they are for the same tag. |
| Filter.Rewrite | pandoc_runblocks.py:83-96 | Elements other than code blocks, and code blocks with no known class, give `None` and create nothing. Otherwise the registry is the lookup of the tag. The result is the original block followed by a code block with empty attributes holding the tag's interpreter's answer to the code. The registry stays valid. |
| Filter.RewriteAll | pandoc_runblocks.py:83-96 | `convert` applied to a document's code blocks in order. The registry stays valid, and there is one result per block. |
| Filter.SelectedTags | pandoc_runblocks.py:86-89 | The tags `convert` selects over a run of code blocks. There are no more tags than blocks, and every tag is a key of `INTERPRETERS`. |
| Filter.RewriteAllIsLookupAll | pandoc_runblocks.py:83-96 | Over a document's code blocks the filter's registry ends as the lookups of the selected tags leave it. So the registry clauses of `LookupAllKeeps` and the count of `LookupAllCreates` describe the filter's own run. |
| Filter.RewriteAllKeeps | pandoc_runblocks.py:90-94 | Over a document's code blocks, every tag registered before the run keeps its interpreter. |
| Filter.RewriteAllAnswers | pandoc_runblocks.py:83-96 | Over a document's code blocks, `Answers` holds for every block against the final registry. So each block with a known class becomes itself followed by a code block with empty attributes. That block holds the answer, to the block's code, of the interpreter its tag has at the end of the run. As a consequence, not a clause of the contract: `RewriteAll` keeps the final registry valid, so distinct tags have distinct ids, and two blocks are answered by the same interpreter exactly when their tags are equal. |
| Filter.SameTagSameInterpreter | pandoc_runblocks.py:90-96 | A second code block with the same tag is answered by the interpreter the first block used and creates nothing. |
| Filter.Environment.constructor | pandoc_runblocks.py:80-81 | A new environment has no interpreters. |
| Filter.Environment.Convert | pandoc_runblocks.py:83-96 | `convert` on the environment's fields is exactly `Rewrite` on its old registry, and it keeps the registry valid. |

## Left out

- The child process is not modelled: `subprocess.Popen`, `shlex.split` of the command line and the writes to stdin. `StdinText` gives only the text that is written.
- The drain thread, `running_lock` and the `queue.Queue` are not modelled. The wait in `communicate` (lines 57-68) is not modelled either: its timed `get`, the `running` check and the final drain depend on thread timing. What `communicate` returns is the function parameter `communicate` of `Rewrite` and `Convert`.
- Nothing in the source sets `running` to true, so `communicate` stops after the first 0.5-second wait with an empty queue. The model states this through `RunKeepsShape` (`running` is never set) and does not model the timing.
- The `while True` around the drain (line 38) restarts matching from no held run each time the stream ends. `QueueOutput` models one pass over one finite stream. At end of file the source spins forever on an empty stream, and that is not modelled.
- The random draw of `MAGIC` (line 14) is not modelled: the marker is a parameter restricted by `IsMagic`.
- `str.format` is modelled only for an echo command with a single `{magic}` field, as `EchoTemplate`.
- `convert`'s `format` and `meta` parameters are unused by the source and are omitted.
- `pdf.toJSONFilter`, `main` and the version string are not part of this model.
- The repository's end-to-end tests, which drive pandoc on sample documents, are not part of this model.
- Filter.Rewrite: the interpreter's answer depends only on its id and the code, not on the code it ran before, because an interpreter's session history is not modelled.
- The registry in `Filter` names interpreters by id and is not linked to the `Interpreter` objects of `InterpreterProcess`.
