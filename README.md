# Restoration of obfuscated Korean — a Dafny model

This project models the deterministic core of a pipeline that restores
obfuscated Korean review texts. It covers two parts.

**Lexical pre-pass** (`word_preprocessing.py`):
- A word-to-word dictionary is built from aligned training pairs. Each
  input/output pair is split on whitespace, the two word lists are zipped,
  and a later write to the same word replaces an earlier one.
- `replace_words` then rewrites a text word by word. A word found in the
  dictionary is replaced; any other word is kept. The result is joined with
  single spaces.

**LLM restoration wrapper** (`chatgpt.py`, class `TextRestorationSystem`):
- `_create_system_prompt` builds the few-shot system prompt: a fixed
  instruction header, then at most five examples.
- `_analyze_patterns` lists three things about the input: its special
  characters, the adjacent equal pairs of every word, and the last two
  characters of every word longer than two.
- `restore_text` post-processes the model's reply. It strips whitespace,
  deletes every `복원 결과: ` label, then strips quote characters. If the
  call fails, it falls back to the input text.

Files:
- `wrappers.dfy`: `Option` and `Result`.
- `text.dfy`: Python's `str.split()`, `' '.join`, `zip` and `str.strip`,
  with the whitespace set of `str.isspace`. It proves the round trip
  `Split(Join(ws)) == ws`, and that splitting loses only whitespace.
- `lexical_mapper.dfy`: the dictionary builder as a loop, proved equal to a
  last-write-wins specification over the zipped word pairs. It also holds
  `replace_words` and the properties of both.
- `restoration.dfy`: the prompt builder, the pattern analysis, the
  post-processing and `restore_text`'s control flow.

Modelling choices:
- `str.isalnum` depends on Unicode tables. It is a parameter
  `isAlnum: char -> bool`, so every property holds whatever the table says.
- The completion call is outside the model. Its outcome is an input of type
  `Reply`: either the call raised, or it returned a message whose content may
  be `None`.
- Python's `str.replace` is modelled as a left-to-right scan that deletes
  each occurrence and resumes after it (`RemoveLabel`).
- The prompt lemmas are stated for an arbitrary header string.
  `SystemPrompt` uses the fixed header `PromptHeader()`, the exact text of
  chatgpt.py:45-56.

The dictionary stores every zipped pair, so unchanged words map to
themselves. For ("안뇽 세상", "안녕 세상") it stores "세상" → "세상" as well
as "안뇽" → "안녕" (`ScenarioSubstitution`).

## Model

| member | source | states |
|---|---|---|
| Text.IsSpace | word_preprocessing.py:9-10 | the separators of `str.split()` and what `str.strip()` removes: the characters `str.isspace` accepts (a predicate; `SplitTokens` and `Strip` use it) |
| Text.Split | word_preprocessing.py:9-10 | `str.split()`: its words are tokens (`SplitTokens`), split back a join of tokens (`SplitJoin`), and concatenated give the text without whitespace (`SplitKeepsCharacters`) |
| Text.Join | word_preprocessing.py:18 | `' '.join`: undone by `Split` for every list of tokens (`SplitJoin`) |
| Text.SplitKeepsCharacters | word_preprocessing.py:9-10 | the words of `str.split()`, concatenated, are the non-whitespace characters of the text in their original order |
| Text.NonSpace | word_preprocessing.py:9-10 | the kept characters are no more than the text's and none of them is whitespace |
| Text.NonSpaceAppend | word_preprocessing.py:9-10 | the non-whitespace characters of a concatenation are those of each part, in order |
| Text.NonSpaceOfWord | word_preprocessing.py:9-10 | a word without whitespace keeps all its characters |
| Text.TokenEnd | word_preprocessing.py:9-10 | the first word of a text ends at the first whitespace character, or at the end of the text |
| Text.SplitTokens | word_preprocessing.py:9-10 | every word `str.split()` returns is non-empty and holds no whitespace |
| Text.SplitJoin | word_preprocessing.py:16-18 | joining words with single spaces and splitting again gives back the same words |
| Text.SplitToken | word_preprocessing.py:16 | a word followed by whitespace or by the end of the text is the first element of the split |
| Text.Zip | word_preprocessing.py:11 | `zip` pairs elements by index and stops at the shorter list |
| Text.LeadingRun | chatgpt.py:122 | the number of characters `strip` removes at the front: all of them are stripped characters and the next one is not |
| Text.TrailingRun | chatgpt.py:126 | the number of characters `strip` removes at the back: all of them are stripped characters and the one before is not |
| Text.Strip | chatgpt.py:122-126 | `strip` returns the slice of its input after the leading run of stripped characters; everything before and after that slice is a stripped character, and the slice neither starts nor ends with one |
| Text.StripKeeps | chatgpt.py:122-126 | a string that neither starts nor ends with a stripped character is returned unchanged |
| LexicalMapper.SplitPairs | word_preprocessing.py:8-10 | each training pair is split into two word lists, one result per pair |
| LexicalMapper.Entries | word_preprocessing.py:8-11 | the writes of the loop, in order: the zipped word pairs of every training pair (`EntriesSnoc`) |
| LexicalMapper.LastWins | word_preprocessing.py:12 | the dictionary a sequence of writes leaves, the last write of a key winning (`LastWinsKeys`, `LastWinsLast`, `LastWinsProvenance`, `LastWinsAppend`) |
| LexicalMapper.Build | word_preprocessing.py:8-12 | the dictionary of split training pairs: its keys and values by `BuildKeys`, `BuildProvenance` and `BuildLastWriteWins` |
| LexicalMapper.Mapping | word_preprocessing.py:6-12 | the dictionary of the training texts, which `BuildMapping` computes and `MappingIsTokenMapping` bounds |
| LexicalMapper.WritePair | word_preprocessing.py:11-12 | the inner loop adds the zipped word pairs to the dictionary, later pairs overwriting earlier ones |
| LexicalMapper.BuildMapping | word_preprocessing.py:6-12 | the dictionary the loop builds is the last-write-wins map of all zipped word pairs, in training order |
| LexicalMapper.EntriesSnoc | word_preprocessing.py:8-11 | one more training pair appends its zipped word pairs to the write sequence |
| LexicalMapper.LastWinsSnoc | word_preprocessing.py:12 | one more write updates exactly that key |
| LexicalMapper.WriteStep | word_preprocessing.py:12 | one more write from the inner loop updates exactly that key of the dictionary so far |
| LexicalMapper.LastWinsAppend | word_preprocessing.py:8-12 | writing two sequences one after the other is the first map overridden by the second |
| LexicalMapper.LastWinsKeys | word_preprocessing.py:12 | a key is in the dictionary if and only if some write stored it |
| LexicalMapper.LastWinsLast | word_preprocessing.py:12 | the value of a key is the one its last write stored |
| LexicalMapper.LastWinsProvenance | word_preprocessing.py:12 | every value in the dictionary was stored by some write of that key |
| LexicalMapper.MappingEmpty | word_preprocessing.py:6 | with no training pairs the dictionary is empty |
| LexicalMapper.BuildSnoc | word_preprocessing.py:8-12 | one more training pair overrides the dictionary with its own zipped word pairs |
| LexicalMapper.BuildKeysWritten | word_preprocessing.py:8-12 | every key comes from some input word that was zipped with an output word |
| LexicalMapper.BuildKeysComplete | word_preprocessing.py:8-12 | every input word that was zipped with an output word is a key |
| LexicalMapper.BuildKeys | word_preprocessing.py:8-12 | a word is a key if and only if some training pair zips it with an output word |
| LexicalMapper.BuildProvenance | word_preprocessing.py:8-12 | each stored value is the output word zipped with that key in some training pair |
| LexicalMapper.BuildLastWriteWins | word_preprocessing.py:8-12 | the value of a key is the output word of its last occurrence, by pair and then by position |
| LexicalMapper.MappingIsTokenMapping | word_preprocessing.py:9-12 | every key and every value of the built dictionary is a single word |
| LexicalMapper.Lookup | word_preprocessing.py:17 | `match_dict.get(word, word)` returns the word itself or a value stored in the dictionary |
| LexicalMapper.ReplaceTokens | word_preprocessing.py:17 | the replaced word list, one entry per word (`ReplaceWordsTokens` states it position by position) |
| LexicalMapper.ReplaceWords | word_preprocessing.py:15-18 | `replace_words`: its words are the replaced input words (`ReplaceWordsTokens`), it only normalises spacing for unmapped texts (`ReplaceWordsUnmapped`), and it is idempotent for self-mapped values (`ReplaceWordsIdempotent`) |
| LexicalMapper.ReplaceWordsTokens | word_preprocessing.py:15-18 | with a dictionary of single words, the output has as many words as the input, and word i is the replacement of input word i or that word itself |
| LexicalMapper.ReplaceWordsWithBuiltMapping | word_preprocessing.py:15-20 | with the built dictionary, `replace_words` keeps the number of words |
| LexicalMapper.ReplaceWordsUnmapped | word_preprocessing.py:17 | a text none of whose words is a key only has its whitespace normalised to single spaces |
| LexicalMapper.ReplaceWordsEmptyMapping | word_preprocessing.py:15-18 | with an empty dictionary, `replace_words` only normalises whitespace |
| LexicalMapper.ReplaceWordsIdempotent | word_preprocessing.py:15-18 | if every replacement maps to itself, replacing twice equals replacing once |
| LexicalMapper.MappingOfJoinedTexts | word_preprocessing.py:8-10 | texts written as words joined by spaces give the dictionary of those word lists |
| LexicalMapper.LastWinsTwo | word_preprocessing.py:12 | two writes: the second overrides the first when the keys agree |
| LexicalMapper.BuildOnePair | word_preprocessing.py:8-12 | a single training pair gives the last-write-wins map of its zipped words |
| LexicalMapper.ScenarioSubstitution | word_preprocessing.py:8-18 | ("안뇽 세상", "안녕 세상") maps "안뇽" to "안녕" and "세상" to itself; "안뇽 친구" becomes "안녕 친구" |
| LexicalMapper.ScenarioLastWriteWins | word_preprocessing.py:8-12 | "가" written as "A" by one pair and "C" by a later pair ends as "C" |
| LexicalMapper.ScenarioMismatchedLengths | word_preprocessing.py:11 | word lists of unequal length are zipped up to the shorter one |
| Restoration.ExampleBlock | chatgpt.py:60 | the f-string `입력: {input}\n출력: {output}\n\n` of one example, placed by `PromptLayout` |
| Restoration.ExampleBlocks | chatgpt.py:59-60 | the blocks of a list of examples in order (`ExampleBlocksAppend`, `BlocksAround`) |
| Restoration.WithExamples | chatgpt.py:44-60 | a header followed by the blocks of the first five examples (`PromptLayout`, `PromptIgnoresRest`, `PromptUsesAll`) |
| Restoration.SystemPrompt | chatgpt.py:42-62 | the prompt with the fixed header of chatgpt.py:45-56, which `CreateSystemPrompt` computes |
| Restoration.ExampleBlocksSnoc | chatgpt.py:59-60 | one more example appends its block to the prompt |
| Restoration.AppendExampleBlocks | chatgpt.py:59-60 | the loop appends one `입력: …\n출력: …\n\n` block per example, in order |
| Restoration.CreateSystemPrompt | chatgpt.py:42-62 | the prompt is the fixed header followed by the blocks of `examples[:5]` |
| Restoration.ExampleBlocksAppend | chatgpt.py:59-60 | the blocks of two example lists are the blocks of each list, one after the other |
| Restoration.BlocksAround | chatgpt.py:59-60 | the block of example i lies between the blocks before it and those after it |
| Restoration.PromptLayout | chatgpt.py:44-62 | each of the first min(5, n) examples appears once, in order, after the header |
| Restoration.PromptIgnoresRest | chatgpt.py:59 | examples after the fifth never change the prompt |
| Restoration.PromptUsesAll | chatgpt.py:59 | with at most five examples every one of them is in the prompt |
| Restoration.SpecialChars | chatgpt.py:67 | every collected character is neither alphanumeric nor one of ` .,!?` |
| Restoration.SpecialCharsCount | chatgpt.py:67 | every such character is collected exactly as often as it occurs in the text, and no other character is collected |
| Restoration.SpecialCharsAppend | chatgpt.py:67 | the special characters of a concatenation are those of each part, in order |
| Restoration.RepeatsUpTo | chatgpt.py:76-78 | every recorded repeat is two equal characters |
| Restoration.RepeatIndices | chatgpt.py:76-77 | the scanned indices i with `word[i] == word[i+1]` are listed, each once, in increasing order |
| Restoration.RepeatsAtIndices | chatgpt.py:76-78 | the repeats of a word are exactly the slices `word[i:i+2]` at those indices, one per index and in order |
| Restoration.WordRepeats | chatgpt.py:76-78 | the repeats of one word: no more entries than characters, each two equal characters, exactly the slices at the equal-adjacent indices (`RepeatsAtIndices`) |
| Restoration.PairedSnoc | chatgpt.py:76-78 | scanning one more index keeps every recorded repeat equal to the slice at its index |
| Restoration.WordRepeatsShort | chatgpt.py:76 | a word of at most one character has no repeats |
| Restoration.WordRepeatsTriple | chatgpt.py:76-78 | overlapping pairs count separately: "aaa" yields "aa" twice |
| Restoration.RepeatedChars | chatgpt.py:74-78 | every entry of `repeated_chars` is two equal characters |
| Restoration.WordEndings | chatgpt.py:81-82 | `word_endings` has at most one entry per word, each of two characters |
| Restoration.RepeatedCharsAppend | chatgpt.py:74-78 | the repeats of two word lists are those of each list, word by word |
| Restoration.WordEndingsAppend | chatgpt.py:74-82 | the endings of two word lists are those of each list, word by word |
| Restoration.WordEndingsOfWord | chatgpt.py:81-82 | a word adds its last two characters exactly when it is longer than two |
| Restoration.PatternsSnoc | chatgpt.py:74-82 | one more word appends its repeats and its ending |
| Restoration.AnalyzePatterns | chatgpt.py:64-84 | the three lists are the special characters of the text, and the repeats and endings of its words in order |
| Restoration.RemoveLabel | chatgpt.py:125 | deleting the label never makes the text longer |
| Restoration.RemoveLabelShrinks | chatgpt.py:125 | a text that contains the label loses at least one whole occurrence |
| Restoration.RemoveLabelIdentity | chatgpt.py:125 | the text comes back unchanged if and only if it does not contain the label |
| Restoration.RemoveLabelFirst | chatgpt.py:125 | the first occurrence is deleted, everything before it is kept as it is, and the scan resumes after it |
| Restoration.PostProcess | chatgpt.py:122-126 | the post-processed reply is empty or neither starts nor ends with a quote character |
| Restoration.PostProcessSlice | chatgpt.py:122-126 | the post-processed reply is the slice of the trimmed, label-free reply left after cutting quote characters, and only quote characters, from both ends |
| Restoration.PostProcessUnchanged | chatgpt.py:122-126 | a reply without whitespace or quotes at its ends and without the label comes back unchanged |
| Restoration.RemoveLabelUnchanged | chatgpt.py:125 | a reply that does not contain the label is left as it is |
| Restoration.RemoveLabelLeading | chatgpt.py:125 | a leading label is deleted |
| Restoration.RemoveLabelKeep | chatgpt.py:125 | a character that does not begin a label is kept |
| Restoration.RemoveLabelLeavesLabel | chatgpt.py:125 | the deletion is not exhaustive: "복원 " + label + "결과: " becomes the label itself |
| Restoration.Restored | chatgpt.py:122-132 | what `restore_text` returns for a reply (`RestoredFallback`, `RestoredFromContent`) |
| Restoration.RestoredFallback | chatgpt.py:130-132 | when the call raises or the content is None, the input text comes back unchanged |
| Restoration.RestoredFromContent | chatgpt.py:122-128 | a reply with content gives the post-processed content, with no quote at either end |
| Restoration.RestoreTextAsWritten | chatgpt.py:86-132 | as written: with `examples=None` the call fails with a TypeError; otherwise it returns the restored reply |
| Restoration.RestoreText | chatgpt.py:86-132 | with a missing example list read as empty, always returns the restored reply or the input unchanged |

## Left out

- The completion request (chatgpt.py:114-120), its parameters and the
  network. The reply is an input of type `Reply`.
- The user message (chatgpt.py:95-112) and `json.dumps` of the patterns. They
  only feed the external call. `AnalyzePatterns` computes the patterns and the
  model proves what they contain.
- The `print` in the exception handler (chatgpt.py:131). It is output only.
- `_initialize_char_mapping` and `_initialize_common_patterns`
  (chatgpt.py:16-40). They build constants that nothing in the core reads.
- `main`, the CSV reading and writing of both scripts, the random sampling of
  examples, and `gemini.py`. These are I/O and a second provider wrapper.
  The model takes the training pairs and the texts as values.
- `test['input'].apply(...)` (word_preprocessing.py:20). This maps
  `replace_words` over a column. The model proves the per-text properties.
- Missing cells (NaN) in the CSV files. They would raise in `split()`. The
  model only has strings.
- `str.isalnum` as a Unicode table. It is a parameter of the model.
- LexicalMapper.ReplaceWordsTokens: requires a dictionary whose values are
  single words. A value with spaces would split into several words.
  `MappingIsTokenMapping` proves that every built dictionary meets this.
- Restoration.PostProcess: its contract states the quote-free ends and
  `PostProcessSlice` the rest, but not the absence of the label. That
  stronger property is false: `RemoveLabelLeavesLabel` shows that one
  deletion can create a new occurrence of the label.
- The three LexicalMapper scenarios are stated on word lists, not texts.
  `MappingOfJoinedTexts` carries them over to texts built by joining those
  words with spaces.

## Findings

| source | as written | input that shows it | evidently intended | confidence | as-written member | corrected member |
|---|---|---|---|---|---|---|
| chatgpt.py:59-89 | `restore_text(input_text)` uses the default `examples=None`, and `_create_system_prompt` slices `examples[:5]` before the `try` | `restore_text("맛있써요")` with `examples` omitted raises `TypeError: 'NoneType' object is not subscriptable` | a missing example list means no examples, and the call returns a string | high, not executed | Restoration.RestoreTextAsWritten | Restoration.RestoreText |
