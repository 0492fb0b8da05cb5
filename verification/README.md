# SaveTextFlorence, modelled in Dafny

`SaveTextFlorence` is a ComfyUI output node. It takes a batch of captions, for
example captions produced by Florence-2, and optionally rewrites each one.
It appends one record per caption to a text file in the output directory and
returns the list of captions it produced. This project models the node's
`write_text` operation and the helpers it calls. It proves what they compute.

- `strings.dfy` (module `Strings`) holds the character classes and string
  helpers that the regular expressions and `str.strip()` rely on.
  - `\s` and `\w` are restricted to ASCII.
  - `strip()` is characterised completely.
- `caption.dfy` (module `Caption`) models `process_text`, which applies three
  rewrites in a fixed order.
  - **Style step.** The anchored regular expression
    `^(The image is|The image shows)\s+` is replaced by the style and one
    space. A greedy `\s+` consumes the whole whitespace run. "The image
    shows" is reached by backtracking.
  - **Gender/age step.** Two global replacements run one after the other:
    first the `a (young |middle-aged |blonde )?(woman|man)` pattern, then the
    `an` pattern, each delimited by word boundaries.
    - `MatchLength` is the deterministic per-position matcher.
    - `OccursAt` states what the pattern means.
    - `ReplaceFrom` is the left-to-right, non-overlapping scan of `re.sub`.
  - **Trigger step.** The stripped trigger and a space are prepended.
- `normalizer.dfy` (module `Normalizer`) models the first half of
  `write_text`.
  - Each of the seven inputs is wrapped into a list.
  - `_extend_list` then pads every list to the longest length.
- `files.dfy` (module `Files`) models the output directory.
  - It is a map from file name to contents.
  - Files are only ever appended to, and any single append may fail.
- `node.dfy` (module `SaveTextNode`) models the node itself.
  - The class-level memo cache is a field of type `map<Batch, seq<string>>`.
  - `WriteText` is the method. `WriteItems` is its per-item loop.
- `examples.dfy` (module `CaptionExamples`) holds concrete captions, derived
  from the general lemmas.

The cache key is the MD5 digest of the padded lists serialised as JSON. Here
that digest is taken to be injective, so the key is the padded lists
themselves (`SaveTextNode.Key`). In the flag list, the `""` that pads an
empty list is kept apart from `False`, because the two serialise
differently. The batch that drives processing uses `false` for that padding,
as both are falsy.

The invariant `SaveTextFlorence.Valid` says that every cached list is exactly
what processing its batch yields. `WriteText` preserves it. Because of it, a
cache hit returns the same list a fresh run would.

Two consequences of the code are worth noting:

- "an old man" is kept unchanged. The word between the article and the noun
  must be one of the three descriptors (`CaptionExamples.OldManKept`).
- A scalar other than `text` becomes `len(text)` copies of itself before
  padding (`Normalizer.ScalarInputsRepeat`).

The node has no nested-list unwrapping and no language-model rewrite.

## Model

| member | source | states |
|---|---|---|
| Normalizer.ExtendList | save_text_node.py:128-133 | the result has length max(len(lst), target), keeps `lst` as its prefix, and pads with the last element (or the empty value); a list already `target` long is returned as it is |
| Normalizer.WrapText | save_text_node.py:39-40 | no contract of its own; `Normalize` and `ScalarInputsRepeat` state what the wrapping gives |
| Normalizer.WrapOther | save_text_node.py:41-52 | no contract of its own; `ScalarInputsRepeat` states that a scalar fills every item |
| Normalizer.MaxLength | save_text_node.py:55-57 | `max_length` is at least every wrapped list's length and equals one of them |
| Normalizer.Normalize | save_text_node.py:39-65 | all seven lists get length `max_length`, each consisting of its wrapped input followed by padding; an empty flag list pads with `false` |
| Normalizer.Flags | save_text_node.py:43-65 | the padded flag list as the source holds it: the host's flags, then copies of the last one, or `""` (`Blank`) when the list was empty; each entry is truthy exactly when the batch's flag is set |
| Normalizer.PaddedFlags | save_text_node.py:131 | padding with `""` and padding with `false` agree on truthiness at every index |
| Normalizer.ScalarInputsRepeat | save_text_node.py:39-52 | when `text` wraps to a non-empty list, every input given as a scalar (including `text`) holds that value for every item of the batch |
| Normalizer.EmptyTextEmptyBatch | save_text_node.py:39-65 | an empty `text` list, with no other non-empty list, gives a batch with no items |
| Strings.WhitespaceRun | save_text_node.py:138 | the greedy `\s` run from `j` is all whitespace and stops at a non-whitespace character or the end |
| Strings.WhitespaceRunExact | save_text_node.py:138 | any maximal whitespace run from `j` is the run `\s+` consumes |
| Strings.TrimStart | save_text_node.py:151 | the result is a suffix of the input, only whitespace was removed, and it does not start with whitespace |
| Strings.TrimEnd | save_text_node.py:151 | the result is a prefix of the input, only whitespace was removed, and it does not end with whitespace |
| Strings.Strip | save_text_node.py:151 | `strip()` returns the part of the text between a whitespace prefix and a whitespace suffix, and that part neither starts nor ends with whitespace |
| Strings.StripExact | save_text_node.py:151 | any text of the form whitespace, core, whitespace strips to its core, where the core does not start or end with whitespace |
| Caption.StyleReplacesPhrase | save_text_node.py:137-138 | "The image is" or "The image shows", then a non-empty whitespace run, then the rest becomes style + " " + rest when the style is non-empty |
| Caption.StyleMatchOf | save_text_node.py:138 | a phrase followed by whitespace at the start is matched together with its whole whitespace run, including "The image shows" reached by backtracking |
| Caption.StyleKeepsOtherText | save_text_node.py:137-138 | with an empty style, or a text not opening with a phrase followed by whitespace, the text is unchanged |
| Caption.MatchLength | save_text_node.py:143-144 | a match starting at `i` ends within the text |
| Caption.OccursAtPieces | save_text_node.py:143-144 | the pattern occurs at `i` if and only if the article with its space, the descriptor and the noun stand one after another at `i`, with a word boundary on both sides |
| Caption.MatchIsOccurrence | save_text_node.py:143-144 | where the matcher finds a match, the pattern occurs there with some descriptor and noun, and the match length is the length of that occurrence |
| Caption.OccurrenceIsMatch | save_text_node.py:143-144 | where the pattern occurs, the matcher matches exactly that occurrence (the match at a position is unique) |
| Caption.NoOccurrenceWithoutArticle | save_text_node.py:143-144 | where the article followed by a space does not stand, nothing occurs |
| Caption.ReplaceFromCopies | save_text_node.py:147 | positions where nothing matches are copied to the output unchanged |
| Caption.ReplaceFromNoOccurrence | save_text_node.py:147 | a text with no occurrence from `k` on is copied unchanged |
| Caption.ReplaceFromLeftmost | save_text_node.py:146-147 | the leftmost occurrence is replaced verbatim, with its descriptor discarded; the text before it is copied; the scan resumes after it, so matches do not overlap |
| Caption.ReplaceAtOccurrence | save_text_node.py:147 | an occurrence at the scan position is replaced as a whole by the replacement |
| Caption.GenderAgeKeepsOtherText | save_text_node.py:141-147 | an empty replacement, or a text with no occurrence of either pattern, leaves the text unchanged |
| Caption.StyleMatchLength | save_text_node.py:138 | no contract of its own; `StyleMatchOf` gives its value after a phrase followed by whitespace, and `StyleKeepsOtherText` covers the other texts |
| Caption.StyleStep | save_text_node.py:137-138 | no contract of its own; `StyleReplacesPhrase` and `StyleKeepsOtherText` characterise it |
| Caption.ReplaceFrom | save_text_node.py:147 | no contract of its own; `ReplaceFromCopies`, `ReplaceAtOccurrence`, `ReplaceFromLeftmost` and `ReplaceFromNoOccurrence` characterise the scan |
| Caption.ReplaceAll | save_text_node.py:147 | no contract of its own; it is `ReplaceFrom` started at index 0 |
| Caption.GenderAgeStep | save_text_node.py:141-147 | no contract of its own; `GenderAgeKeepsOtherText` and `CaptionExamples.YoungWomanWalking` state what it does, through the `ReplaceFrom` lemmas |
| Caption.TriggerStep | save_text_node.py:150-151 | no contract of its own; `TriggerNotRewritten` and `BlankTriggerAddsSpace` state what it does |
| Caption.ProcessText | save_text_node.py:135-153 | no contract of its own; `ProcessTextIdentity` and `TriggerNotRewritten` state what it does |
| Caption.ProcessTextIdentity | save_text_node.py:135-153 | with every option empty, `process_text` returns its text |
| Caption.TriggerNotRewritten | save_text_node.py:149-153 | a non-empty trigger yields strip(trigger) + " " + what the text becomes without the trigger, so the trigger itself is never rewritten |
| Caption.BlankTriggerAddsSpace | save_text_node.py:150-151 | a trigger of whitespace only is non-empty, so it still prepends one space |
| CaptionExamples.StyleNeedsWhitespace | save_text_node.py:138 | "The image isolated on white" is not rewritten: the phrase must be followed by whitespace |
| CaptionExamples.OldManKept | save_text_node.py:141-147 | "an old man" is kept: "old" is not a descriptor |
| CaptionExamples.OldManHasNoA | save_text_node.py:143 | the `a` pattern occurs nowhere in "an old man" |
| CaptionExamples.OldManHasNoAn | save_text_node.py:144 | the `an` pattern occurs nowhere in "an old man" |
| CaptionExamples.YoungWomanWalking | save_text_node.py:141-147 | "a young woman walking" with replacement "person" becomes "person walking" |
| CaptionExamples.YoungWomanOccurs | save_text_node.py:143 | the `a` pattern occurs at the start of "a young woman walking", with the descriptor "young " and the noun "woman" |
| CaptionExamples.WalkingHasNoA | save_text_node.py:143 | the `a` pattern occurs nowhere in the tail " walking" |
| CaptionExamples.PersonWalkingHasNoAn | save_text_node.py:144 | the `an` pattern occurs nowhere in "person walking" |
| Files.Appended | save_text_node.py:108-111 | appending adds the data at the end of that file, creating the file if needed, and leaves every other file as it was |
| Files.AppendAll | save_text_node.py:106-115 | no contract of its own; `AppendAllStep`, `AppendAllContent` and `FailureIsolated` state what it does |
| Files.AppendAllStep | save_text_node.py:107-115 | one more attempted append extends the files produced by the earlier items |
| Files.GainedSnoc | save_text_node.py:107-115 | what a file gains from a sequence of appends is what it gains from all but the last, followed by what it gains from the last |
| Files.AppendAllContent | save_text_node.py:106-115 | after the loop, each file holds its old contents followed by exactly the records successfully appended to it, in item order |
| Files.FailureIsolated | save_text_node.py:107-115 | a failed append changes only its own file: every other file ends up the same as if the append had succeeded |
| Files.FileStore.constructor | save_text_node.py:87 | the output directory starts with the given files |
| Files.FileStore.Append | save_text_node.py:107-115 | an append either adds all of the record at the end of its file or changes nothing |
| SaveTextNode.NormalizeKeepsLiteral | save_text_node.py:59-65 | padding keeps the style and gender/age replacements free of backslashes |
| SaveTextNode.Processed | save_text_node.py:89-103 | one output per item, in item order: the rewritten caption when replacement is enabled for the item, the caption itself otherwise |
| SaveTextNode.Records | save_text_node.py:109-111 | item `i`'s record is "positive: " + output + newline, "negative: " + negative prompt + newline, and the separator line |
| SaveTextNode.ItemOutput | save_text_node.py:93-101 | no contract of its own; `Processed` states it per item |
| SaveTextNode.Record | save_text_node.py:109-111 | no contract of its own; `Records` states it per item |
| SaveTextNode.CacheKey | save_text_node.py:122-126 | no contract of its own; `CacheKeyInjective` and `BlankPaddingKeyedApart` state it |
| SaveTextNode.CacheKeyInjective | save_text_node.py:122-126 | two calls share a cache key if and only if their padded lists are equal, the flag padding included |
| SaveTextNode.BlankPaddingKeyedApart | save_text_node.py:122-133 | an empty flag list and an explicit `[False]` give the same batch but different keys, so the second call misses the cache |
| SaveTextNode.SaveTextFlorence.constructor | save_text_node.py:35 | the cache starts empty and satisfies the memo invariant |
| SaveTextNode.SaveTextFlorence.WriteText | save_text_node.py:37-120 | the result is the processed batch. On a hit, the cache and the files are unchanged. On a miss, the cache gains exactly the new key mapped to the result, and the files are the old files with every successful record appended. The memo invariant is kept |
| SaveTextNode.WriteItems | save_text_node.py:86-115 | the loop yields the processed batch in item order; the files become the old ones with item `i`'s record appended to `file[i]` whenever that append succeeded |
| SaveTextNode.WriteItem | save_text_node.py:90-111 | one iteration: the output of item `i` is its processed caption, and its file either gains the item's record at its end or is unchanged |
| SaveTextNode.WriteTwice | save_text_node.py:82-84 | two calls with the same key return equal lists; the second leaves the files and the cache as the first left them, and its result is the one cached |

## Left out

- The output directory lookup, path joining, `open`/`write`, and the
  progress and error messages are I/O. The directory is a map from file name
  to contents, and each append succeeds or fails nondeterministically.
- The reasons an append fails are not modelled.
- A record is added in one step. A failure after one or two of the three
  writes, which would leave part of a record in the file, is not modelled.
- `json.dumps` and `hashlib.md5` are not modelled. The cache key is the
  padded lists themselves, so a hash collision is not modelled.
- Files are identified by the name `file[i]`, not by the path
  `os.path.join(output_dir, file[i])`. Path aliasing is not modelled: "a.txt"
  and "./a.txt" are two files here, and an absolute name that leaves the
  output directory is treated like any other name.
- The node's registration metadata is not modelled: `INPUT_TYPES`,
  `RETURN_TYPES`, `IS_CHANGED` and the class mappings.
- Caption.ProcessText: replacement strings holding a backslash are excluded
  by a precondition. `re.sub` reads such strings as templates with escapes
  and group references, and that template language is not modelled.
- SaveTextNode.SaveTextFlorence.WriteText: the same precondition applies to
  the style and gender/age inputs.
- `\s`, `\w`, `\b` and `str.strip()` are restricted to ASCII. Unicode
  whitespace and Unicode letters are not modelled.
- Normalizer.ExtendList returns the padded list. It does not model that
  `_extend_list` extends the caller's list in place.
  - The host's input lists are therefore not shown to change.
  - A cached list that a later caller mutates is not modelled.
- `_extend_list` pads an empty list with `""`.
  - The batch that drives processing pads the flag list with `false`: as a
    condition, `""` is falsy.
  - The cache key keeps that `""` as `Blank` (`Normalizer.Flags`).
- The tuple `(processed_texts,)` is returned as the list it wraps.
- The cache is a class-level dictionary shared by every instance. It is
  modelled as the field of one object.
- Concurrent calls are not modelled.
