# rust-canto core in Dafny

This project models the core of rust-canto, a Cantonese annotator, and proves properties of the model. The core has three parts:

- **The dictionary trie and the segmenter** (`src/trie.rs`).
  - Single characters are inserted with weighted readings.
  - Words and lettered entries are inserted with appended readings.
  - Word frequencies are set.
  - `segment` splits a text into tokens by dynamic programming over the trie. It picks the fewest tokens first, then the highest total frequency.
- **The Jyutping to Yale converter** (`src/yale.rs`). It converts per syllable and per phrase, with tone numbers or tone diacritics.
- **Character classes** used by the segmenter's alpha-run rule (`src/utils.rs`).

`Token` (src/token.rs:3-9) is the datatype `Tokens.Token`. A new `TrieNode` (src/trie.rs:13-20) is the constant `TrieData.Fresh`: no children, no readings, no weights, frequency 0. The segmenter leaves every token's Yale field `None`; nothing in the repository's annotator fills it.

The files:

- `wrappers.dfy`: `Option`.
- `utils.dfy`: module `Utils`. It has `IsCjk`, `IsAlphaChar` and `IsConnector`. `char::is_alphanumeric` is a parameter `alnum`.
- `text.dfy`: module `Text`. These are the library string operations the converter uses, stated on `seq<char>`: `split_whitespace`, `join(" ")` and `replace`.
- `yale.dfy`: module `Yale`. The converter is pure functions, except `apply_diacritic`. That one is a method with the source's `marked` loop, proved equal to the function `DiacriticForm`.
- `tokens.dfy`: module `Tokens`, holding `Token`.
- `trie_data.dfy`: module `TrieData`.
  - The nodes of one trie sit in a sequence with the root first. A node's `children` map a character to a child index.
  - A ghost `keys` sequence records the word that leads to each node. `Shaped` states that this is a tree.
  - `Lookup`, `EntryOf` and `Present` are the walk and the entry a word has.
  - The node updates are `AddChild`, `SetEntry`, `AddReading` and `InsertWeighted`, with lemmas on what each changes.
- `segmentation.dfy`: module `Segmentation`.
  - It defines what `segment` computes, without its loops.
    - The admissible pieces: a single character, a dictionary word with a reading, or an alpha run not in the dictionary.
    - Segmentations: chains of admissible pieces.
    - Their score: the number of tokens and the sum of the word frequencies.
    - `Optimal`: no segmentation scores better.
  - It also holds the table invariants of the dynamic programme (`Justified`, `Covered`, `KeepsFirstFound`, `Filled`). `CellsBeatChains` proves that the local choices are globally optimal.
- `trie.dfy`: module `Trie`, class `Trie`.
  - `nodes` is a field that the insert methods update in place. `Valid()` is the class invariant.
  - `Segment` fills `dp` and `track` arrays in place with the source's two nested loops, then reads the tokens back.

Its contract says:

- the pieces partition the text;
- every piece is admissible;
- no segmentation has fewer tokens, or as many tokens and a higher total frequency;
- ties go to the segmentation whose last token is shortest, at every token boundary;
- the tokens are the pieces' spans with their readings.

The doc comment on `segment` says a connector must have alphanumerics on both sides. It also says that "part-time" splits at the hyphen unless the dictionary has it. The code does something else: a span is an alpha run when every character is an alpha character or a connector and the first and last are alpha characters (src/trie.rs:198-203). So "part-time" and "a--b" are single alpha runs. The model follows the code, as `AlphaRunExamples` and `HyphenatedWordIsOneToken` state.

## Model

| member | source | states |
|---|---|---|
| Utils.IsCjk | src/utils.rs:3-13 | the seven CJK blocks with their exact boundaries (a definition; its properties are the rows that follow) |
| Utils.IsAlphaChar | src/utils.rs:18-20 | alphanumeric and not CJK (a definition) |
| Utils.IsConnector | src/utils.rs:26-28 | hyphen, underscore or apostrophe (a definition) |
| Utils.RareCharactersAreCjk | src/utils.rs:1-13 | U+20BA9 and U+20E4C, the two rare characters the doc comment names, are classified CJK |
| Utils.CjkBlockBoundaries | src/utils.rs:3-13 | each of the seven blocks includes its first and last code point, and the neighbours outside the blocks are not CJK |
| Utils.AlphaCharExcludesCjk | src/utils.rs:18-20 | an alpha character is alphanumeric and not CJK; no CJK ideograph is an alpha character |
| Utils.ConnectorsExactly | src/utils.rs:26-28 | the connectors are exactly `-`, `_` and `'`; `%` is not one; no connector is CJK |
| Text.RunLength | src/yale.rs:7 | the leading run has no whitespace and stops at whitespace or the end |
| Text.SplitWhitespace | src/yale.rs:7 | every part is non-empty and whitespace-free; no parts exactly when the input is all whitespace |
| Text.SplitJoinRoundTrip | src/yale.rs:7-22 | splitting a space-joined list of non-empty whitespace-free parts gives the list back |
| Text.MatchAtPrefix | src/yale.rs:79-84 | an occurrence of a pattern is an occurrence of each of its prefixes |
| Text.ReplaceAll | src/yale.rs:79-84 | a replacement as long as the pattern keeps the length |
| Text.ReplaceAllAbsent | src/yale.rs:79-84 | replacing a pattern that does not occur changes nothing |
| Text.ReplaceAllKeeps | src/yale.rs:79-84 | a property of every input character and of every replacement character holds for every output character |
| Yale.SplitTone | src/yale.rs:49-57 | `Some` exactly when the last character is an ASCII digit; then the input is the body followed by that digit |
| Yale.ConvertInitial | src/yale.rs:60-75 | the body is the Jyutping spelling of the returned Yale initial followed by the returned rest. When the body starts with an initial letter and not with `gw`, `kw` or `ng`, the initial spells that one letter (`j`, `ch`, `y`, or the letter itself) and the rest is the body after it |
| Yale.YaleLetter | src/yale.rs:65-72 | `z`, `c` and `j` become `j`, `ch` and `y`, and only those change; every Yale initial spells its Jyutping letter back |
| Yale.ClustersBeforeSingleLetters | src/yale.rs:61-64 | `gw`, `kw` and `ng` are taken as whole initials, ahead of `g`, `k` and `n` |
| Yale.VowelOnset | src/yale.rs:68-74 | the initial is empty exactly when the body is empty or starts with no initial letter; then the rest is the whole body |
| Yale.InitialLetters | src/yale.rs:60-75 | every Yale initial is made of lower-case ASCII letters |
| Yale.ConvertFinal | src/yale.rs:78-87 | the rewrites keep the length of the final |
| Yale.FinalWithoutOeUnchanged | src/yale.rs:78-87 | a final without `oe` and `eo` is unchanged |
| Yale.FinalWithoutO | src/yale.rs:78-87 | a final without `o`, such as every `aa` final, is unchanged |
| Yale.FinalRewriteEoi | src/yale.rs:80 | `eoi` becomes `eui` |
| Yale.FinalRewriteOeng | src/yale.rs:81 | `oeng` becomes `eung` |
| Yale.FinalRewriteOek | src/yale.rs:82 | `oek` becomes `euk` |
| Yale.FinalRewriteOe | src/yale.rs:83 | `oe` becomes `eu` |
| Yale.FinalRewriteEon | src/yale.rs:84 | `eon` becomes `eun` |
| Yale.FinalRewriteEot | src/yale.rs:84 | `eot` becomes `eut` |
| Yale.ConvertFinalKeeps | src/yale.rs:78-87 | the rewrites only bring in the letters `e u i n g k` |
| Yale.CollapseBareAa | src/yale.rs:36-39 | the result is `a` exactly for `aa` and `a`; every other final is kept |
| Yale.SplitNucleusCoda | src/yale.rs:92-100 | the final is the nucleus followed by the coda. The coda is `ng`, `p`, `t`, `k`, `m`, `n` or empty, and it is empty exactly when the final ends with none of them |
| Yale.CodaDetermined | src/yale.rs:92-99 | any split of the final into a nucleus and such a coda is the one `split_nucleus_coda` returns |
| Yale.ToneMark | src/yale.rs:112-120 | tones 1, 2, 4 and 5, and only those, carry a mark, and it is a combining mark |
| Yale.FirstVowel | src/yale.rs:124-135 | the index found is within the nucleus |
| Yale.FirstVowelIsFirst | src/yale.rs:124-135 | the index found holds a vowel with no vowel before it; none is found only when the nucleus has no vowel |
| Yale.FirstVowelSnoc | src/yale.rs:127-135 | a character added to the nucleus keeps its first vowel, or becomes the first vowel |
| Yale.MarkFirstVowelSnoc | src/yale.rs:127-135 | one more round of the copy loop appends the character, plus the mark when it is the first vowel |
| Yale.DiacriticForm | src/yale.rs:108-144 | the diacritic form: the initial, the nucleus with the tone's mark after its first vowel, `h` for tones 4 and up, then the coda (a definition; its properties are the rows that follow) |
| Yale.ApplyDiacritic | src/yale.rs:108-144 | the loop's output is the initial, the nucleus with the mark after its first vowel, `h` for tones 4 and up, then the coda |
| Yale.MarksBetween | src/yale.rs:124-135 | a mark placed between two mark-free strings is the only thing stripping removes |
| Yale.MarkedNucleus | src/yale.rs:124-135 | stripping marks gives the nucleus back; exactly one mark is added when the tone has one and the nucleus has a vowel |
| Yale.DiacriticWithoutMarks | src/yale.rs:108-144 | without its marks the diacritic form is the initial, the nucleus, `h` for the low register, and the coda, with at most one mark |
| Yale.MarkFollowsFirstVowel | src/yale.rs:124-135 | the mark comes immediately after the first vowel of the nucleus |
| Yale.ConvertSyllable | src/yale.rs:26-46 | `None` exactly when the syllable does not end in an ASCII digit; the numeric form ends in that digit |
| Yale.NumericClean | src/yale.rs:26-46 | a whitespace-free syllable converts to a non-empty whitespace-free numeric syllable |
| Yale.FilterMap | src/yale.rs:12-15 | no longer than the input; empty exactly when every conversion fails; one result per syllable, in order, when all succeed |
| Yale.FilterMapAppend | src/yale.rs:12-15 | dropping is per element: filtering a concatenation concatenates the results |
| Yale.FilterMapKeeps | src/yale.rs:12-15 | a property of every produced value holds for every kept element |
| Yale.JyutpingToYale | src/yale.rs:6-24 | `None` exactly when no syllable converts, and so for all-whitespace input |
| Yale.NumericOutputResplits | src/yale.rs:6-24 | the numeric output splits back into exactly the converted syllables |
| Yale.JyutpingToYaleVec | src/yale.rs:148-161 | `None` exactly when no syllable converts; otherwise at least one and at most as many strings as syllables |
| Yale.VecAgreesWithPhrase | src/yale.rs:146-161 | the list is `None` exactly when the phrase is, and joining the list gives the phrase with diacritics |
| Yale.InitialExamples | src/yale.rs:170-172 | `zi1`, `ci1` and `ji1` become `ji1`, `chi1` and `yi1` |
| Yale.LowRegisterExamples | src/yale.rs:202-210 | with diacritics, `haam4` becomes `hàahm`, `hok6` becomes `hohk` and `ngo5` becomes `ngóh`, each mark a combining code point after its vowel |
| Yale.HighRegisterExamples | src/yale.rs:195-200 | with diacritics, `si1` becomes `sī`, `jat1` becomes `yāt` and `hou2` becomes `hóu`, each mark a combining code point after its vowel |
| Yale.MultiSyllableExample | src/yale.rs:182-186 | `gwong2 dung1 waa2` becomes `gwong2 dung1 wa2` |
| Yale.DroppedSyllableExample | src/yale.rs:12-15 | a syllable without a tone digit is dropped from a phrase |
| TrieData.LookupSnoc | src/trie.rs:58-60 | walking one more character follows that character's edge from the node reached so far |
| TrieData.MissingExtension | src/trie.rs:71-75 | once the walk falls off the trie, no extension of the word is found |
| TrieData.LookupKey | src/trie.rs:5-10 | in a tree, the node a word reaches is that word's node |
| TrieData.AddChildLookup | src/trie.rs:38 | adding a missing child makes exactly one more word reachable |
| TrieData.AddChildShaped | src/trie.rs:38 | adding a child keeps the tree shape |
| TrieData.AddChildEntries | src/trie.rs:38 | adding a child changes no word's entry; the new node is empty; only the new word becomes present |
| TrieData.SetEntryLookup | src/trie.rs:61-64 | updating a node's entry changes no walk |
| TrieData.SetEntryEntries | src/trie.rs:61-64 | updating a node's entry changes that word's entry only, and no word's presence |
| TrieData.AddReading | src/trie.rs:61-64 | the reading is present afterwards; old readings keep their order; it is appended only when absent; weights and freq stay |
| TrieData.AddReadingKeeps | src/trie.rs:92-94 | appending keeps an entry consistent, adds no other reading, and keeps the primary (first) reading |
| TrieData.FirstLower | src/trie.rs:41-45 | the position found holds the first weight strictly lower than the new one; none is found when no weight is lower |
| TrieData.InsertWeightedPanics | src/trie.rs:41-47 | `insert_char` fails on a consistent entry exactly when the reading is new, no weight is lower, and some reading has no weight |
| TrieData.InsertAt | src/trie.rs:46-47 | `Vec::insert`: the element is at the index, with the elements before and after it shifted |
| TrieData.InsertWeighted | src/trie.rs:40-48 | the node update of `insert_char` (a definition; its properties are the rows around it) |
| TrieData.InsertWeightedPresent | src/trie.rs:40 | a reading already present leaves the entry unchanged |
| TrieData.InsertWeightedPlacement | src/trie.rs:40-48 | the reading and the weight go in at the same position. Every weight before it is at least as heavy (equal weights stay in insertion order) and every weight after it is lighter. The entry stays consistent and freq stays |
| Segmentation.Better | src/trie.rs:236-242 | fewer tokens wins; at the same count the higher frequency wins (a definition; its properties are in the next row) |
| Segmentation.BetterIsStrictTotalOrder | src/trie.rs:236-242 | `better` is irreflexive (so a tie keeps the current cell), asymmetric, transitive and total |
| Segmentation.PlusKeepsOrder | src/trie.rs:184 | adding the same piece to two scores keeps their order |
| Segmentation.Total | src/trie.rs:99-101 | the score counts one token per piece |
| Segmentation.TokensOf | src/trie.rs:219-231 | one token per piece, with the piece's reading and the Yale field `None` |
| Segmentation.TokensPartition | src/trie.rs:218-232 | the tokens' words concatenate to exactly the text the pieces cover |
| Segmentation.FilledExtend | src/trie.rs:143-216 | filling cell `k` without touching earlier cells extends the filled prefix of the table |
| Segmentation.CoverOneMore | src/trie.rs:162-215 | after trying one more start, no piece from that start or later improves the cell |
| Segmentation.KeepFirstOneMore | src/trie.rs:162-215 | the cell is kept, or taken over by a strictly better piece from the current start. So every piece starting later than the recorded one stays strictly worse |
| Segmentation.CellsBeatChains | src/trie.rs:143-216 | if no piece improves a cell from where it starts, no chain of pieces improves any cell |
| Segmentation.LaterLastStartLoses | src/trie.rs:162-215 | a segmentation of a prefix whose last piece starts after the recorded one scores strictly worse than the cell |
| Segmentation.ReadBackStep | src/trie.rs:221-230 | reading back one more recorded piece keeps every cell's score equal to the score of the pieces up to it |
| Segmentation.TiesFromTable | src/trie.rs:162-232 | the pieces read back break ties towards the shortest last token at every boundary |
| Segmentation.TableOptimal | src/trie.rs:97-101 | a segmentation scoring the final cell of a filled table is optimal |
| Segmentation.OptimalMeans | src/trie.rs:99-101 | an optimal segmentation has the fewest tokens, and the highest total frequency among those with that many |
| Segmentation.Singles | src/trie.rs:143-159 | one piece per character |
| Segmentation.SinglesSegment | src/trie.rs:143-159 | single characters always form a segmentation, so every cell is reachable |
| Segmentation.AtMostOneTokenPerCharacter | src/trie.rs:143-159 | an optimal segmentation has at most as many tokens as characters |
| Segmentation.WholeSpanPiece | src/trie.rs:125-127 | a whole input that is a dictionary word with a reading, or an alpha run, is one admissible piece |
| Segmentation.WholeMatchIsOneToken | src/trie.rs:114-127 | such an input is segmented as one token |
| Segmentation.AlphaRunExamples | src/trie.rs:194-203 | `part-time`, `rust_canto`, `i'm` and `a--b` are alpha runs; `-abc`, `abc-` and `3%` are not |
| Segmentation.HyphenatedWordIsOneToken | src/trie.rs:114-124 | `part-time` is one token whether or not the dictionary has it |
| Trie.Trie.constructor | src/trie.rs:13-32 | a valid trie in which no word has an entry |
| Trie.Trie.EntriesConsistent | src/trie.rs:37-95 | in a valid trie every word's readings are distinct, and its weights are non-increasing and no more numerous than its readings |
| Trie.Trie.Child | src/trie.rs:38 | the child for `c` is found or created; no entry changes; only that word becomes present |
| Trie.Trie.Reach | src/trie.rs:57-60 | the walk ends at the word's node, creating the missing nodes; no entry changes; only the word's prefixes become present |
| Trie.Trie.Store | src/trie.rs:61-64 | the word's entry is replaced; nothing else changes |
| Trie.Trie.InsertChar | src/trie.rs:37-49 | the one-character word's entry becomes the weighted insertion of the reading; every other entry is unchanged |
| Trie.Trie.InsertPath | src/trie.rs:87-94 | the word's entry gets the reading appended if absent; every other entry is unchanged |
| Trie.Trie.InsertWord | src/trie.rs:53-65 | fewer than two characters change nothing; otherwise the reading is appended if absent, one node per character |
| Trie.Trie.InsertLettered | src/trie.rs:83-95 | the empty word changes nothing; any other word, even one character long, gets the reading appended if absent |
| Trie.Trie.InsertFreq | src/trie.rs:69-78 | a word not in the trie changes nothing; otherwise only its freq changes; no node is created |
| Trie.Trie.Probe | src/trie.rs:174-192 | the walk over the span finds the span's dictionary hit: its first reading and its frequency |
| Trie.Trie.Offer | src/trie.rs:184-188 | the cell takes the candidate exactly when it is better, and records the piece; only that cell changes |
| Trie.Trie.Fallback | src/trie.rs:148-159 | the cell gets the single character, with its first reading if the dictionary has one |
| Trie.Trie.TryStart | src/trie.rs:163-214 | a dictionary hit is offered, or else an alpha run; afterwards neither improves the cell |
| Trie.Trie.Sweep | src/trie.rs:162-215 | after trying every start from right to left, no piece improves the cell, and later-starting pieces are strictly worse |
| Trie.Trie.Relax | src/trie.rs:143-215 | each cell is reached, justified by its recorded piece, and not improvable |
| Trie.Trie.Fill | src/trie.rs:139-216 | every cell of the table is reached, justified, not improvable, and keeps the first piece found among ties |
| Trie.Trie.ReadBackTokens | src/trie.rs:218-232 | following `track` back from the end gives a segmentation of the whole text whose score is the final cell, and its tokens |
| Trie.Trie.Segment | src/trie.rs:135-233 | the tokens come from admissible pieces and their words concatenate back to the input exactly; no segmentation is better; ties go to the shortest last token |

## Left out

- Canonical composition (NFC) of the Yale output (src/yale.rs:22 and 157) needs the Unicode composition tables. The model's diacritic output keeps each combining mark as its own code point, right after its base vowel: this is what the composition step receives.
- `char::is_alphanumeric` needs the Unicode letter and digit tables. It is the parameter `alnum` throughout.
- src/lib.rs is not part of this model. It builds the trie from dictionary files embedded at compile time, segments the input and serialises the tokens with serde (src/lib.rs:16-54). It never calls the Yale converter, so every token's Yale field stays `None` (src/trie.rs:227), as `Segmentation.TokensOf` states.
- Token is a plain datatype; its serde renaming is left out.
- Widths: `u32` weights are `nat` and `i64` frequencies are `int`. The model does not capture overflow of the frequency sum, which the source does not guard either.
- The `usize::MAX` marker of an unreached `dp` cell is `None`.
- Trie.Trie.InsertChar: `Vec::insert` past the end panics. The method requires the exact condition under which the source does not panic (`CanInsertWeighted`; see `InsertWeightedPanics`). A panic happens when `insert_lettered` has given a single character readings without weights, and `insert_char` then adds a new reading with no lighter weight.
- Trie.Trie.InsertChar: the source keeps `readings` and `char_weights` the same length only while no word or lettered entry has appended to the node. The model's invariant is the weaker one that holds in general: the weights belong to the first readings and are no more numerous.
- HashMap children are a map from character to node index, over one node sequence. The model does not capture per-node ownership or the iteration order of the map, neither of which the source depends on.
- The nested walk that `insert_word` and `insert_lettered` share is factored into `Reach` and `Store`. The walk inside `segment` is factored into `Probe`, `Offer`, `Fallback`, `TryStart`, `Sweep`, `Relax`, `Fill` and `ReadBackTokens`, and each follows the source's statements in order.
- Trie.Trie.Segment: the source pushes tokens and then reverses them; the model prepends each token, which gives the same sequence.
- Trie.Trie.Segment: the segmentation pieces are a ghost out-parameter that describes the tokens. The tokens themselves are computed as the source computes them.
- Yale.ConvertInitial: the loop over the thirteen same-spelled initials is a test of the first letter. Each of those initials is one letter, so the first prefix that matches is the first letter.
- Yale.ConvertSyllable: `split_tone` is modelled on code points. The source slices off one byte, which is the same for an ASCII digit.
