# CLIP tokenizer and text batching, modelled in Dafny

This project models the text side of the onnxCLIP inference library:

- the CLIP byte-pair-encoding tokenizer (`CLIPTokenizer`):
  - its byte-to-symbol table (`bytes_to_unicode`) and that table's inverse;
  - reading the merges file (`open_bpe`);
  - building the vocabulary, the encoder and the decoder;
  - text cleaning (`basic_clean`, `whitespace_clean`, lower-casing);
  - the pre-tokenizing regular expression;
  - the pair set and BPE merge loop with its cache (`get_pairs`, `bpe`);
  - `encode`, `decode` and `encode_text`;
- `OnnxClip::toBatches`, which cuts a list into batches;
- the step of `OnnxClip::getTextEmbeddings` that tokenizes every text into a row of 77 ids and lays the rows out flat.

Modules follow the program's structure:

| module | file | what it holds |
|---|---|---|
| `Wrappers` | wrappers.dfy | `Option` and `Result` |
| `Seqs` | seqs.dfy | flattening and mapping sequences, index maps (`m[xs[i]] := i` in order) |
| `Text` | text.dfy | code-point strings, C-locale whitespace, splitting on whitespace (`istream >>`), joining with spaces, replacing `</w>` |
| `Clean` | clean.dfy | `basic_clean`, `whitespace_clean`, ASCII lower-casing |
| `ByteTable` | byte_table.dfy | `bytes_to_unicode` and its inverse |
| `Merges` | merges.dfy | `open_bpe` over the lines of the file, and the merge ranks |
| `Vocabulary` | vocabulary.dfy | the vocabulary layout, the encoder and the decoder |
| `PreTokenizer` | pretokenizer.dfy | the tokenizing regular expression walked by `sregex_iterator` |
| `Bpe` | bpe.dfy | `get_pairs`, the merge loop, the cached `bpe` |
| `Tokenizer` | tokenizer.dfy | the tokenizer object: construction, `encode`, `decode`, `encode_text` |
| `ClipModel` | clip_model.dfy | `toBatches`, and tokenizing a list of texts into one flat id tensor |

Text handling:

- Input text is a sequence of bytes, as in a `std::string`.
- The vocabulary's symbols are sequences of code points.
- Whitespace is the C-locale class: space, and 9 to 13. `basic_clean` lists these characters; the `\s` of `whitespace_clean` and the `>>` extraction use `isspace`.
- The pattern is a `std::regex` over bytes, and its ECMAScript grammar has no `\p{…}` escape. What a given library makes of the classes `[\p{L}]` and `[\p{N}]` is left open: a `CharClass` holds two predicates on bytes that stand for those two classes, whatever reading the library gives them (a lenient one reads `[\p{L}]` as a literal character set).

The tokenizer object:

- `ClipTokenizer` is an immutable value holding the merges, ranks, encoder, decoder and cache.
- `bpe` and `encode` return the updated cache with their result, instead of mutating a field.
- `Tokenizer.Valid` is the invariant construction establishes and encoding preserves.
- Every encoding result equals `Tokenizer.EncodeReference`, a cache-free reference definition.

Where the code departs from its evident intent, the model states both (see "## Findings"). The rest of the model uses the corrected behaviour:

- the byte table maps bytes to printable symbols;
- `bpe_ranks` holds each merge's position in the file;
- the merge loop merges the best pair;
- `encode` remaps each byte of a token through the byte table (`Tokenizer.ByteEncode`). The source's loop at src/inference/tokenizer.cpp:203-207 is marked as a simplification and copies each byte unchanged, which agrees with the as-written identity table but not with the intended one.

Points where the code is easy to misread:

- **Merge lines.** A merge line contributes the first two whitespace-separated fields of any line that has at least two; a longer line is not skipped (`Merges.LineWithFields`).
- **Vocabulary order.** The vocabulary interleaves each byte symbol with its `</w>` form, in the iteration order of an `unordered_map`. That order is unspecified, so it is a parameter (`Vocabulary.IsByteOrder`).
- **End-of-word symbols.** With merges `l o` then `lo w`, "low" becomes `lo w</w>`, because the word's last symbol is `w</w>` and the second merge never applies (`Bpe.LowWithBareMerge`). A second merge `lo w</w>` does give `low</w>` (`Bpe.LowWithEndMerge`).
- **Caching.** A one-character token returns early and is not cached (`Bpe.BpeCached`).

## Model

| member | source | states |
|---|---|---|
| ByteTable.ByteToSymbol | src/inference/tokenizer.cpp:88-101 | a printable byte (33-126, 161-172, 174-255) stands for itself; the n-th unprintable byte stands for 256+n; every symbol is in 33..323 and never whitespace |
| ByteTable.UnprintableBelowValue | src/inference/tokenizer.cpp:94-101 | the counter n reached at byte b has a closed form: b below 33, then 34 more up to 161, then one more for 173 |
| ByteTable.SymbolRoundTrip | src/inference/tokenizer.cpp:13-15 | the decoder maps every byte's symbol back to that byte, and maps a symbol to a byte exactly when that byte encodes to it |
| ByteTable.ByteToSymbolInjective | src/inference/tokenizer.cpp:85-108 | distinct bytes get distinct symbols, so the table can be inverted |
| ByteTable.EncoderDecoderInverse | src/inference/tokenizer.cpp:10-15 | byte_decoder's keys are exactly byte_encoder's values, and the two maps undo each other in both directions |
| ByteTable.PrintableBytes | src/inference/tokenizer.cpp:89-92 | the initial list holds exactly the printable bytes |
| ByteTable.UnprintablesMembers | src/inference/tokenizer.cpp:95-101 | the bytes appended below b are exactly the unprintable bytes below b |
| ByteTable.ExtendBytes | src/inference/tokenizer.cpp:89-101 | after the extension loop every byte 0..255 is in bs, and each is paired with its symbol |
| ByteTable.BytesToUnicode | src/inference/tokenizer.cpp:85-108 | the intended table: every byte 0..255 is a key and maps to its printable symbol |
| ByteTable.BytesToUnicodeAsWritten | src/inference/tokenizer.cpp:103-105 | as written, the final loop overwrites every entry with the byte itself |
| ByteTable.AsWrittenKeepsSpace | src/inference/tokenizer.cpp:103-105 | as written, byte 32 maps to a whitespace character, where the intended symbol is 288 |
| Merges.ParseLine | src/inference/tokenizer.cpp:67-73 | one line yields at most one merge, and it is two non-empty, space-free symbols |
| Merges.LineWithFields | src/inference/tokenizer.cpp:71-72 | a line of two or more fields yields its first two fields; extra fields are ignored |
| Merges.SkipShortLine | src/inference/tokenizer.cpp:71 | a line with fewer than two fields adds nothing and leaves the other lines' merges as they were |
| Merges.ParseBodyAppend | src/inference/tokenizer.cpp:66-74 | lines are read independently: parsing a concatenation concatenates the results |
| Merges.ParseMerges | src/inference/tokenizer.cpp:62-74 | the first line is discarded, so a file of one line gives no merge and there are fewer merges than lines |
| Merges.ParseMergesFile | src/inference/tokenizer.cpp:49-80 | writing a header and one line per well-formed merge and reading the file back gives the merges, in order |
| Merges.Ranks | src/inference/tokeniser.h:35 | a pair is ranked exactly when it is a merge, and its rank is a position where it occurs |
| Merges.RankIsPosition | src/inference/tokeniser.h:35 | with distinct merges, a merge's rank is its line position |
| Merges.RanksInjective | src/inference/tokenizer.cpp:160-167 | distinct ranked pairs have distinct ranks, so the lowest-ranked pair is unique |
| Vocabulary.BaseEntries | src/inference/tokenizer.cpp:25-28 | the base part has two entries per byte: its symbol, then its symbol followed by `</w>` |
| Vocabulary.VocabLayout | src/inference/tokenizer.cpp:23-36 | the vocabulary has 514 + merges entries: 512 byte entries, then each merge's concatenation in order, then the two special tokens |
| Vocabulary.VocabCoversSymbols | src/inference/tokenizer.cpp:24-36 | every byte symbol (bare and with `</w>`), every merge result and both special tokens are in the vocabulary |
| Vocabulary.Encoder | src/inference/tokenizer.cpp:39-40 | the encoder's keys are exactly the vocabulary's entries, each mapped to a position holding it |
| Vocabulary.Decoder | src/inference/tokenizer.cpp:39-41 | the decoder's keys are exactly the vocabulary's positions |
| Vocabulary.DecoderUndoesEncoder | src/inference/tokenizer.cpp:39-42 | decoding an encoded entry gives the entry back |
| Vocabulary.EncoderUndoesDecoder | src/inference/tokenizer.cpp:39-42 | with distinct entries, encoding a decoded id gives the id back |
| Vocabulary.SpecialTokenIds | src/inference/tokenizer.cpp:35-42 | start-of-text has id 512 + merges and end-of-text has id 513 + merges |
| Vocabulary.BaseEntriesDistinct | src/inference/tokenizer.cpp:24-28 | the 512 byte entries are pairwise distinct |
| Vocabulary.VocabDistinct | src/inference/tokenizer.cpp:24-42 | distinct merge results that differ from the base and special entries give a vocabulary without duplicates |
| Clean.TrimLeft | src/inference/tokenizer.cpp:124 | the result is a suffix of the input that does not start with whitespace |
| Clean.TrimLeftDropsSpaces | src/inference/tokenizer.cpp:124 | everything removed at the front is whitespace |
| Clean.TrimRight | src/inference/tokenizer.cpp:125 | the result is a prefix of the input that does not end with whitespace |
| Clean.TrimRightDropsSpaces | src/inference/tokenizer.cpp:125 | everything removed at the end is whitespace |
| Clean.BasicClean | src/inference/tokenizer.cpp:118-128 | the cleaned text neither starts nor ends with whitespace |
| Clean.WhitespaceCleanKeepsText | src/inference/tokenizer.cpp:130-134 | collapsing whitespace changes no character other than whitespace |
| Clean.CleanIsJoinedFields | src/inference/tokenizer.cpp:192 | cleaned text is its whitespace-separated fields joined by single spaces |
| Clean.CleanIdempotent | src/inference/tokenizer.cpp:192 | cleaning cleaned text changes nothing |
| Clean.CleanCollapsesRun | src/inference/tokenizer.cpp:130-134 | two whitespace characters in a row clean to the same text as one |
| Clean.CleanTrims | src/inference/tokenizer.cpp:123-125 | a leading or trailing whitespace character does not change the cleaned text |
| Clean.CleanAllSpaces | src/inference/tokenizer.cpp:118-134 | text of whitespace only cleans to the empty string |
| Clean.LowerUpper | src/inference/tokenizer.cpp:193 | lower-casing an upper-cased text equals lower-casing the text |
| Clean.CleanLowerCommute | src/inference/tokenizer.cpp:192-193 | lower-casing after cleaning equals cleaning after lower-casing |
| Text.FieldsSplitAtSpace | src/inference/tokenizer.cpp:213-215 | `>>` extraction splits at any whitespace character: the fields of a + [space] + b are those of a followed by those of b |
| Text.FieldsKeepNonSpace | src/inference/tokenizer.cpp:213-215 | the extracted fields, concatenated, are the text without its whitespace |
| Text.FieldsOfJoin | src/inference/tokenizer.cpp:178-181 | splitting symbols joined with single spaces gives the symbols back |
| Text.ReplaceEndOfWordAfter | src/inference/tokenizer.cpp:237 | each `</w>` becomes one space, and the text before it is unchanged |
| Text.ReplaceEndOfWordNoMarker | src/inference/tokenizer.cpp:237 | text without `</w>` is left as it is |
| PreTokenizer.ContractionAt | src/inference/tokenizer.cpp:7 | a contraction alternative matches exactly when some contraction starts the text, ignoring case; otherwise none does |
| PreTokenizer.RunLength | src/inference/tokenizer.cpp:7 | a `+` alternative consumes the longest run of its class |
| PreTokenizer.MatchAtSpec | src/inference/tokenizer.cpp:7 | a match starts at a character exactly when that character is not separating whitespace, and it consumes only such characters |
| PreTokenizer.SplitPieces | src/inference/tokenizer.cpp:196-200 | every token the iterator yields is non-empty and contains no separating whitespace |
| PreTokenizer.SplitKeepsText | src/inference/tokenizer.cpp:196-200 | the tokens, concatenated, are the text with only its separating whitespace removed |
| PreTokenizer.SplitOfSeparators | src/inference/tokenizer.cpp:196-199 | text of separators only yields no token |
| PreTokenizer.DigitAlone | src/inference/tokenizer.cpp:7 | a digit is always a token of its own (`[\p{N}]` has no `+`) |
| Bpe.InitialWordSpelling | src/inference/tokenizer.cpp:143-148 | the initial word spells the token followed by `</w>` |
| Bpe.InitialWordSymbols | src/inference/tokenizer.cpp:143-148 | the initial word is one symbol per character, with `</w>` attached to the last |
| Bpe.PairsCons | src/inference/tokenizer.cpp:110-116 | the pairs of a word are its first adjacent pair plus the pairs of the rest |
| Bpe.PairsEmpty | src/inference/tokenizer.cpp:151-155 | a word has no pairs exactly when it has fewer than two symbols |
| Bpe.BestPair | src/inference/tokenizer.cpp:159-171 | the chosen pair occurs in the word and has the lowest rank among its ranked pairs; none is chosen exactly when no pair is ranked |
| Bpe.MergePairSpelling | src/inference/tokenizer.cpp:173-174 | merging a pair does not change the word's spelling |
| Bpe.MergePairShrinks | src/inference/tokenizer.cpp:173-174 | merging a pair that occurs shortens the word |
| Bpe.MergePairRemovesPair | src/inference/tokenizer.cpp:173-174 | after the merge the pair no longer occurs |
| Bpe.MergePairLeftFirst | src/inference/tokenizer.cpp:173-174 | overlapping occurrences merge from the left: three equal symbols x become x+x followed by x |
| Bpe.MergePairSymbols | src/inference/tokenizer.cpp:173-174 | merging creates no symbol other than the merged one |
| Bpe.MergeLoopSpelling | src/inference/tokenizer.cpp:158-175 | the merge loop never changes the word's spelling |
| Bpe.MergeLoopDone | src/inference/tokenizer.cpp:158-171 | the loop ends with no ranked pair left in the word |
| Bpe.MergeLoopIdempotent | src/inference/tokenizer.cpp:158-175 | running the loop again on its result changes nothing |
| Bpe.MergeLoopStaysIn | src/inference/tokenizer.cpp:158-175 | the loop creates only symbols that are initial symbols or merge results |
| Bpe.MergeLoopSymbols | src/inference/tokenizer.cpp:158-175 | words of space-free symbols stay space-free |
| Bpe.SeedCache | src/inference/tokenizer.cpp:44-46 | the initial cache holds exactly the two special tokens, each mapped to itself |
| Bpe.SeedCacheSound | src/inference/tokenizer.cpp:44-46 | the initial cache agrees with the merge algorithm |
| Bpe.BpeCached | src/inference/tokenizer.cpp:136-186 | with a sound cache the result equals the cache-free merge result and the cache stays sound; a cached token is answered from the cache unchanged; a one-character token is not stored; a longer one is stored |
| Bpe.SingleSymbolReference | src/inference/tokenizer.cpp:151-155 | a one-character token becomes itself followed by `</w>` |
| Bpe.BpeTwice | src/inference/tokenizer.cpp:136-141 | asking twice gives the same answer, and the second call leaves the cache unchanged |
| Bpe.ReferenceFields | src/inference/tokenizer.cpp:177-181 | splitting the space-joined result gives the merged word back, and the word spells the token followed by `</w>` |
| Bpe.StubLoop | src/inference/tokenizer.cpp:158-175 | as written, the loop body never changes the word, so any result is the word unchanged |
| Bpe.StubLoopNeverEnds | src/inference/tokenizer.cpp:158-175 | as written, once a pair of the word is ranked the loop never terminates, for any fuel |
| Bpe.StubLoopHangsOnLow | src/inference/tokenizer.cpp:158-175 | as written, "low" with the merge `l o` does not terminate |
| Bpe.LowWithBareMerge | src/inference/tokenizer.cpp:143-175 | with merges `l o`, `lo w`, "low" becomes `lo` and `w</w>` |
| Bpe.LowWithEndMerge | src/inference/tokenizer.cpp:143-175 | with merges `l o`, `lo w</w>`, "low" becomes the single symbol `low</w>` |
| Bpe.UnrankedLeavesWord | src/inference/tokeniser.h:35 | with no ranks, the loop leaves every word as it is |
| Bpe.UnrankedLow | src/inference/tokenizer.cpp:177-181 | with no ranks, "low" comes out as `l o w</w>` |
| Tokenizer.Create | src/inference/tokenizer.cpp:5-47 | construction establishes the invariant; the merges are the parsed lines; the cache holds the two special tokens mapped to themselves |
| Tokenizer.ValidIds | src/inference/tokenizer.cpp:24-42 | the decoder's keys are 0 to 513 + merges; start-of-text is 512 + merges and end-of-text is 513 + merges; every byte symbol has an id |
| Tokenizer.ByteDecodeEncode | src/inference/tokenizer.cpp:202-207 | remapping a token's bytes and mapping back gives the bytes again |
| Tokenizer.ByteEncodeIsSymbol | src/inference/tokenizer.cpp:202-207 | a remapped non-empty token is a single space-free symbol |
| Tokenizer.LookupKnown | src/inference/tokenizer.cpp:213-219 | when every sub-token is in the encoder, each yields its id, in order |
| Tokenizer.LookupUnknown | src/inference/tokenizer.cpp:216 | sub-tokens that are all unknown yield no id |
| Tokenizer.LookupAppend | src/inference/tokenizer.cpp:213-219 | sub-tokens are looked up independently: the ids of a concatenation are the concatenated ids |
| Tokenizer.LookupDropsUnknown | src/inference/tokenizer.cpp:216 | an unknown sub-token among known ones is dropped silently and changes no other id |
| Tokenizer.EncodePieces | src/inference/tokenizer.cpp:199-222 | threading the cache through the tokens gives the cache-free ids and keeps the cache sound; earlier entries are kept |
| Tokenizer.Encode | src/inference/tokenizer.cpp:188-225 | encode returns the cache-free reference ids, keeps the invariant, changes only the cache and never forgets an entry |
| Tokenizer.EncodeBlank | tests/tokenizer_test.cpp:74-80 | empty or whitespace-only text encodes to no ids |
| Tokenizer.EncodeIgnoresCase | src/inference/tokenizer.cpp:193 | texts that agree after lower-casing encode alike |
| Tokenizer.EncodeUpper | src/inference/tokenizer.cpp:193 | upper-casing a text does not change its ids |
| Tokenizer.EncodeTestUpperCase | tests/tokenizer_test.cpp:110-119 | "test" and "TEST" encode to the same ids |
| Tokenizer.EncodeCollapsesRun | src/inference/tokenizer.cpp:130-134 | a run of two whitespace characters encodes like one |
| Tokenizer.EncodeTrims | src/inference/tokenizer.cpp:123-125 | leading and trailing whitespace does not change the ids |
| Tokenizer.PieceIdsKnown | src/inference/tokenizer.cpp:209-219 | every symbol BPE produces for a token is in the vocabulary, so nothing is dropped, and each id decodes to its symbol |
| Tokenizer.DecodeConcatAppend | src/inference/tokenizer.cpp:230-234 | decoding a concatenation of id lists concatenates the decoded strings |
| Tokenizer.DecodeIgnoresUnknown | src/inference/tokenizer.cpp:230-234 | an id the decoder does not know is skipped |
| Tokenizer.DecodeLookup | src/inference/tokenizer.cpp:213-234 | decoding the ids of known symbols gives the symbols concatenated |
| Tokenizer.PieceDecodes | src/inference/tokenizer.cpp:209-234 | the ids of a plain token decode to its remapped bytes followed by `</w>` |
| Tokenizer.DecodeIds | src/inference/tokenizer.cpp:227-240 | decoding the ids of plain tokens gives each remapped token followed by one space |
| Tokenizer.DecodeEncode | src/inference/tokenizer.cpp:188-240 | decode after encode gives the byte-remapped pre-tokenized pieces, each followed by a space; the remap is not undone |
| Tokenizer.SpacedSingleSpaces | src/inference/tokenizer.cpp:237 | pieces separated by one space each never show two whitespace characters in a row |
| Tokenizer.DecodeSingleSpaces | tests/tokenizer_test.cpp:97-107 | for text whose pieces are plain, the decoded text has no two whitespace characters in a row, so "    " never appears |
| Tokenizer.Window | src/inference/tokenizer.cpp:254-267 | the row has the context length, starts with start-of-text, holds the first ids up to length-2, then end-of-text, then zeros |
| Tokenizer.FillWindow | src/inference/tokenizer.cpp:254-269 | the filling loop produces exactly that row |
| Tokenizer.WindowUnique | src/inference/tokenizer.cpp:254-267 | the row is determined by those position constraints |
| Tokenizer.EncodeText | src/inference/tokenizer.cpp:242-270 | encode_text frames the encoded ids with start- and end-of-text at ids 512 + merges and 513 + merges, truncated and zero-padded to the context length |
| ClipModel.ToBatches | src/inference/model.cpp:196-217 | fails exactly when size < 1; otherwise the batches concatenate to the items, each holds 1 to size items, all but the last hold exactly size, and there are ceil(items / size) of them |
| ClipModel.BatchCount | src/inference/model.cpp:204-214 | full batches plus one partial batch is the ceiling of items over size |
| ClipModel.RowIgnoresCache | src/inference/model.cpp:103-106 | a text's row does not depend on the tokenizer's cache |
| ClipModel.RowsSnoc | src/inference/model.cpp:103-106 | tokenizing one more text appends its row |
| ClipModel.TokenizeAll | src/inference/model.cpp:103-106 | each text yields its 77-id row, in order, and the tokenizer keeps its invariant |
| ClipModel.FlattenRows | src/inference/model.cpp:109-112 | the flat vector is the rows concatenated in order |
| ClipModel.RowsLaidOut | src/inference/model.cpp:109-115 | the flat vector has 77 ids per text, and text i's row sits at positions 77i to 77i+76 |
| ClipModel.TextTokens | src/inference/model.cpp:103-115 | the input tensor has 77 × texts ids, and its i-th block of 77 is text i's encode_text row |

## Left out

- Opening the merges file is left out: the hard-coded path, and the error branch that returns on a failed open (src/inference/tokenizer.cpp:52-56). The model starts from the file's lines.
- The meaning of `[\p{L}]` and `[\p{N}]` in the regular expression is a parameter (`PreTokenizer.CharClass`), because it depends on the regex library. A strict ECMAScript implementation rejects `\p` with `std::regex_error` when the constructor compiles the pattern; `Tokenizer.Create` does not model that exception.
- The iteration order of the `unordered_map` that builds the base vocabulary is a parameter: the language leaves it unspecified.
- The byte-to-symbol table gives code points. Their UTF-8 bytes inside a `std::string` are not modelled, nor is `static_cast<char>` of a code point above 255 (the corrected table is stated on code points).
- `ftfy.fix_text` and HTML unescaping are not performed by the source (its `basic_clean` only trims), so they are not modelled.
- Thread safety of the shared cache is not modelled; the cache is a value threaded through calls.
- The ONNX sessions, OpenCV matrices, image preprocessing, model download and the embedding computation are outside this model. So is the batched path of `getTextEmbeddings`, which only feeds `toBatches` output to the same tokenizing step.
- Tokenizer.EncodeText: requires a context length of at least 2. Below that the source writes outside its result vector, which is undefined behaviour. The `truncate` flag is accepted and, as in the source, ignored.
- Tokenizer.DecodeEncode: stated for texts whose pieces are plain: non-empty, neither special token, and without the `</w>` marker inside. Other pieces decode with a special token or an extra space. `decode` never applies `byte_decoder`, so it does not undo the byte remap: a piece decodes to its byte-remapped symbols, which differ from its bytes for bytes 0-32, 127-160 and 173 (every byte of a non-ASCII UTF-8 character among them).
- Tokenizer.DecodeSingleSpaces: stated under the same plain-pieces condition.
- Tokenizer.ByteEncode: the model remaps each byte through the intended table, where the source's placeholder loop (src/inference/tokenizer.cpp:203-207) copies bytes unchanged. Ids therefore follow the corrected tokenizer, not the source's placeholder behaviour.
- ClipModel.ToBatches: the `invalid_argument` exception is the `Failure` value of a `Result`.
- Tokenizer.Encode: `bpe_ranks` is declared in the source as a map of maps, keyed differently from how it is looked up. The model keys it by pair, as the lookups at src/inference/tokenizer.cpp:162-165 use it.

## Findings

| source | as written | input that shows it | evidently intended | confidence | as-written member | corrected member |
|---|---|---|---|---|---|---|
| src/inference/tokenizer.cpp:103-105 | the final loop runs over the extended byte list and overwrites every entry of the table with the byte itself | byte 32 (space) maps to a space, which `>>` then splits on | printable bytes map to themselves and the n-th unprintable byte to 256+n, so space maps to 288 | not executed | ByteTable.AsWrittenKeepsSpace | ByteTable.BytesToUnicode |
| src/inference/tokenizer.cpp:158-175 | the loop body never merges the best pair, so the word never changes | merges ranking (`l`, `o`) and token "low": the pair stays ranked and the loop never ends | merge every occurrence of the best pair, recompute the pairs, and stop when none is ranked | not executed | Bpe.StubLoopHangsOnLow | Bpe.MergeLoopDone |
| src/inference/tokeniser.h:35 | `bpe_ranks` is never filled from the parsed merges, so every pair is unranked and BPE returns single characters | token "low" gives `l o w</w>` for any merges file | rank each merge by its position in the file | not executed | Bpe.UnrankedLow | Merges.RankIsPosition |
