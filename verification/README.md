# skkdic in Dafny

This project models the in-memory core of `skkdic`, a Go library that reads,
merges and writes SKK (Japanese input method) dictionaries. It states and
proves properties of the model.

A dictionary line is `headword /cand;annotation/cand/.../`. The library keeps
two partitions keyed by headword:

- **okuri-ari** holds the headwords whose first character is non-ASCII and that contain a lowercase ASCII letter anywhere, after at most one leading `>` or `#` is ignored. Examples are `おくr`, `>あr` and `あrい`;
- **okuri-nashi** holds all other headwords.

Dictionaries are merged line by line in one of three modes: addition,
subtraction, or intersection. Intersection marks texts, then cleans up at the
end of the read. The merged dictionary is written back as okuri-ari entries in
descending headword order, followed by okuri-nashi entries in ascending order.

Modules, one per file, follow the Go files:

| module | file | models |
|---|---|---|
| `Text` | text.dfy | control characters, first-occurrence search, `strings.Cut`, `strings.HasPrefix`, Go's string `<` |
| `Optional` | option.dfy | `Option` |
| `Candidates` | candidate.dfy | `Candidate`, `String`, `joinAnnotation`, the candidate-list scan, `joinCandidates` and the codec round trip |
| `CandidateParser` | candidate_parser.dfy | the two index-based passes of `parseCandidates` |
| `Entries` | entry.dfy | `entry` and its operations: add, remove, mark, `clean`, the comparators |
| `Classifier` | classifier.dfy | `isOkuriAri` |
| `OrderedKeys` | ordered_keys.dfy | the ascending and descending traversals of a partition |
| `Merge` | merge.dfy | `addEntry`, `subEntry`, `andEntry`, `cleanEntries` on one partition |
| `Dictionaries` | dictionary.dfy | `Dictionary`, `New`, `parseLine`, `processCandidates`, the line loop of `Read`, `Lookup`, `RemoveCandidates`, `Complete` |
| `Writer` | writer.dfy | `Write`, `writeEntry`, and reading the written dictionary back |

Modelling choices:

- **Strings are sequences of code points.** Every delimiter the parser tests is ASCII. UTF-8 continuation bytes are never ASCII, so on valid text the byte scan of the library and a scan over code points decide the same things. Byte order of UTF-8 also equals code-point order, so Go's string `<` is `Text.LexLess`.
- **Partitions are maps.** Each B-tree is a `map<string, Entry>`. Its traversals are `OrderedKeys.AscendingKeys` and `OrderedKeys.DescendingKeys`, and `OrderedKeys.AscendingUnique` shows that the traversal order is determined by the key set alone.
- **Value semantics.** Entries and candidates are immutable values, and every operation returns the new value.
- **`MergeMode` is an `int`.** `Add = 0`, `Sub = 1` and `And = 2`, so the Go `default:` branch (any other value adds) is modelled as written.
- **`Read` is a fold** over lines that are already decoded and split (`Dictionaries.ReadLines`). `Write` is a pure function to text (`Writer.Write`).
- **The annotation delimiter** (default `,`) is a plain field of the dictionary.

## Model

| member | source | states |
|---|---|---|
| Text.HasPrefix | skkdic.go:463 | `strings.HasPrefix`: the string begins with the prefix. Its meaning in `Complete` is stated by `Text.PrefixRange` |
| Text.LexLess | entry.go:65-71 | Go's string `<` on valid UTF-8: code-point lexicographic, with a proper prefix first. `Text.LexStrictTotalOrder` proves it a strict total order |
| Text.Cut | candidate.go:68 | splitting at the first separator: the part before it holds no separator, and rejoining the parts gives the input; without a separator the whole input is the first part and the rest is empty |
| Text.CutJoin | skkdic.go:328 | cutting `a + sep + b`, where `a` has no `sep`, gives back exactly `a` and `b` |
| Text.LexStrictTotalOrder | entry.go:65-71 | Go's string `<` is irreflexive, asymmetric, transitive and total on distinct strings |
| Text.LexNotBelowPrefix | skkdic.go:462 | a string that starts with `p` never sorts below `p`, so the range walk of `Complete` starting at `p` misses no extension of `p` |
| Text.PrefixRange | skkdic.go:462-463 | a key is in `[p, p + U+10FFFF)` exactly when it starts with `p` but not with `p + U+10FFFF` |
| Candidates.CandidateString | candidate.go:82-88 | with an empty annotation the serialised candidate is the text alone, otherwise text + `;` + annotation; it starts with the text and is empty exactly when both parts are |
| Candidates.CutInvertsCandidateString | candidate.go:68-72 | splitting `String()` at its first `;` gives back the candidate, for any text without `;` |
| Candidates.SegmentCandidate | candidate.go:68-72 | a segment's text holds no `;`; with a `;` the segment is text + `;` + annotation, otherwise the whole segment is the text and the annotation is empty |
| Candidates.JoinAnnotation | candidate.go:90-100 | the text is kept. An empty existing annotation is replaced by a non-empty incoming one; two non-empty, different annotations become existing + delimiter + incoming. The annotation changes exactly when the incoming one is non-empty and different. The old annotation is a prefix of the result and the incoming one a suffix |
| Candidates.ScanCandidates | candidate.go:10-80 | every decoded candidate has a text without `/` or `;` that starts with neither `[` nor a control character, and an annotation without `/` |
| Candidates.ScanSkipsChar | candidate.go:35-37 | outside a segment, a character other than `/` or a control character is skipped |
| Candidates.ScanSkipBlock | candidate.go:20-26 | `/[` skips to the next `]` and resumes the scan there |
| Candidates.ScanSegment | candidate.go:27-34 | a `/` followed by a non-empty segment yields the segment's candidate, and the scan resumes at the closing `/` |
| Candidates.ScanEmptySegment | candidate.go:30-32 | `//` is an empty segment and yields nothing |
| Candidates.ScanStops | candidate.go:13-19 | end of input, a control character, or a `/` followed by either ends the list |
| Candidates.LeadingTextIgnored | candidate.go:13-14 | any text before the first `/` that contains no control character does not change the result |
| Candidates.SlashThenEndStops | candidate.go:15-19 | a `/` at the end of input, or followed by a control character, yields no candidate, whatever follows |
| Candidates.EmptyListDecodesEmpty | candidate.go:40-42 | `//` decodes to no candidates |
| Candidates.SkipBlockDropped | candidate.go:20-26 | `/[...]` up to and including the next `]` contributes nothing, whatever it contains |
| Candidates.SkipBlockBetween | candidate.go:54-60 | `/x/[blk]/y/` decodes to exactly `[x, y]` |
| Candidates.SemicolonSegmentExample | candidate.go:64-72 | the segment `;` is not empty, so it yields a candidate whose text and annotation are both empty |
| Candidates.JoinCandidates | skkdic.go:193-208 | the empty list is written `//`; every encoded list starts and ends with `/` |
| Candidates.JoinCandidatesCons | skkdic.go:193-208 | one candidate is written `/` + `String()` + `/`, and a candidate in front of a non-empty list adds `/` + `String()` ahead of that list's encoding |
| Candidates.JoinBodyRoundTrip | skkdic.go:200-205 | each encodable candidate written as `/` + `String()` and closed by `/` decodes back to the same list |
| Candidates.RoundTrip | skkdic.go:193-208 | decoding `joinCandidates(cs)` gives `cs` back when every candidate is encodable: the text has no `/` or `;` and does not start with `[` or a control character, the annotation has no `/`, and `String()` is non-empty |
| CandidateParser.ScanTo | candidate.go:21-23 | the inner loop stops at the first occurrence of the sought character at or after its start, or at the end |
| CandidateParser.CountCandidates | candidate.go:11-38 | the first pass counts exactly the candidates the scan yields |
| CandidateParser.ParseCandidates | candidate.go:10-80 | both passes together, including the empty result when the count is zero, produce exactly the scan's candidates |
| Entries.FindText | entry.go:15-16 | the first index whose text matches; the length exactly when the text is absent |
| Entries.AddCandidate | entry.go:14-22 | a present text gets its annotation joined in place, with the length and every other candidate unchanged; an absent one is appended to the unchanged list. Candidates of other texts never change. The text set gains the text, the old texts keep their positions, and unique texts stay unique |
| Entries.AddCandidateJoins | entry.go:14-22 | with unique texts, adding `t;b` where `t` sits at index `i` replaces exactly that candidate by its annotation join |
| Entries.RemoveCandidateAt | entry.go:24-29 | an index outside the list changes nothing; otherwise exactly that index is removed and the others keep their order |
| Entries.RemoveCandidateAtInverse | entry.go:28 | putting the removed candidate back at its index restores the list |
| Entries.RemoveCandidate | entry.go:31-38 | the first candidate with the given text is removed, whatever the annotations; with no match nothing changes |
| Entries.RemoveCandidateIsKeep | entry.go:31-38 | with unique texts, removing by text keeps, in order, every candidate whose text differs |
| Entries.RemoveCandidateTexts | entry.go:31-38 | with unique texts, removal removes exactly that text from the text set and keeps texts unique |
| Entries.AndCandidate | entry.go:40-50 | the candidate list never changes, and the text is marked exactly when some candidate carries it |
| Entries.Clean | entry.go:52-63 | afterwards the candidates are exactly the marked ones, in their original relative order (`Keep`, whose order law is `KeepAppend`), and the mark set is empty; an unmarked entry loses all candidates |
| Entries.CleanInPlace | entry.go:52-63 | the in-place loop (step over a marked candidate, remove an unmarked one) computes `Clean` |
| Entries.KeepTextSet | entry.go:52-63 | the texts left after filtering are the old texts that are allowed |
| Entries.KeepUnique | entry.go:52-63 | filtering keeps texts unique |
| Entries.LessEntry | entry.go:65-67 | `lessEntry`: ascending order of headwords. Its order properties are stated by `Entries.EntryOrders` |
| Entries.LessEntryReverse | entry.go:69-71 | `lessEntryReverse`: descending order of headwords. Its order properties are stated by `Entries.EntryOrders` |
| Entries.EntryOrders | entry.go:65-71 | `lessEntry` is a strict order, total on distinct headwords, and `lessEntryReverse(a, b)` equals `lessEntry(b, a)` |
| Classifier.ContainsLower | utils.go:26-32 | true exactly when some character is a lowercase ASCII letter |
| Classifier.IsOkuriAri | utils.go:8-33 | a headword is okuri-ari exactly when, after at most one leading `>` or `#`, something remains, its first character is non-ASCII, and a lowercase ASCII letter occurs in the rest. In particular every okuri-ari headword contains a lowercase ASCII letter |
| Classifier.AsciiHeadwordNotOkuriAri | utils.go:22-24 | an all-ASCII headword is never okuri-ari |
| Classifier.MarkerStripped | utils.go:13-15 | a single leading `>` or `#` is transparent |
| Classifier.SecondMarkerNotStripped | utils.go:17-24 | only one marker is stripped, so `>>...` and `##...` are never okuri-ari |
| Classifier.OkuriAriStableUnderAppend | utils.go:26-32 | appending text to an okuri-ari headword keeps it okuri-ari |
| Classifier.StemWithInflection | utils.go:8-33 | a non-ASCII stem ending in a lowercase ASCII letter is okuri-ari, with or without a leading `>` |
| Classifier.ClassifierExamples | utils.go:8-33 | `あr`, `>あr` and `#あr` are okuri-ari |
| Classifier.ClassifierRejects | utils.go:8-33 | `あ`, `>>あr`, `akasi` and the empty headword are okuri-nashi |
| OrderedKeys.AscendingKeys | skkdic.go:89 | the okuri-nashi traversal lists every key exactly once, in strictly ascending order |
| OrderedKeys.DescendingKeys | skkdic.go:88 | the okuri-ari traversal lists every key exactly once, in strictly descending order |
| OrderedKeys.AscendingUnique | skkdic.go:154-157 | any strictly ascending listing of a key set is that traversal |
| Merge.AddAll | skkdic.go:375-377 | adding candidates one by one unions the text sets, keeps the old texts in place, and keeps texts unique; an old candidate whose text is not offered again is left exactly as it was |
| Merge.AddAllFresh | skkdic.go:375-377 | candidates whose texts are all new are appended in order |
| Merge.AddEntry | skkdic.go:368-378 | the headword becomes present (created empty when absent) with the union of the old and incoming texts, each once; old texts keep their order, an old candidate whose text is not offered again is unchanged, and other headwords are unchanged |
| Merge.AddEntryJoins | skkdic.go:368-378 | adding one candidate whose text the entry holds at index `i` joins its annotation there and changes nothing else |
| Merge.SubAll | skkdic.go:386-392 | a surviving entry keeps its headword and marks, is non-empty unless both lists were empty, and keeps unique texts; deletion happens only for a non-empty subtraction. When exactly it happens is stated by `Merge.SubAllIsKeep` |
| Merge.SubAllIsKeep | skkdic.go:380-393 | subtraction is set difference on texts, keeping the survivors in order; the entry is deleted exactly when nothing survives |
| Merge.SubEntry | skkdic.go:380-393 | an absent headword is a no-op; no headword is added, other headwords are unchanged, and a surviving entry is non-empty |
| Merge.SubEntryKeeps | skkdic.go:380-393 | the surviving entry is the set difference of the texts in original order, and it exists exactly when that difference is non-empty |
| Merge.AndAll | skkdic.go:401-403 | the marks grow by exactly the incoming texts the entry carries; the candidates do not change |
| Merge.AndEntry | skkdic.go:395-404 | an absent headword is a no-op; otherwise only that entry's marks grow |
| Merge.CleanEntries | skkdic.go:406-418 | every entry keeps just its marked candidates and loses its marks, and an entry stays exactly when some candidate was marked |
| Merge.MergePreservesValid | skkdic.go:368-404 | for a non-empty headword of the partition's kind and a non-empty list, each of the three merges keeps every stored entry non-empty, keyed by its own headword, with unique texts, in the right partition |
| Merge.CleanEntriesValid | skkdic.go:406-418 | the And clean-up keeps the partition valid |
| Dictionaries.PartitionOf | skkdic.go:352-356 | the tree a headword belongs to, chosen by `isOkuriAri`. `Dictionaries.WithPartition` and `Dictionaries.Lookup` state how it is used |
| Dictionaries.WithPartition | skkdic.go:351-356 | the headword's partition is replaced; the other partition and the delimiter are untouched |
| Dictionaries.New | skkdic.go:78-91 | a new dictionary is valid, holds the given delimiter and finds no headword |
| Dictionaries.Lookup | skkdic.go:443-457 | in a valid dictionary a headword is found exactly when it is stored in either partition, and a found list is non-empty with unique texts |
| Dictionaries.RemoveCandidates | skkdic.go:432-441 | afterwards the headword is not found; every other lookup is unchanged and validity is kept |
| Dictionaries.ParseLine | skkdic.go:327-339 | the headword is empty exactly when the list is; otherwise the headword has no space, the line is headword + space + rest, and the list decodes the rest |
| Dictionaries.ParseEntryLine | skkdic.go:327-339 | `h body`, with `h` non-empty and space-free, parses to `h` and the candidates of `body`, or to nothing when `body` decodes to none |
| Dictionaries.MergeInto | skkdic.go:358-365 | whatever the mode, only the headword's key can change, and a valid partition stays valid |
| Dictionaries.ProcessCandidates | skkdic.go:341-366 | an empty headword or list is a no-op; otherwise no other headword's lookup changes and validity is kept |
| Dictionaries.AddLookup | skkdic.go:368-378 | with any mode other than Sub or And, the headword ends up present with the old texts plus the incoming ones, each exactly once, the old ones keep their positions, and an old candidate whose text is not offered again is unchanged |
| Dictionaries.AddJoinsAnnotation | skkdic.go:368-378 | the union merge of annotations: adding `t;b` under a headword that holds `t` replaces that candidate by its annotation join with the dictionary's delimiter, and changes no other candidate |
| Dictionaries.AddFresh | skkdic.go:368-378 | adding distinct candidates under an absent headword stores exactly them, in order |
| Dictionaries.SubLookup | skkdic.go:380-393 | an absent headword stays absent; a present one keeps, in order, the candidates whose text was not subtracted, and disappears when none is left |
| Dictionaries.AndLookup | skkdic.go:395-404 | intersection during the read changes no lookup |
| Dictionaries.IsComment | skkdic.go:299-301 | a line is a comment when its first character is `;`. `Dictionaries.ReadLine` and `Writer.CommentsSkipped` state that such lines change nothing |
| Dictionaries.ReadLine | skkdic.go:297-306 | a `;` comment line changes nothing; any line keeps the delimiter and validity |
| Dictionaries.ReadLines | skkdic.go:296-306 | the line loop keeps the delimiter and validity |
| Dictionaries.ReadLinesAppend | skkdic.go:296-306 | reading `a + b` is reading `a`, then `b` |
| Dictionaries.Read | skkdic.go:296-313 | reading keeps the delimiter and validity, and after an intersection read no entry holds a mark |
| Dictionaries.AndLinesMark | skkdic.go:297-306 | an intersection read, before the clean-up, only marks in each entry the texts the lines offer for its headword |
| Dictionaries.ReadAndLookup | skkdic.go:308-311 | after an intersection read a headword survives exactly when some of its texts were marked, and it keeps just those candidates in original order; absent headwords stay absent |
| Dictionaries.InRangePrefixed | skkdic.go:462 | the range walked by `Complete` holds exactly the keys that start with the prefix but not with the prefix followed by U+10FFFF |
| Dictionaries.RangeScan | skkdic.go:462-469 | the walk only returns keys it was given, in their ascending order |
| Dictionaries.RangeScanMembers | skkdic.go:462-469 | over ascending keys the walk collects exactly the keys in the range |
| Dictionaries.Complete | skkdic.go:459-472 | the result is strictly ascending and holds exactly the okuri-nashi headwords that start with the prefix, except those that start with the prefix followed by U+10FFFF |
| Writer.IsKnownEncoding | skkdic.go:30-37 | `isValid`: exactly the five named encodings are known. `Writer.OutputEncoding` states how it is used |
| Writer.OutputEncoding | skkdic.go:107-118 | the header names a known encoding: the requested one when it is known, otherwise UTF-8 |
| Writer.HeadersAreComments | skkdic.go:138-150 | both section headers are `;` comments |
| Writer.CodingLine | skkdic.go:133 | the coding header is a `;` comment |
| Writer.EntryLine | skkdic.go:170-191 | an entry line is the headword, a space, then the encoded candidate list |
| Writer.SectionLines | skkdic.go:142-145 | a section has one line per listed key |
| Writer.WriteLines | skkdic.go:132-160 | the coding header comes first and the okuri-ari header second; the okuri-nashi header follows the okuri-ari entries; there are three lines more than entries |
| Writer.Write | skkdic.go:115-168 | the written text starts with the coding header line |
| Writer.SplitLines | skkdic.go:296-298 | no split line contains a newline |
| Writer.SplitUnlines | skkdic.go:296-298 | splitting newline-terminated lines gives them back |
| Writer.SectionLineAt | skkdic.go:142-145 | the `i`-th line of a section is the entry line of the `i`-th key |
| Writer.WriteLayout | skkdic.go:138-160 | after the two headers, one line per okuri-ari entry in `lessEntryReverse` order; then the okuri-nashi header and one line per okuri-nashi entry in `lessEntry` order |
| Writer.ParseWrittenLine | skkdic.go:170-191 | the line of a writable entry is not a comment and parses back to its headword and candidates |
| Writer.CommentsSkipped | skkdic.go:299-301 | reading only comment lines changes nothing |
| Writer.ReadSection | skkdic.go:296-306 | reading a section's lines adds exactly its entries |
| Writer.WriteReadRoundTrip | skkdic.go:115-191 | reading the written lines into a new dictionary with the same delimiter gives back any writable dictionary |
| Writer.WriteTextRoundTrip | skkdic.go:115-191 | the same holds for the written text split into lines, when no line holds a newline of its own |

A writable dictionary is valid, every headword is space-free and does not
start with `;`, no entry holds marks, and every candidate is encodable.

## Left out

- The command-line tool (`cmd/skkdic-expr/main.go`) is not part of this model: it is argument parsing and file plumbing.
- Character-set transcoding is left out: `Encoding.toEncoding` and the encoders and decoders. Text is modelled after decoding and before encoding. `Encoding.isValid` is kept, as `Writer.IsKnownEncoding`.
- `extractEncoding` and its coding-comment regular expression are left out, because they only choose a decoder.
- I/O is left out. This covers `ReadFile`, the `nil` dictionary checks, `bufio` buffering and write-error propagation.
- The line scanner of `Read` is left out, including its `\r` stripping and its token-size limit. Lines reach the model already split, and `Writer.SplitLines` models only the split at newlines.
- With automatic encoding detection, input without any newline returns before the line loop and skips the intersection clean-up. This is an I/O detail of reading the first line, and it is left out.
- The B-tree internals are abstracted: each tree is a map plus its sorted key views.
- Pointer aliasing of `*Candidate` is not modelled (`addCandidate` stores the caller's pointer, which `joinAnnotation` may later mutate). Values are used instead.
- Invalid UTF-8 is not modelled: strings are sequences of code points.
- The functional options (`WithAnnotationDelimiter`, `WithInputEncoding`, `WithOutputEncoding`) are not modelled. The delimiter and the encoding are plain parameters.
- `AddCandidates`, `SubCandidates` and `AndCandidates` (skkdic.go:420-430) are not separate members. Each is `Dictionaries.ProcessCandidates` with a fixed mode.
- `entry.IsOkuriAri` (entry.go:10-12) is not a separate member. It is `Classifier.IsOkuriAri` of the headword.
- The unused `midashi` parameter of `parseCandidates` is dropped.

## Notes on behaviour

These follow the code as written; none is claimed to be a defect.

- **An empty candidate can be parsed.** A segment holding only `;` is non-empty, so it yields a candidate with empty text and empty annotation (`Candidates.SemicolonSegmentExample`). Writing such a candidate gives an empty segment, which reading drops; this is why the round trips require encodable candidates.
- **Control characters end the list only outside a segment.** Inside a segment the scan runs to the next `/`, so the round trip needs only a text that does not begin with a control character.
- **A headword starting with `;` does not survive a write and re-read.** Its line would be skipped as a comment, so the round trips require headwords that do not start with `;`.
- **`joinAnnotation` is not idempotent.** Joining `B` into `A,B` gives `A,B,B`, because only the whole annotation is compared.
- **`Complete` has an exclusive upper bound of prefix + U+10FFFF.** Headwords that extend exactly that string are not returned, and `Dictionaries.Complete` states so.
