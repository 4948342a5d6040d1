# GFA ⇄ GBWT conversion core, modelled in Dafny

This project models the core of `src/gfa.cpp` from gbwtgraph and proves properties of that model. That file holds two converters.

**The forward converter** (`gfa_to_gbwt`) has three parts:
- **Tokenizer and validator.** `GFAFile` makes one validating pass over the bytes of a GFA 1.0 file. It records where every S-, L-, P- and W-line starts and keeps four statistics. Afterwards it replays the recorded lines to callbacks.
- **Decision logic.** This is `stoul_unsafe`, `check_gfa_file`, `determine_batch_size` and the choice between node ids and a segment translation.
- **Path indexing.** `parse_paths` turns every path and walk into a sequence of oriented GBWT nodes.

**The reverse converter** (`gbwt_to_gfa`) does the following:
- It caches segment names and lengths by node (`SegmentCache`).
- It writes the header and the S-lines and L-lines.
- It writes either the reference paths as P-lines and the other paths as W-lines, or every path as a P-line when there is no path metadata.

Modules:

| file | module | what it holds |
|---|---|---|
| optional.dfy | `Optional` | the `Option` type |
| bytes.dfy | `GfaBytes` | bytes and text, separator classes, decimal digits, `stoul_unsafe` with its 64-bit wrap-around, `std::to_string` |
| separators.dfy | `ByteCodes`, `Separators` | the 4×64-bit separator bitmask (`field_end`, `subfield_end`, `walk_subfield_end`) as a class over an `array<bv64>`, indexed by `c / 64` and `c & 0x3F` |
| tokens.dfy | `GfaTokens` | `field_type` as a value over byte positions; the scans of `next_line`, `first_field`, `next_field`, `next_subfield` and `next_walk_subfield` as functions; the orientation and segment predicates |
| lines.dfy | `GfaLines` | the acceptance rule of each line validator, the whole validating pass as a function, the records a replay reads, and the statistics the pass keeps |
| events.dfy | `GfaEvents` | "stop early when a callback returns false", as the prefix of the records that a consumer is handed |
| gfa_file.dfy | `GfaParser` | the `GFAFile` class: the mask tables, the scanning loops, `check_field`, `add_s/l/p/w_line`, the validating constructor, and every `for_each_*` replay as a method proved against the functions above |
| nodes.dfy | `GbwtNodes` | `gbwt::Node::encode`, `id` and `is_reverse` |
| forward.dfy | `GfaToGbwt` | `check_gfa_file`, `determine_batch_size`, the translate decision, the expansion done by `add_segment`, and `parse_paths` as a class holding `current_path` and the inserted paths |
| reverse.dfy | `GbwtToGfa` | `SegmentCache` as a class over an array of slots, plus `write_segments`, `write_links`, `write_paths`, `write_walks`, `write_all_paths` and `gbwt_to_gfa` writing text |

Positions are modelled as follows:
- A position in the mapped file is a natural number.
- A `const char*` that is `nullptr` becomes `None`.
- The bytes are `seq<Byte>`, where a `Byte` is a `char` below 256.

Two parts of the source become parameters:
- whether `std::stoul` accepts a segment name and gives a non-zero id is the parameter `numericId` of the `GfaFile` constructor;
- the translation of `SequenceSource` is a function from names to node ranges.

On the reverse side, `GBWTGraph` and the GBWT index are values holding what the writers enumerate:
- the node id range;
- the handles in `for_each_handle` order and the sequence of each node;
- the edges;
- the named segments and links;
- `extract` of each sequence;
- the path, sample and contig names.

Each writer is a method whose output is proved equal to a function of the graph. The lemmas about those functions state what the output means. Examples:
- the overlaps field has `segments - 1` stars;
- decomposing an expanded path gives back its segment visits;
- an L-line that was written reads back through the tokenizer as the same link;
- S-line grouping keeps every sequence and never puts two neighbouring groups under one name.

## Model

| member | source | states |
|---|---|---|
| GfaBytes.StoulUnsafe | src/gfa.cpp:31-37 | The loop's result is the 64-bit wrapping accumulation `10 * result + (c - '0')`, with each byte read as a signed `char`. For a digit string that is the string's decimal value mod 2^64. |
| GfaBytes.HighByteIsNegative | src/gfa.cpp:35 | A byte from 0x80 on counts as a negative `char`: `"1\xC3"` accumulates `10 + (0xC3 - 256 - '0')`, which wraps to 2^64 - 99. |
| GfaBytes.AccumulatedDigits | src/gfa.cpp:31-37 | For every digit string, the wrapping accumulation of `stoul_unsafe` equals the decimal value of the string mod 2^64. |
| GfaBytes.Decimal | src/gfa.cpp:1040 | `std::to_string` of a number is a non-empty digit string with no leading zero whose decimal value is the number. |
| GfaBytes.DecimalRoundTrip | src/gfa.cpp:31-37 | `stoul_unsafe` reads back every number below 2^64 that `std::to_string` wrote. |
| Separators.CodeInjective | src/gfa.cpp:186-190 | Different bytes have different `unsigned char` codes. |
| Separators.IndexesDetermineByte | src/gfa.cpp:186-217 | The word index `c / 64` and the bit index `c & 0x3F` together identify the byte. |
| Separators.BitsOfOneWord | src/gfa.cpp:204-217 | OR-ing bit `a` into a word changes the test of bit `b` exactly when `a == b`. |
| Separators.WithBitAddsExactly | src/gfa.cpp:204-217 | After the table gets one byte's bit, a byte is in the table iff it was in before or is that byte, so no other byte's membership changes. |
| Separators.SeparatorMask.constructor | src/gfa.cpp:301-302 | The four zeroed words represent the empty set of separators. |
| Separators.SeparatorMask.Add | src/gfa.cpp:204-217 | `add_*_end(c)` adds exactly `c` to the set the table represents. |
| Separators.SeparatorMask.Contains | src/gfa.cpp:186-202 | `is_*_end(c)` holds iff `c` is in the set the table represents. |
| GfaParser.FieldEndTable | src/gfa.cpp:301-303 | After construction, `is_field_end` holds exactly for tab and newline. |
| GfaParser.SubfieldEndTable | src/gfa.cpp:304-306 | After construction, `is_subfield_end` holds exactly for tab, newline and comma. |
| GfaParser.WalkSubfieldEndTable | src/gfa.cpp:307-310 | After construction, `is_walk_subfield_end` holds exactly for tab, newline, `<` and `>`. |
| GfaTokens.ScanEnd | src/gfa.cpp:150-163 | A field scan never moves backwards. It stops at the end of the file or at a byte that ends the field. |
| GfaTokens.ScanEndIsFirst | src/gfa.cpp:150-163 | No byte before the stop ends the field, so the scan stops at the first separator. |
| GfaTokens.NextLineOf | src/gfa.cpp:142-147 | `next_line` never moves backwards and always advances before the end. It lands one past a newline or at the end of the file. |
| GfaTokens.NextLineIsFirst | src/gfa.cpp:142-147 | `next_line` skips no newline: it lands one past the first newline, or at the end when there is none. |
| GfaTokens.FirstFieldOf | src/gfa.cpp:150-155 | The first field begins at the line start and is a range inside the file. `has_next` holds iff the byte that ends it is a tab. |
| GfaTokens.NextFieldOf | src/gfa.cpp:158-163 | The next field begins one past the previous end. `has_next` holds iff the byte that ends it is a tab. |
| GfaTokens.NextSubfieldOf | src/gfa.cpp:165-171 | The next subfield begins one past the previous end. `has_next` holds iff the byte that ends it is a comma. |
| GfaTokens.NextWalkSubfieldOf | src/gfa.cpp:175-184 | A walk subfield begins at the previous end, so its `<`/`>` glyph is included. Without a glyph there it is empty. With a glyph it is non-empty and ends at a walk separator or at the end. `has_next` holds iff the following byte is `<` or `>`. |
| GfaTokens.FieldsDelimited | src/gfa.cpp:150-163 | A field holds no tab and no newline. |
| GfaTokens.SubfieldDelimited | src/gfa.cpp:165-171 | A subfield holds no tab, no newline and no comma. |
| GfaTokens.WalkSubfieldDelimited | src/gfa.cpp:175-184 | After its glyph, a walk subfield holds no walk separator, and a separator or the end follows it. |
| GfaTokens.OrientationSpelling | src/gfa.cpp:81-82 | An orientation field is valid iff it is exactly `+` or `-`. `is_reverse_orientation` says which of the two it is. |
| GfaTokens.PathSegmentSplits | src/gfa.cpp:85-88 | A valid path segment is a non-empty name followed by the orientation byte that `is_reverse_path_segment` reports. |
| GfaTokens.SpelledPathSegment | src/gfa.cpp:85-88 | Conversely, a non-empty name followed by `+` or `-` is a valid path segment with exactly that name and orientation. |
| GfaTokens.WalkSegmentSplits | src/gfa.cpp:97-100 | A valid walk segment is the glyph that `is_reverse_walk_segment` reports, followed by a non-empty name. |
| GfaTokens.SpelledWalkSegment | src/gfa.cpp:97-100 | Conversely, `<` or `>` followed by a non-empty name is a valid walk segment with exactly that name and orientation. |
| GfaLines.CheckedFirstField | src/gfa.cpp:515-531 | A field passes the check only if it is non-empty and, when a successor is required, has one. |
| GfaLines.SLineFields | src/gfa.cpp:351-380 | An accepted S-line has a non-empty name field followed by a tab, then a non-empty sequence field. |
| GfaLines.LLineFields | src/gfa.cpp:382-420 | An accepted L-line has two non-empty segment names and two orientations that are each exactly `+` or `-`. |
| GfaLines.PathSubfields | src/gfa.cpp:435-448 | The do-while loop accepts at least one subfield, so an accepted segment list is never empty and ends inside the file. |
| GfaLines.PathSubfieldsValid | src/gfa.cpp:437-448 | Every subfield of an accepted P-line segment list is a valid path segment. |
| GfaLines.WalkSubfields | src/gfa.cpp:490-503 | An accepted walk segment list is never empty and ends inside the file. |
| GfaLines.WalkSubfieldsValid | src/gfa.cpp:491-503 | Every subfield of an accepted W-line segment list is a valid walk segment. |
| GfaLines.PLineFields | src/gfa.cpp:422-458 | An accepted P-line has a non-empty name followed by a non-empty list of segments. |
| GfaLines.WLineNames | src/gfa.cpp:466-487 | An accepted W-line has non-empty sample, haplotype, contig, start and end fields, each followed by a tab. |
| GfaLines.WLineFields | src/gfa.cpp:460-513 | An accepted W-line has those five fields and a non-empty walk. |
| GfaLines.Step | src/gfa.cpp:320-341 | One step of the validating loop has five properties. It always moves forward. The file stays valid iff the pass goes on. Validity never returns once lost. The translation flag is never reset and the maxima never decrease. A line starting with any byte other than `S`, `L`, `P` or `W` is skipped and nothing changes. |
| GfaLines.PassMonotone | src/gfa.cpp:318-342 | Over the whole pass, `valid_gfa` only goes from true to false, the translation flag is never reset, and the maxima never decrease. |
| GfaLines.StepSShape | src/gfa.cpp:351-380 | A step over an S-line that keeps the file valid updates the state from the segment it read back. |
| GfaLines.StepPShape | src/gfa.cpp:422-458 | A valid P-line records its start and raises `max_path_length` to the length of the path that is read back. |
| GfaLines.StepWShape | src/gfa.cpp:460-513 | A valid W-line records its start and raises `max_path_length` to the length of the walk that is read back. |
| GfaLines.SegmentKeepsSummary | src/gfa.cpp:364-377 | Recording one more S-line keeps the statistics exact: the longest sequence, and whether some name is unusable. |
| GfaLines.PathKeepsSummary | src/gfa.cpp:455 | Recording one more P-line keeps `max_path_length` equal to the longest path or walk. |
| GfaLines.WalkKeepsSummary | src/gfa.cpp:510 | Recording one more W-line keeps `max_path_length` equal to the longest path or walk. |
| GfaLines.LinkKeepsSummary | src/gfa.cpp:385 | Recording one more L-line keeps the summary. |
| GfaLines.StepSummarizes | src/gfa.cpp:320-341 | A step that keeps the file valid keeps the summary. |
| GfaLines.PassSummarizes | src/gfa.cpp:318-342 | After a successful pass, every recorded line is a well-formed record of its type, and three statistics are exact: `max_segment_length` is the longest sequence over all S-lines, `max_path_length` is the longest path or walk, and the translation flag is set iff some segment name is unusable as a node id. |
| GfaEvents.DeliveredIsDelivery | src/gfa.cpp:567 | A replay delivers a prefix of the records. Every delivery but the last was accepted. The replay is complete unless the last delivery was refused, after which nothing more is scanned. |
| GfaEvents.DeliveryIsDelivered | src/gfa.cpp:597 | Those three facts determine the delivery, whichever replay produced it. |
| GfaEvents.DeliveredAll | src/gfa.cpp:614 | A consumer that always accepts sees every record. |
| GfaParser.GfaFile.NextLine | src/gfa.cpp:142-147 | The scanning loop of `next_line` returns the position that `NextLineOf` characterises. |
| GfaParser.GfaFile.FirstField | src/gfa.cpp:150-155 | The loop using the field table returns the field that `FirstFieldOf` characterises. |
| GfaParser.GfaFile.NextField | src/gfa.cpp:158-163 | The loop using the field table returns the field that `NextFieldOf` characterises. |
| GfaParser.GfaFile.NextSubfield | src/gfa.cpp:165-171 | The loop using the subfield table returns the subfield that `NextSubfieldOf` characterises. |
| GfaParser.GfaFile.NextWalkSubfield | src/gfa.cpp:175-184 | The do-while using the walk table returns the subfield that `NextWalkSubfieldOf` characterises. |
| GfaParser.GfaFile.CheckField | src/gfa.cpp:515-531 | The result is true iff the field is non-empty and, when a successor is required, has one. `valid_gfa` becomes false exactly when the check fails and never becomes true. |
| GfaParser.GfaFile.AddSLine | src/gfa.cpp:351-380 | The new state of the file and the returned position are those of `StepS`. |
| GfaParser.GfaFile.AddLLine | src/gfa.cpp:382-420 | The new state and the returned position are those of `StepL`. |
| GfaParser.GfaFile.PathSegments | src/gfa.cpp:435-448 | The do-while over P-line subfields succeeds iff the segment list is accepted. It then returns the count and the last subfield. |
| GfaParser.GfaFile.AddPLine | src/gfa.cpp:422-458 | The new state and the returned position are those of `StepP`. |
| GfaParser.GfaFile.CheckWalkNames | src/gfa.cpp:466-487 | The five name checks of a W-line succeed exactly when `WLineNames` does, and `valid_gfa` follows the result. |
| GfaParser.GfaFile.WalkSegments | src/gfa.cpp:489-503 | The do-while over walk subfields succeeds iff the walk is accepted. It then returns the count and the last subfield. |
| GfaParser.GfaFile.AddWLine | src/gfa.cpp:460-513 | The new state and the returned position are those of `StepW`. |
| GfaParser.GfaFile.AddLine | src/gfa.cpp:322-339 | The dispatch by the first byte of the line gives the state and position of `Step`. |
| GfaParser.GfaFile.constructor | src/gfa.cpp:263-342 | The validating loop ends in the state of the pure `Pass` from the start of the file. A file that stays valid is summarised exactly, as `PassSummarizes` states. |
| GfaParser.GfaFile.ReadSegment | src/gfa.cpp:557-566 | Re-reading a recorded S-line without checks gives its name and sequence. |
| GfaParser.GfaFile.ReadLink | src/gfa.cpp:578-595 | Re-reading a recorded L-line gives both names and both orientations. |
| GfaParser.GfaFile.ReadPathName | src/gfa.cpp:608-613 | Re-reading a recorded P-line gives its name field. |
| GfaParser.GfaFile.ReadWalkName | src/gfa.cpp:654-671 | Re-reading a recorded W-line gives its sample, haplotype, contig and start fields. |
| GfaParser.GfaFile.ForEachSegment | src/gfa.cpp:550-569 | The callback sees the segments of an ok file in order, up to and including the first one it refuses. A file that is not ok delivers nothing. |
| GfaParser.GfaFile.ForEachLink | src/gfa.cpp:571-599 | The callback sees the links of an ok file in order, up to and including the first one it refuses. |
| GfaParser.GfaFile.ForEachPathName | src/gfa.cpp:601-616 | The callback sees the path names in order, up to and including the first one it refuses. |
| GfaParser.GfaFile.ReplayPath | src/gfa.cpp:625-644 | Replaying one P-line either delivers its whole block (name, visits, finish) or stops where the consumer refused. |
| GfaParser.GfaFile.ReplayPathSegments | src/gfa.cpp:634-641 | The do-while hands over the visits of a path one by one and stops at the first refused one. |
| GfaParser.GfaFile.ForEachPath | src/gfa.cpp:618-645 | The three callbacks see the name, visit and finish events of all paths in order, up to and including the first refused event. |
| GfaParser.GfaFile.ReplayWalk | src/gfa.cpp:684-721 | Replaying one W-line either delivers its whole block or stops where the consumer refused. |
| GfaParser.GfaFile.ReplayWalkSegments | src/gfa.cpp:710-718 | The do-while hands over the visits of a walk one by one and stops at the first refused one. |
| GfaParser.GfaFile.ForEachWalk | src/gfa.cpp:677-722 | The three callbacks see the name, visit and finish events of all walks in order, up to and including the first refused event. |
| GfaParser.GfaFile.ForEachWalkName | src/gfa.cpp:647-675 | The callback sees the names of all walks in order, up to and including the first one it refuses. |
| GbwtNodes.DecodeEncode | src/gfa.cpp:920-933 | An encoded node decodes to its id and its orientation. |
| GbwtNodes.EncodeDecode | src/gfa.cpp:1055 | Every node is the encoding of its own id and orientation. |
| GbwtNodes.SlotOfId | src/gfa.cpp:1025 | With an even first node, both orientations of an id fall into the same cache slot, `id - firstNode / 2`. |
| GfaToGbwt.CheckGfaFile | src/gfa.cpp:726-750 | The file passes iff it is ok, has a segment, and has a path or a walk. Having both paths and walks is allowed. |
| GfaToGbwt.DetermineBatchSize | src/gfa.cpp:752-767 | A manual batch size is returned unchanged. An automatic one is the configured size raised to the minimum, then capped by the file size. |
| GfaToGbwt.BatchHoldsLongestPath | src/gfa.cpp:756-761 | In automatic mode, with a positive `MIN_SEQUENCES_PER_BATCH` and no 64-bit wrap-around of the product, a batch holds the longest path plus its end marker, unless the file is smaller than that. |
| GfaToGbwt.UsesTranslation | src/gfa.cpp:779-796 | Translation is used iff a sequence exceeds the node length limit (0 meaning no limit) or the file asked to translate segment ids. |
| GfaToGbwt.TranslationDecided | src/gfa.cpp:779-796 | Over a validated file, translation is used iff some segment sequence is longer than a non-zero limit or some segment name is unusable as a node id. |
| GfaToGbwt.ExpansionRefuses | src/gfa.cpp:908-915 | `add_segment` refuses a visit iff translation is on and the name translates to the range `(0, 0)`. |
| GfaToGbwt.ExpansionUntranslated | src/gfa.cpp:931-934 | Without translation, a visit adds exactly one node with the visit's orientation, whose id is `stoul_unsafe(name)`. For a digit string that id is its decimal value mod 2^64. |
| GfaToGbwt.ExpansionTranslated | src/gfa.cpp:916-929 | With a translation range `[a, b)`, a visit adds exactly `b - a` nodes carrying the visit's orientation. Forward visits get ids `a, a+1, …` and reverse visits get `b-1, b-2, …`. |
| GfaToGbwt.ExpansionMirrors | src/gfa.cpp:916-929 | The reverse expansion of a name lists the ids of its forward expansion in reverse order. |
| GfaToGbwt.RunDelivered | src/gfa.cpp:939-956 | Running the indexer on what a replay delivers to it gives the same result as running it on every event. |
| GfaToGbwt.DeliveredHandled | src/gfa.cpp:939-956 | Every delivered event before the last one is one the indexer handled. |
| GfaToGbwt.PathIndexer.constructor | src/gfa.cpp:905 | `current_path` starts empty and nothing is inserted. |
| GfaToGbwt.PathIndexer.AddSegment | src/gfa.cpp:906-936 | It succeeds iff the visit expands. `current_path` then grows by exactly the expansion, and otherwise nothing changes. Nothing is inserted. |
| GfaToGbwt.PathIndexer.FinishPath | src/gfa.cpp:944 | The current path is inserted and then cleared. |
| GfaToGbwt.PathIndexer.HandleEvent | src/gfa.cpp:939-956 | One callback moves the indexer as `Handle` does. It returns true iff the event is handled. |
| GfaToGbwt.PathIndexer.Consume | src/gfa.cpp:939-956 | Consuming a delivered event sequence leaves the indexer as running it over every event would. |
| GfaToGbwt.PathIndexer.ParsePaths | src/gfa.cpp:896-965 | The indexer ends as the paths phase and then the walks phase leave it, with `current_path` not cleared when a traversal starts, as written. |
| GfaToGbwt.PathIndexer.ParsePathsCorrected | src/gfa.cpp:896-965 | With `current_path` cleared when each traversal starts, the inserted paths are exactly the resolved node sequences of the paths, then those of the walks. Each phase stops at its first unresolvable traversal. |
| GfaToGbwt.RunVisits | src/gfa.cpp:906-941 | A name followed by visits inserts nothing. It succeeds iff every visit resolves, and then the current path is the old one (unless cleared) plus the resolved nodes. |
| GfaToGbwt.RunBlock | src/gfa.cpp:939-946 | A whole traversal inserts exactly its resolved nodes iff all visits resolve, and otherwise inserts nothing. |
| GfaToGbwt.CorrectedRunIndexesPaths | src/gfa.cpp:939-946 | With clearing, the paths phase inserts the resolved paths up to the first unresolvable one. It completes iff all resolve. |
| GfaToGbwt.CorrectedRunIndexesWalks | src/gfa.cpp:949-956 | With clearing, the walks phase inserts the resolved walks up to the first unresolvable one. It completes iff all resolve. |
| GfaToGbwt.CorrectedInsertsTraversals | src/gfa.cpp:939-956 | With clearing, both phases together insert the resolved paths followed by the resolved walks. |
| GfaToGbwt.AsWrittenMixesTraversals | src/gfa.cpp:939-956 | Take a path whose second segment does not translate, followed by a walk. As written, the walk is inserted with the path's leftover node in front, `[2, 2]`. With clearing, only `[2]` is inserted. |
| GbwtToGfa.SegmentCache.Fill | src/gfa.cpp:1025-1029 | The slot-filling loop sets slots `relative .. relative + length - 1` to the segment's entry and leaves every other slot unchanged. |
| GbwtToGfa.SegmentCache.constructor | src/gfa.cpp:1018-1043 | The table covers `(sigma - firstNode) / 2` slots, and the names are the segments' names in order. When the segments' node ranges are disjoint, every slot of every segment holds `(index of its name, length in nodes)`. |
| GbwtToGfa.KeepsOthers | src/gfa.cpp:1025-1031 | Filling the slots of segment `k` keeps what the earlier segments wrote in their own slots. |
| GbwtToGfa.NodeSegments | src/gfa.cpp:1034-1041 | Without segment names, each node id is a segment of one node named by its decimal id. |
| GbwtToGfa.NodeSegmentsDisjoint | src/gfa.cpp:1034-1041 | One-node segments of distinct ids never share a slot. |
| GbwtToGfa.Get | src/gfa.cpp:1052-1058 | `get` gives the index of a cached name and a length of at least one node. |
| GbwtToGfa.CachedNode | src/gfa.cpp:1052-1058 | Every node of segment `k`, in either orientation, resolves to segment `k`'s name and its length in nodes. |
| GbwtToGfa.Groups | src/gfa.cpp:1081-1094 | Seen as groups of consecutive handles under one cached name, `for_each_handle` gives no more groups than handles, and the last group has the last handle's name. |
| GbwtToGfa.WriteHandle | src/gfa.cpp:1083-1092 | One handle either extends the open S-line by its sequence or closes that line and opens a new one with its segment's name. |
| GbwtToGfa.WriteSegments | src/gfa.cpp:1071-1101 | The output is one S-line per group, each holding its name and the concatenated sequences of its handles. No S-line appears when there are no handles. |
| GbwtToGfa.GroupsNeighboursDiffer | src/gfa.cpp:1084-1091 | A new S-line starts only when the cached name differs from the previous handle's: neighbouring groups never share a name. |
| GbwtToGfa.GroupsKeepSequences | src/gfa.cpp:1092 | Concatenating the groups' sequences gives every handle's sequence in order, so nothing is lost or repeated. |
| GbwtToGfa.WriteLinks | src/gfa.cpp:1103-1147 | With segment names, the output is one L-line per segment link, carrying both names and orientations. Otherwise it is one L-line per edge, named through the cache. |
| GbwtToGfa.LinkLineReadsBack | src/gfa.cpp:1116-1126 | An L-line that was written, found at a line start of a file, passes the L-line check. It reads back as the same two names and orientations. |
| GbwtToGfa.Decompose | src/gfa.cpp:1165-1173 | The segment-skipping loop emits only cached names. It emits at most one name per remaining node, and nothing iff the offset is past the path. |
| GbwtToGfa.WritePathSegments | src/gfa.cpp:1165-1173 | The loop writes the `name±` of every segment the path decomposes into, comma-separated, and returns the number of segments. |
| GbwtToGfa.WriteWalkSegments | src/gfa.cpp:1219-1226 | The loop writes `>name` or `<name` for every segment the walk decomposes into. |
| GbwtToGfa.ExpandIsExpansion | src/gfa.cpp:916-929 | Expanding a segment visit into its node ids is what `add_segment` does under the segment translation. |
| GbwtToGfa.DecomposeInvertsExpansion | src/gfa.cpp:1165-1173 | Decomposing the node path that the forward converter builds from segment visits gives back exactly those visits. This is the round trip P-line → GBWT path → P-line. |
| GbwtToGfa.WriteOverlaps | src/gfa.cpp:1175-1179 | The loop writes the overlaps field of a path with the given number of segments. |
| GbwtToGfa.OverlapsShape | src/gfa.cpp:1175-1179 | The overlaps field holds `segments - 1` stars separated by commas, so `2 * segments - 3` bytes. It is empty for fewer than two segments. |
| GbwtToGfa.WritePathLine | src/gfa.cpp:1162-1180 | One P-line is written: name, segments and overlaps. |
| GbwtToGfa.PathLineShape | src/gfa.cpp:1162-1180 | A P-line is `P`, name, segments and overlaps, tab-separated, with one star fewer than segments. It has segments iff the path is non-empty. |
| GbwtToGfa.PathsForSampleExact | src/gfa.cpp:1158-1160 | `pathsForSample` lists exactly the path ids of the sample, in increasing order. |
| GbwtToGfa.WritePaths | src/gfa.cpp:1149-1188 | The output is one P-line per reference path, in id order, named by its contig. |
| GbwtToGfa.TotalLength | src/gfa.cpp:1207-1208 | The summing loop gives the total sequence length of the walk's nodes, mod 2^64. |
| GbwtToGfa.WalkEndIsStartPlusBases | src/gfa.cpp:1217-1218 | The end field is the decimal text of the start plus the summed node lengths whenever that sum fits in 64 bits. It is always below 2^64. |
| GbwtToGfa.WriteWalkLine | src/gfa.cpp:1203-1227 | One W-line is written with these fields: sample (name or number), phase, contig (name or number), start, end, and segments. |
| GbwtToGfa.WriteWalks | src/gfa.cpp:1190-1235 | The output is one W-line per path not in the reference sample, in path-id order. |
| GbwtToGfa.WriteAllPaths | src/gfa.cpp:1237-1276 | The output is one P-line per forward sequence `0, 2, 4, …`, named by its path id `seq_id / 2`. |
| GbwtToGfa.CoveredResolves | src/gfa.cpp:1052-1058 | A node inside some segment's range resolves in the cache. |
| GbwtToGfa.WritersApply | src/gfa.cpp:1280-1315 | For a graph whose handles, edges and paths lie inside its segments, every writer's requirement holds with the graph's cache. |
| GbwtToGfa.GbwtToGfa | src/gfa.cpp:1280-1315 | The cache is built from the graph. The output is the header `H\tVN:Z:1.0`, then the S-lines, then the L-lines. With path names it then has the reference P-lines followed by the W-lines, and without them P-lines for all paths. |

## Left out

- Opening, `fstat`, `mmap`, `madvise`, `munmap` and `close` (src/gfa.cpp:274-297, 533-546) are not modelled. The file is a given byte sequence, and `ok()` is "non-empty and valid".
- Progress and diagnostic output on `std::cerr`, the timers, and the line numbers and record-type byte of `field_type` are not modelled: they only feed diagnostics.
- `std::stoul` in `add_s_line` is a parameter `numericId` of the constructor. Its prefix parsing, whitespace and sign handling and its uncaught `out_of_range` are not modelled.
- `GfaParser.GfaFile.ForEachSegment` and the other replays hand records to one consumer function that sees the delivered history. The separate per-callback closures are combined into that function.
- `GfaBytes.StoulUnsafe`: plain `char` is modelled as signed, as on x86-64. Where `char` is unsigned (AArch64 Linux, for example), a byte from 0x80 on adds its unsigned code instead. The model does not capture that platform.
- `GfaToGbwt.DetermineBatchSize`: `gbwt::DynamicGBWT::MIN_SEQUENCES_PER_BATCH` is a parameter, because its value is not part of this model. The 64-bit wrap-around of the multiplication is kept.
- `GbwtNodes.Encode` is `2 * id + reverse` on unbounded naturals. The 64-bit wrap-around of `gbwt::Node::encode` for ids of 2^63 and above is not modelled.
- `GfaToGbwt.PathIndexer.FinishPath`: `builder.insert(current_path, true)` becomes appending the path to a list. Inserting the reverse orientation as well, batching, and `builder.finish()` are not modelled.
- In `parse_segments` (src/gfa.cpp:770-824), only the translate decision is modelled. The calls into `SequenceSource` and `EmptyGraph` are not, and the translation is a function from names to ranges.
- `parse_metadata` and `MetadataBuilder` (src/gfa.cpp:830-894) are not modelled: they dispatch into code that is not part of this model.
- The orchestration in `gfa_to_gbwt` (src/gfa.cpp:970-1010) is not modelled.
- On the reverse side, `GBWTGraph` and `gbwt::GBWT` are values. The `for_each_handle`, `for_each_edge` and `for_each_link` orders are their sequences, `extract` is a function, and `pathsForSample` is modelled as the ascending list of matching path ids.
- The lookup `metadata.sample(REFERENCE_PATH_SAMPLE_NAME)` is the parameter `refSample`.
- `TSVWriter` is modelled as appending to a text value. Output buffering and the stream are not modelled.
- `GbwtToGfa.WriteSegments` compares the cached name by its index in the cache, which is what the view pointer identity in the source amounts to. It does not compare the name's text.
- `GbwtToGfa.WritePaths` requires contig names for the reference paths, because `Metadata::contig` of a missing name is not part of this model.
- `GbwtToGfa.GbwtToGfa` requires that every handle, edge and path node lies inside a segment, and that the segments' node ranges are disjoint, as a `GBWTGraph` guarantees. It also requires the index to hold two sequences for each named path.
- `GbwtToGfa.TotalLength`: `get_length` of a node is the length of the sequence of its id.
- `GbwtToGfa.WriteWalkLine`: the sum `count + length` wraps at 2^64 as `size_t` does.

## Findings

| source | as written | input that shows it | evidently intended | confidence | as-written member | corrected member |
|---|---|---|---|---|---|---|
| src/gfa.cpp:939-956 | `current_path` is cleared only by the finish callbacks. When `add_segment` refuses a segment, `for_each_path` stops with the nodes of the unfinished path still in `current_path`, and the walks phase then inserts them in front of the first walk. | In the `AsWrittenMixesTraversals` example, a path visits segment `a` (node id 1, GBWT node 2) and then `z`, which does not translate. A walk then visits `a`. The walk is inserted as `[2, 2]` instead of `[2]`. | `current_path` holds only the traversal being parsed: it is cleared when each path or walk starts, so the first walk is inserted as the nodes of its own visits. | not executed | GfaToGbwt.PathIndexer.ParsePaths, GfaToGbwt.AsWrittenMixesTraversals | GfaToGbwt.PathIndexer.ParsePathsCorrected, GfaToGbwt.CorrectedInsertsTraversals |
