# A verified model of radio-cat

radio-cat puts a radio's CAT port on the network, teaches Morse, and lays out
operating consoles. This Dafny project models the parts of it that carry the
most logic and proves what they are for. `dafny verify dfyconfig.toml` checks
the whole project.

| file | models |
|---|---|
| `Hungarian.dfy` | the optimal assignment used to score order-free copy |
| `Alignment.dfy` | edit alignment of sent and copied text, and who an extra unit is charged to |
| `Unordered.dfy` | order-free scoring: pairing sent items with copied words |
| `CharStats.dfy` | running per-character statistics |
| `Codec.dfy` | Morse text: tokenizing, printing, and typed copy |
| `Keying.dfy` | key state over time, kept run-length |
| `RadioCache.dfy`, `CacheProtocol.dfy` | the shared cache of radio state, and every interleaving of its poll with sets and reads |
| `CommandQueue.dfy` | the queue of console commands, a newer setting replacing an older |
| `Framing.dfy` | the native protocol's frames and the client's incremental reader |
| `Session.dfy` | one console connection: handshake, capability checks, what reaches the host, which pictures go out |
| `Civ.dfy` | CI-V: packed BCD, framing, addressing, the command table |
| `Layout.dfy` | solving sizes and placing panels |
| `Rng.dfy` | the seeded generator and its unbiased range |
| `Wrappers.dfy`, `Sums.dfy`, `Commands.dfy` | shared types and sums |

Code that updates things in place is a class or works on arrays here too, and
each such method is proved equal to a function whose properties are then proved
as lemmas. The two protocols (the cache and a console connection) are state
machines over their steps with a log of what happened; their theorems speak of
every run, whatever the order of steps.

Where the code and its comments disagree the model follows the code:

* `solve` in cat-layout says a minimum that does not fit is given nothing. The
  code still gives that child its share of what is left, so it can end up with
  part of its minimum. `Layout.MinHalfKept` is such a case and
  `Layout.MinExactly` says when it gets nothing and when it gets its minimum.
* `encode_bcd` in cat-framework says an oversized value is truncated so that it
  comes out of band. Dropping the top digits is taking a remainder, so it can
  come out as another frequency in band. `Civ.OverlongFrequency` is such a case,
  `Civ.SentInBandExactly` says when a value is one, and
  `Civ.OverlongOutOfBandExactly` for which bands the comment holds of all values.
* `frame_complete` in cat-framework says the terminator never appears inside a
  frame. `Civ.CompleteOnlyAtEnd` says exactly when that is so, and
  `Civ.BcdHasNoEnd` that digit parameters never spoil it; an address or code
  byte equal to the terminator does, as `Civ.TerminatorAddressEndsEarly` shows.

## Model

| member | source | states |
|---|---|---|
| `Hungarian.Assign` | cat-morse/src/score.rs:476-535 | the result is a permutation and no permutation of the columns has a smaller total, for every square matrix of non-negative entries below the sentinel; the potential of column 0, which is never read, ends at minus that total |
| `Hungarian.AddRow` | cat-morse/src/score.rs:483-527 | one round of the outer loop adds a row to the matching with prices still feasible, every held pair tight, every potential but column 0's within the largest entry of 0, and column 0's no higher |
| `Hungarian.GrowTree` | cat-morse/src/score.rs:484-518 | the alternating tree always reaches a free column, over tight edges only, and the search ends |
| `Hungarian.Pass` | cat-morse/src/score.rs:489-514 | one pass marks a column, shifts the potentials by the least slack and keeps the tree, the prices and the matching |
| `Hungarian.ScanColumns` | cat-morse/src/score.rs:491-505 | finds the least slack of an unused column and the column it is at |
| `Hungarian.ShiftPotentials` | cat-morse/src/score.rs:506-513 | raises tree rows and lowers tree columns by the least slack and nothing else, so that the potentials' total stays |
| `Hungarian.Augment` | cat-morse/src/score.rs:519-526 | following the tree back re-matches one more row, keeps every pair tight and uses up exactly the free column it began at |
| `Hungarian.PriceOfRow` | cat-morse/src/score.rs:476-535 | the row being placed is never priced above the largest entry while a column is free |
| `Hungarian.PotentialsWithin` | cat-morse/src/score.rs:476-535 | while a column is free no row is priced above the largest entry and no real column below minus it, so they all fit 64 bits |
| `Hungarian.CostOfTight` | cat-morse/src/score.rs:474-535 | potentials tight on an assignment together are its cost |
| `Hungarian.LeastIsReal` | cat-morse/src/score.rs:491-514 | the least distance a pass finds is always a slack of a tree row, never what is left of the sentinel |
| `Hungarian.RowBeyondReach` | cat-morse/src/score.rs:491-505 | from a row whose entries all reach the sentinel the first scan reaches no column, so the bound on entries is one the search needs |
| `Hungarian.TightIsOptimal` | cat-morse/src/score.rs:474-535 | feasible potentials tight on an assignment make it no dearer than any other |
| `Unordered.AlignUnordered` | cat-morse/src/score.rs:364-440 | fails with the first item that does not encode; else reports a pairing that never pairs an item with a word implausible for it, whose cost is the error total; up to 128 no plausible pairing is cheaper, past that it is the cheapest-first one |
| `Unordered.AssignmentCostsPairing` | cat-morse/src/score.rs:384-409 | an assignment of the padded matrix costs exactly what its pairing of items and words costs |
| `Unordered.AssignmentOfIsPermutation` | cat-morse/src/score.rs:384-409 | every plausible pairing is the pairing of some assignment |
| `Unordered.PlausibleExactly` | cat-morse/src/score.rs:391-403 | a word is plausible for an item exactly when some account of it has at most half as many errors as the item has units |
| `Unordered.OptimalPairing` | cat-morse/src/score.rs:410-414 | an optimal assignment's pairing is no dearer than any plausible pairing |
| `Unordered.GreedyAssign` | cat-morse/src/score.rs:449-472 | takes worthwhile pairs cheapest first: every worthwhile pair is taken or lost its item or word to one that precedes it |
| `Unordered.SameOutcome` | cat-morse/src/score.rs:449-472 | only one assignment of items to words is cheapest-first |
| `Unordered.GreedyPairing` | cat-morse/src/score.rs:449-472 | the greedy pairing is plausible throughout, no dearer than pairing nothing, and leaves no item and word that are plausible for each other |
| `Unordered.GreedyLosesOnlyToBetter` | cat-morse/src/score.rs:449-472 | a plausible pair not taken lost its item or word to a taken pair with fewer errors, or as many and an earlier item, or the same item and an earlier word |
| `Unordered.ReportedErrors` | cat-morse/src/score.rs:416-439 | the errors of the reported items and extras add up to the cost of the pairing |
| `Unordered.ItemReported` | cat-morse/src/score.rs:416-429 | each item is reported against the word it was paired with, or against nothing |
| `Unordered.ExtrasInOrder` | cat-morse/src/score.rs:430-433 | exactly the words no item was paired with are reported as extra, in order |
| `Unordered.ItemsExactly` | cat-morse/src/score.rs:369-372 | the items are read exactly when they all encode; otherwise the error is that of the first that does not |
| `Unordered.WordsAreWords` | cat-morse/src/score.rs:373-382 | every scored word is non-empty, prepared and without word spaces |
| `Unordered.WordsAreAllTheCopy` | cat-morse/src/score.rs:373-381 | the typed words joined by single spaces are the whole copy, in order, and an empty copy has none |
| `Unordered.WordsAreUnique` | cat-morse/src/score.rs:373-381 | a text is cut into words one way only |
| `Unordered.EveryWordIsScored` | cat-morse/src/score.rs:373-382 | every typed word is scored, prepared, in its place and at its length |
| `Unordered.RunsJoin` | cat-morse/src/score.rs:373-381 | the copy's runs joined by word spaces are the copy |
| `Unordered.Pair` | cat-morse/src/score.rs:410-414 | picks the optimal search up to 128 and the greedy one past it |
| `Unordered.UnorderedScore` | cat-morse/src/score.rs:333-339 | the totals' substitutions, deletions and insertions are the error total |
| `Alignment.AlignUnits` | cat-morse/src/score.rs:197-252 | the script replays both prepared texts, no script for them has fewer errors, it is the preferred one of those, and every substitution is of different units |
| `Alignment.FillTable` | cat-morse/src/score.rs:201-216 | the table filled in place holds the edit distance of every pair of prefixes |
| `Alignment.TraceBack` | cat-morse/src/score.rs:217-249 | walking back from the corner gives the script the tie-breaks pick, which is the preferred one |
| `Alignment.TraceReplays` | cat-morse/src/score.rs:217-249 | that script replays both texts with as many errors as their distance |
| `Alignment.TraceIsPreferred` | cat-morse/src/score.rs:217-249 | from the end backwards it aligns where a least script can, else deletes where one can, and only else inserts |
| `Alignment.PreferredIsUnique` | cat-morse/src/score.rs:217-249 | only one script for two texts is preferred in that way |
| `Alignment.DistanceIsLeast` | cat-morse/src/score.rs:197-252 | no script that replays two texts has fewer errors than their distance |
| `Alignment.DistanceToSelf` | cat-morse/src/score.rs:197-252 | a text is at distance 0 from itself |
| `Alignment.DistanceBounds` | cat-morse/src/score.rs:197-252 | the distance is at least the difference in length and at most the longer length |
| `Alignment.AttributeInsertions` | cat-morse/src/score.rs:257-291 | charges every insertion in place by the rule and changes nothing else |
| `Alignment.ChargedToNeighbour` | cat-morse/src/score.rs:254-291 | an insertion is charged to the sent unit before it, or to the one after it exactly when there is none before or only the one after was substituted; to none only if nothing was sent |
| `Alignment.ChargingKeepsScript` | cat-morse/src/score.rs:257-291 | charging leaves what was sent, copied and wrong unchanged |
| `Alignment.PreparedTwice` | cat-morse/src/score.rs:176-188 | preparing is idempotent |
| `Alignment.PreparedUnits` | cat-morse/src/score.rs:176-188 | preparing drops exactly the word spaces, where they are ignored, and takes two units to the same one exactly when they are equal or, where folding, differ in case or share a pattern |
| `Alignment.PreparedInParts` | cat-morse/src/score.rs:176-188 | preparing works unit by unit |
| `Alignment.Align` | cat-morse/src/score.rs:191-194 | any copy is aligned; only an expected text that does not encode fails, with its error |
| `Alignment.PerfectCopy` | cat-morse/src/score.rs:191-194 | copying an encodable text as it was sent has no errors |
| `Alignment.TotalsAddUp` | cat-morse/src/score.rs:295-309 | substitutions, deletions and insertions add up to the script's errors, and matches, substitutions and deletions to what was sent |
| `Alignment.TotalsCount` | cat-morse/src/score.rs:295-309 | each count is the number of steps of its kind |
| `Alignment.ScoreOf` | cat-morse/src/score.rs:295-309 | counts the steps of each kind |
| `CharStats.TalliesReadSteps` | cat-morse/src/score.rs:617-647 | after recording an alignment, a unit's tally is its occurrences in the sent text, its matches, its deletions, its substitutions by what each was copied as, and the insertions charged to it |
| `CharStats.AllTalliesReadSteps` | cat-morse/src/score.rs:617-662 | the same for any list of alignments: every count is the one over all their texts and steps together |
| `CharStats.ExtrasAreCharged` | cat-morse/src/score.rs:636-641 | the extras counted near a unit are the insertions whose charged place in the expected text holds it |
| `CharStats.AllSentAccounted` | cat-morse/src/score.rs:617-662 | over all tracked units, the sent counts of any list of alignments add up to the units sent that are not word spaces |
| `CharStats.AllExpectedAccounted` | cat-morse/src/score.rs:617-662 | for alignments whose steps replay their expected texts, that total is the non-space expected units recorded |
| `CharStats.AllRecordedIsSound` | cat-morse/src/score.rs:564-662 | whatever was recorded, no word space is tracked and every unit's sent count is its correct, missed and confused counts together |
| `CharStats.SplitAnywhere` | cat-morse/src/score.rs:656-661 | recording a run of alignments equals merging the stats of its two parts, wherever it is split |
| `CharStats.OrderDoesNotMatter` | cat-morse/src/score.rs:649-661 | recording the same alignments in any order gives the same stats |
| `CharStats.MergeAssociates` | cat-morse/src/score.rs:656-661 | merging is associative |
| `CharStats.MergeCommutes` | cat-morse/src/score.rs:656-661 | merging is commutative |
| `CharStats.CharStats.Record` | cat-morse/src/score.rs:616-647 | adds exactly the stats of the alignment to the stats held |
| `CharStats.CharStats.RecordUnordered` | cat-morse/src/score.rs:650-654 | adds the stats of every item and every extra word |
| `CharStats.CharStats.Merge` | cat-morse/src/score.rs:657-661 | adds the other's counts entry by entry, whatever order its map is walked in |
| `Codec.Tokenize` | cat-morse/src/codec.rs:297-339 | the loop reads exactly the tokens of the text, or the first error with its byte offset |
| `Codec.TokenizesExactly` | cat-morse/src/codec.rs:297-339 | a text tokenizes exactly when it is made of blanks, table characters in either case and prosigns named in any case, and then to what those mean |
| `Codec.ErrorsExactly` | cat-morse/src/codec.rs:297-339 | an error reports the first thing that is none of those, and the number of bytes before it |
| `Codec.PrintThenTokenize` | cat-morse/src/codec.rs:297-353 | printing any normalised token list and tokenizing it gives it back |
| `Codec.PrintsAs` | cat-morse/src/codec.rs:95-125 | how each token prints, prosigns by their upper-case names |
| `Codec.PrintsInParts` | cat-morse/src/codec.rs:351-353 | a list prints as its parts do |
| `Codec.TokenizedIsNormalised` | cat-morse/src/codec.rs:297-339 | whatever tokenizes is normalised: no leading, trailing or doubled word space, only characters and signs in the table |
| `Codec.NameRoundTrip` | cat-morse/src/codec.rs:75-94 | every prosign is read back from its name |
| `Codec.FromNameExactly` | cat-morse/src/codec.rs:88-94 | a prosign is found by exactly the names that spell it, in any case |
| `Codec.TokenizeCopy` | cat-morse/src/score.rs:143-174 | the loop reads the typed tokens of any text |
| `Codec.TypedExactly` | cat-morse/src/score.rs:143-174 | any text is blanks, characters and prosigns, a `<` being a character only where no prosign starts, and its tokens are what those mean |
| `Codec.TypedAgrees` | cat-morse/src/score.rs:143-174 | a text that tokenizes is typed to the same tokens |
| `Codec.TypedSpacing` | cat-morse/src/score.rs:143-174 | typed tokens never start or end with a word space nor hold two in a row |
| `Keying.CanonicalIsUnique` | cat-morse/src/timing.rs:270-291 | two lists of non-empty alternating stretches that last as long and key the same signal are the same list |
| `Keying.SignalDetermines` | cat-morse/src/timing.rs:270-291 | without trailing key-up the signal alone determines the list |
| `Keying.Keying.Push` | cat-morse/src/timing.rs:312-322 | a push keeps stretches non-empty and alternating and grows the list by the stretch |
| `Keying.PushedMeans` | cat-morse/src/timing.rs:312-322 | the grown list keys the old signal, then the stretch |
| `Keying.Keying.Truncated` | cat-morse/src/timing.rs:324-342 | the result keys the same signal before the cut and key-up after it, alternates, and ends key-down or is empty |
| `Keying.TruncationIsUnique` | cat-morse/src/timing.rs:324-342 | only one list can be the truncation |
| `Keying.TruncatedTwice` | cat-morse/src/timing.rs:324-342 | truncating twice is truncating once at the earlier instant |
| `Keying.TruncatedPastEnd` | cat-morse/src/timing.rs:324-342 | truncating past the end changes nothing exactly when there is no trailing key-up |
| `Keying.Keying.Append` | cat-morse/src/timing.rs:344-350 | the result keys the original, then the gap, then the other shifted in time |
| `CacheProtocol.RunKeepsInv` | cat-rigctl/src/native_bridge.rs:1317-1356 | every step of poll, set, patch, skip and read, in any order, keeps the log truthful |
| `CacheProtocol.FilingFollowsPatches` | cat-rigctl/src/native_bridge.rs:492-509 | no poll overwrites a patch it did not see: it began after every earlier patch, and after the wire write behind each |
| `CacheProtocol.UnassumedIsMeasured` | cat-rigctl/src/native_bridge.rs:249-280 | while nothing is assumed, the cached frequency, mode, split and transmitting flag were each read by one poll that began after every patched set's write |
| `CacheProtocol.SkipIsJustified` | cat-rigctl/src/cached.rs:133-140 | a set is skipped only when a poll that began after every earlier patch read that very frequency within 600 ms |
| `CacheProtocol.ModeFollowsPatches` | cat-rigctl/src/cached.rs:142-174 | a mode served from the cache was read by a poll that began after every earlier patch |
| `CacheProtocol.SetIsServed` | cat-rigctl/src/cached.rs:123-140 | after a set is patched its frequency is served until another frequency patch or a poll begun after it |
| `CacheProtocol.ServedIsRecent` | cat-rigctl/src/cached.rs:110-131 | a served frequency rests on a poll begun within the read window |
| `CacheProtocol.ReadsExactly` | cat-rigctl/src/cached.rs:110-131 | in every run a frequency or split read is answered from the cache exactly when the last filed reading was asked for within twelve seconds |
| `CacheProtocol.ModeReadsExactly` | cat-rigctl/src/cached.rs:142-161 | in every run a mode read is answered from the cache exactly when also no patch came since that reading's poll began and the mode has a name |
| `CacheProtocol.SkipsExactly` | cat-rigctl/src/cached.rs:133-140 | in every run a frequency set is skipped exactly when a reading of that frequency was asked for within 600 ms by a poll no patch has followed |
| `CacheProtocol.FilesExactly` | cat-rigctl/src/native_bridge.rs:492-509 | in every run a finished poll is filed exactly when no patch came since it began |
| `RadioCache.NativeShared.PublishState` | cat-rigctl/src/native_bridge.rs:492-509 | files a reading only when no patch came since it was asked for |
| `RadioCache.NativeShared.PatchState` | cat-rigctl/src/native_bridge.rs:573-584 | moves the generation on, marks the cache assumed, and changes the state held if there is one |
| `RadioCache.NativeShared.RecentState` | cat-rigctl/src/native_bridge.rs:539-545 | yields the state while it is young enough |
| `RadioCache.NativeShared.MeasuredState` | cat-rigctl/src/native_bridge.rs:550-559 | yields the state while it is young enough and nothing in it is assumed |
| `RadioCache.Cached.SetVfoA` | cat-rigctl/src/cached.rs:133-140 | skips exactly when the measured state of the last 600 ms holds that frequency |
| `RadioCache.Cached.GetMode` | cat-rigctl/src/cached.rs:142-161 | serves a measured mode whose id the radio has a mode for, and goes to the wire for anything else |
| `CommandQueue.Queue.Enqueue` | cat-rigctl/src/native_bridge.rs:1113-1149 | drops the waiting commands of the same slot and puts the new one last |
| `CommandQueue.Queue.TakeQueued` | cat-rigctl/src/native_bridge.rs:511-516 | hands over everything waiting, in order, and leaves nothing |
| `CommandQueue.ContendsExactly` | cat-rigctl/src/native_bridge.rs:209-233 | two commands contend exactly when they set the same control: the frequency of one VFO, mode, split, memory channel, filter width, IF shift, dial or keyer speed |
| `CommandQueue.EveryCommandOnce` | cat-rigctl/src/native_bridge.rs:193-233 | in every run at most one command waits per control, survivors keep their order, and each command is waiting, taken or superseded, exactly one of them, once |
| `CommandQueue.SupersededExactly` | cat-rigctl/src/native_bridge.rs:1119-1144 | a command is superseded exactly when a later one for the same control was put while it was still waiting |
| `CommandQueue.SurvivorsSuffice` | cat-rigctl/src/native_bridge.rs:193-233 | as long as the commands for one control write the same registers, applying only the survivors leaves every register as applying every command would, even where different controls share registers |
| `CommandQueue.SettingsSurvive` | cat-rigctl/src/native_bridge.rs:193-233 | so it is for a radio with one register for each control and VFO |
| `Framing.FrameRoundTrip` | cat-native/src/lib.rs:151-176 | a well-formed frame is decoded from any bytes that start with it |
| `Framing.EncodedLayout` | cat-native/src/lib.rs:111-157 | a frame is its kind as one, two or three, its length in four bytes, highest first, and its payload |
| `Framing.DecodesExactly` | cat-native/src/lib.rs:163-176 | exactly when decoding waits for more, refuses an unknown kind, or refuses a control length past the limit |
| `Framing.FramePrefixIncomplete` | cat-native/src/lib.rs:151-176 | every proper prefix of a well-formed frame is incomplete, never an error |
| `Framing.DecodeIsStable` | cat-native/src/lib.rs:163-176 | more bytes never change a decoded frame or an error |
| `Framing.Connection.DrainFrames` | cat-native/src/client.rs:521-556 | the draining loop takes every complete frame, queues control payloads or their decoding failures, keeps the newest pictures, and drops everything read on a framing error |
| `Framing.ParseInTwo` | cat-native/src/client.rs:521-556 | parsing bytes at once or in two goes gives the same frames and tail |
| `Framing.ChunksDoNotMatter` | cat-native/src/client.rs:521-556 | as long as the bytes hold no error, how they are cut into reads makes no difference |
| `Framing.CutsMatterExactly` | cat-native/src/client.rs:521-556 | how any bytes are cut into reads makes no difference to the final state exactly when no framing error shows before their last byte |
| `Framing.AbsorbMeans` | cat-native/src/client.rs:533-552 | what control payloads decode to queues in order and only the newest decodable picture of each kind is kept |
| `Framing.MessagesInOrder` | cat-native/src/client.rs:533-552 | exactly the control frames are queued, in order, decoded or as failures |
| `Framing.NewestIsLast` | cat-native/src/client.rs:533-552 | the picture kept is the last of its kind that decodes |
| `Framing.StreamIsRead` | cat-native/src/client.rs:521-556 | however a stream of well-formed frames is cut, and wherever it stops, the client holds every whole payload, the newest pictures, exactly the tail, and no error |
| `Framing.ErrorIsReported` | cat-native/src/client.rs:526-532 | an error is reported exactly when the bytes together hold one, however they are cut |
| `Framing.BrokenStreamDependsOnCuts` | cat-native/src/client.rs:526-532 | a family of streams whose cuts do matter: bytes read along with the bad frame are lost, later ones are not |
| `Session.NativeSession.Handle` | cat-native/src/lib.rs:977-1065 | answers a message and updates the session as specified: hello with what the radio and its bench offer, ping, reads, and commands after validation |
| `Session.AppliesExactly` | cat-native/src/lib.rs:1073-1256 | the session passes a command to the host exactly when it is handshaken and the radio, and for CW the server, is able to do it |
| `Session.RefusedExactly` | cat-native/src/lib.rs:1073-1256 | a command is refused as unsupported exactly when the radio or server lacks what it is about, as forbidden exactly when an arming is unsafe, and as out of range otherwise |
| `Session.RunKeepsInv` | cat-native/src/server.rs:388-458 | in every run the session's wishes are those of the latest accepted hello, so audio is wanted only once handshaken |
| `Session.OnlyPermittedReachHost` | cat-native/src/server.rs:388-413 | in every run, `serves_cw` changing at will, a command reaches the host exactly when it follows a version-matching hello and is within the radio's abilities; a CW command only while CW is served and present; a read never |
| `Session.OnlyWantedFramesSent` | cat-native/src/server.rs:429-458 | in every run no spectrum or audio frame goes out unless the latest accepted hello asked for it, and never the same one twice running |
| `Session.PumpsExactly` | cat-native/src/server.rs:429-458 | in every run, at its turn, a picture goes out exactly when the latest accepted hello asked for it and it is not the last one sent |
| `Session.OneReplyEach` | cat-native/src/server.rs:372-425 | in every run each message, decodable or not, gets exactly one reply, before anything else is sent, and each reply answers exactly one message |
| `Session.RepliesSay` | cat-native/src/lib.rs:977-1065 | in every run a welcome offers CW exactly when it is served and present, reads reply with what was last published, and commands are acknowledged or refused for the reason there is |
| `Civ.EncodeBcd` | cat-framework/src/civ.rs:308-320 | the loop writes the value's low digit pairs, least significant first |
| `Civ.EncodeBcdBe` | cat-framework/src/civ.rs:340-344 | the same pairs, most significant first |
| `Civ.DecodeBcd` | cat-framework/src/civ.rs:365-376 | refuses exactly the bytes with a nibble above nine, else gives the number they spell in 64 bits |
| `Civ.DecodeBcdBe` | cat-framework/src/civ.rs:347-358 | the same for the other byte order |
| `Civ.DecodeOfEncode` | cat-framework/src/civ.rs:308-376 | decoding an encoded value gives it modulo 100 to the number of bytes, in both byte orders |
| `Civ.EncodeOfDecode` | cat-framework/src/civ.rs:308-376 | re-encoding decoded bytes gives them back exactly when the number fits 64 bits, as up to nine bytes always do |
| `Civ.EncodeOfDecodeBe` | cat-framework/src/civ.rs:340-358 | the same for the other byte order |
| `Civ.OverlongFrequency` | cat-framework/src/civ.rs:300-320 | a five-byte frequency past ten gigahertz can go out inside the 20 m band |
| `Civ.SentWholeExactly` | cat-framework/src/civ.rs:308-376 | a value is decoded as itself exactly when it is not too large for its bytes |
| `Civ.SentInBandExactly` | cat-framework/src/civ.rs:300-320 | a value goes out in a band exactly when its remainder by 100 to the number of bytes is in the band |
| `Civ.OverlongOutOfBandExactly` | cat-framework/src/civ.rs:300-320 | all values too large for their bytes go out of a band exactly when the band is empty or beyond what the bytes can say, or there are ten bytes and so no such 64-bit value |
| `Civ.EncodeRequest` | cat-framework/src/civ.rs:267-280 | pushes preamble, radio, controller, code, parameters and terminator |
| `Civ.EncodeResponse` | cat-framework/src/civ.rs:144-158 | the same with the addresses swapped |
| `Civ.EnvelopeRoundTrip` | cat-framework/src/civ.rs:206-226 | parsing accepts exactly framed non-empty payloads and recovers addresses and payload |
| `Civ.EchoIsNotAnswer` | cat-framework/src/civ.rs:118-132 | a request is an echo and a response is for us, never the other way round exactly when the addresses differ, and a response is for its own format only |
| `Civ.CommandFoundAgain` | cat-framework/src/civ.rs:231-264 | a framed table command is found with its parameters exactly when no sub-commanded entry shadows its first parameter; when one does, that entry is found instead |
| `Civ.BcdHasNoEnd` | cat-framework/src/civ.rs:283-291 | with digit parameters the terminator is inside a request exactly when it is one of the addresses or code bytes |
| `Civ.CompleteOnlyAtEnd` | cat-framework/src/civ.rs:283-291 | a frame is complete at its last byte and nowhere before exactly when no inner byte is the terminator |
| `Civ.TerminatorAddressEndsEarly` | cat-framework/src/civ.rs:283-291 | with the terminator for a radio address every request reads as complete at its third byte |
| `Civ.ReadFrame` | cat-transport-serial/src/session.rs:128-172 | reads the shortest complete prefix of a line, what there is when the line ends, or fails: on a read error, at the deadline, or after 64 bytes without a terminator |
| `Civ.FrameReadWhole` | cat-transport-serial/src/session.rs:128-172 | a line that starts with a frame is read as that frame exactly when no inner byte is the terminator and it has at most 64 bytes |
| `Civ.ReadOneWay` | cat-transport-serial/src/session.rs:128-172 | a line is read one way only |
| `Layout.Solve` | cat-layout/src/lib.rs:466-536 | the passes compute the solved lengths, none negative, together within the total |
| `Layout.SolvedAddsUp` | cat-layout/src/lib.rs:466-536 | the lengths add up to the total when some child has a weight, and otherwise fall short by exactly what the stated sizes leave |
| `Layout.RoundingLoss` | cat-layout/src/lib.rs:505-533 | rounding loses less than one unit per weighted child |
| `Layout.SolvedBounds` | cat-layout/src/lib.rs:466-536 | a child gets at least what the first pass gave it, and no more without a weight |
| `Layout.StatedInOrder` | cat-layout/src/lib.rs:471-489 | stated sizes are met in order, each whole if it fits what those before left and else not at all |
| `Layout.GrowersTakeTheRest` | cat-layout/src/lib.rs:491-533 | only weighted children get more than their stated size, and if there is one they take all that is left |
| `Layout.GrowInProportion` | cat-layout/src/lib.rs:505-533 | weighted children grow in proportion to their weights to within the rounding, which goes to the last of them |
| `Layout.FixedAllOrNothing` | cat-layout/src/lib.rs:471-489 | a fixed size is given whole or not at all |
| `Layout.MinExactly` | cat-layout/src/lib.rs:463-536 | a minimum is kept exactly when it found room, and gets nothing exactly when its share rounds to nothing and it is not handed the rounding |
| `Layout.MinHalfKept` | cat-layout/src/lib.rs:463-536 | a minimum can be half kept |
| `Layout.NoOverflow` | cat-layout/src/lib.rs:505-525 | every product the second pass forms before dividing fits 32 bits and every share 16, as its loop relies on |
| `Layout.Resolve` | cat-layout/src/lib.rs:359-363 | the placements are non-empty, inside the area, pairwise apart and in tree order |
| `Layout.ChildrenInOrder` | cat-layout/src/lib.rs:407-453 | a split's children are placed one below the other for rows and one beside the other for columns, each as long as solved from its stated or natural size |
| `Layout.PlaceInside` | cat-layout/src/lib.rs:407-442 | every placement lies inside the area and is not empty |
| `Layout.PlaceApart` | cat-layout/src/lib.rs:407-442 | no two placements share a cell |
| `Layout.PlaceInTreeOrder` | cat-layout/src/lib.rs:289-295 | the panels placed are a subsequence of the tree's panels |
| `Layout.CoveredExactlyWhenFilled` | cat-layout/src/lib.rs:407-442 | every cell is on a panel exactly when every split reached hands out its whole length |
| `Layout.ElasticTiles` | cat-layout/src/lib.rs:407-453 | if every split has a weighted child each cell is on exactly one panel |
| `Rng.NeverZero` | cat-morse/src/rng.rs:29-79 | from any seed the generator never reaches the all-zero state it could not leave |
| `Rng.PinnedWords` | cat-morse/src/rng.rs:29-79 | seed 0 gives the pinned first word, and its next two |
| `Rng.RangeU32` | cat-morse/src/rng.rs:93-107 | takes the first draw that is kept, in range, for bounds in either order and the full span |
| `Rng.DrawWindow` | cat-morse/src/rng.rs:93-107 | which draws are kept and which value each gives |
| `Rng.RangeIsUniform` | cat-morse/src/rng.rs:93-107 | over all 32-bit draws every value of the range is given by equally many kept draws |

## Left out

- Hungarian.Assign: needs every entry below the `i64::MAX / 4` the code uses for "not reached"; an entry of that size is not told from a column no row has reached. Potentials are unbounded here: only column 0's can leave 64 bits, exactly when the least total exceeds 2 to the 63rd, where the code wraps it unread or, with overflow checks, stops.
- Unordered.AlignUnordered: for the same reason, where the optimal search is used, needs fewer than `i64::MAX / 4` units in the texts, far past the `u32` cells of the edit table.
- Unordered.Pair: the same bound on the optimal search, and none on the greedy one.
- Unordered.GreedyAssign: sorts its candidates by insertion where the code calls the library's unstable sort; the keys are distinct, so the order is the same.
- Rng.RangeU32: draws from a given finite stream of words; that the loop of the code ends with probability one is not stated.
- Rng.NeverZero: models the state's step as a function, not its in-place rewriting; `fork` and the floating-point draws are not modelled.
- Framing.Connection.DrainFrames: takes which payloads decode as parameters; JSON and the bytes of a picture are not modelled.
- Session.NativeSession.Handle: refusals carry their code, not their text, and layout, theme and installation are opaque; the frame interval is left out, and every pump turn of a run stands for one where the interval has passed.
- CacheProtocol.RunKeepsInv: a poll reads its fields one at a time while sets land in between; levels, meters and CW settings read along with it are left out.
- Civ.ReadFrame: reads from a given line that ends, fails or goes silent after its bytes; the clock and draining the port are left out.
- Civ.EncodeOfDecode: numbers past 64 bits wrap as they do without overflow checks; with them the code stops instead.
- Widths: counts, scores, weights and coordinates are unbounded; `u32` tallies and scores, the `u16` sum of an offset and a length, and the cache's generation counter do not wrap here.
- Sockets, threads, locks and their poisoning, timeouts, and JSON.
- The CW transmit supervisor and its timers.
- The order in which the pump answers queued commands, and the replies to superseded ones.
- The server's own byte loop, which stops on any framing error.
- Speeds, fists, the keyer that turns tokens into durations, the decoder, signal processing and synthesis: floating point.
- Element patterns and decoding a group of elements back to a character: a fixed table.
- Error rates, accuracies and the ranking of the weakest characters: floating point over counts modelled here.
- The radio-specific command tables and their Hamlib front end.
