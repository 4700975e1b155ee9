# Verified model of the desktop back end

This project models the self-contained algorithms and protocols of the Rust back end and proves what
they are for: the resumable file transfer and its framing, the fuzzy matcher, the frequency trie, the
calculator, the invite codes, the local search engine with its cache, the pairing ceremony, the
presence loop, the directory indexer and the Bloom filter.

Code that updates things in place is modelled in place: the trie is a heap of nodes, the Levenshtein
rows and the Jaro flags are arrays, the parser moves a cursor, and the receiver, the queue, the engine,
the presence loop, the scanner, the byte stream and the Bloom filter are objects. Each such method is
proved equal to a function of its inputs or of the old state, and the theorems are about that function,
over all inputs and all runs.

Whatever the code only passes around is a parameter: numbers of the calculator with their operations,
lower-casing, the encoding of control messages, checksums, Diffie-Hellman, sealing and opening of
frames, the full-text index, the answers of the database, the clock, the trust set, the outcome of
every read, connection and flush.

| file | what it is about |
|---|---|
| `Levenshtein.dfy`, `Jaro.dfy`, `JaroExact.dfy`, `Fuzzy.dfy`, `Sorting.dfy` | the fuzzy matcher and the stable sort it relies on |
| `TrieModel.dfy`, `TrieSearch.dfy`, `Trie.dfy` | the trie as a value, its ranked prefix search, and the in-place program |
| `Calc.dfy`, `CalcGrammar.dfy`, `CalcText.dfy` | tokenizer and recursive-descent parser, the grammar they implement, and the texts they accept |
| `Invite.dfy` | base-25 invite codes and the errors they detect |
| `Framing.dfy`, `Queue.dfy`, `TransferModel.dfy`, `TransferSafety.dfy`, `TransferChanges.dfy`, `TransferResume.dfy`, `Transfer.dfy` | the resumable pull, from bytes on the wire to history rows, for files that stay and files that change, and what an interrupted pull leaves for the next |
| `Engine.dfy`, `EngineExact.dfy`, `EngineFolders.dfy`, `EngineCache.dfy`, `EngineFlights.dfy` | the search pipeline, what a query is taken for, the folder search, what the cache shows, and searches that overlap |
| `Pairing.dfy`, `PairingRefusal.dfy`, `Discovery.dfy` | pairing as a step system, pairings that do not come about, presence as a loop |
| `Indexer.dfy`, `IndexerRows.dfy` | the batched directory walk, and which rows a tree has |
| `Bloom.dfy`, `BloomProbes.dfy` | the packed bit set, and when the probes of a term are different positions |
| `Sequences.dfy`, `Wrappers.dfy` | facts about slices, and stock result types |

Where code and comments disagree the model follows the code:

- The comment in `manual_pair.rs` says a wrong code is rejected almost always. Every wrong code that
  differs inside three adjacent characters, or by exchanging two characters, is always rejected
  (`Invite.BurstRefused`, `Invite.SwapRefused`).
- The cache of `engine.rs` leaves the result limit out of its key, and `add_file` and `remove_file` do not
  clear it. A second search of a key is right for all stores if and only if it repeats the first limit
  (`EngineCache.LimitHarmlessIff`); with another limit it is too short or longer than asked for
  (`EngineCache.LimitIsNotInTheKey`). Every trie change is seen if and only if the key is not cached
  (`EngineCache.ChangeSeenIff`).
- A search awaits the database between its look into the cache and its store, so one that is under way
  during `rebuild` stores an old answer after the cache was cleared. A rebuild is seen for all new contents
  if and only if no search for the key is under way or that search fails (`EngineFlights.RebuildSeenIff`);
  `EngineFlights.RebuildIsForgotten` is an instance.
- Success of a transfer is not always success with the sender's checksum. When the remote file grows after
  its size was announced, the first surplus chunk is read as the control frame; if it happens to decode as a
  control message with the checksum of the local file, the attempt succeeds, whatever the sender sent.
  `TransferChanges.MisledIff` shows that this is the only way, for whole answers and for answers cut off
  anywhere, and `TransferChanges.GrownFileReadAsControl` is an instance. A file that shrank after its size was
  announced only makes the attempt fail.
- A recorded offset past the end of the remote file is never corrected by the retries: all seven attempts
  are refused (`TransferChanges.OffsetPastEndNeverRecovers`).
- A flush that fails inside a subdirectory ends the walk of that subdirectory and nothing else, so a
  successful scan can leave qualifying files out of the table: it stores all of them if and only if no row
  was left out that way (`Indexer.ScanStoresIff`). Its count is short by the files queued in subdirectories
  whose flush failed (`Indexer.ScanCountIff`).
- The text of a folder query is not lowered; the database ignores the case of ASCII letters. Two texts find
  the same folders in every table if and only if they differ in the case of ASCII letters only
  (`EngineCache.FolderVariantsIff`): for other letters the case matters in folder queries and nowhere else
  (`EngineCache.AccentsMatter`).
- The comment in `bloom.rs` says an odd step keeps the probes of a term distinct. They are distinct for all
  hash values if and only if there are no more of them than the largest power of two that divides the table
  size (`BloomProbes.ProbesDistinctIff`). The smallest filter the engine builds is not such a table
  (`BloomProbes.EngineProbesMeet`). No other theorem here depends on it.

## Model

| member | source | states |
|---|---|---|
| Levenshtein.LevIsEditDistance | src-tauri/src/search/fuzzy.rs:67-87 | the distance is the length of a shortest script of single-character insertions, deletions and substitutions: some script has that length, and every script that works is at least as long |
| Levenshtein.Distance | src-tauri/src/search/fuzzy.rs:67-87 | the two-row loop, with its swap to the shorter string and its row exchange, returns that distance for every pair of strings |
| Levenshtein.EditDistanceIsMetric | src-tauri/src/search/fuzzy.rs:67-87 | zero exactly for equal strings, symmetric, triangle inequality |
| Levenshtein.LevBound | src-tauri/src/search/fuzzy.rs:67-87 | no distance exceeds the longer length, so the fallback score cannot be negative |
| Levenshtein.LevSymmetric | src-tauri/src/search/fuzzy.rs:67-72 | the swap at the start cannot change the result |
| Jaro.GreedySound | src-tauri/src/search/fuzzy.rs:29-43 | matched partners hold the same character, lie inside the window, and no position is used twice |
| Jaro.MatchChars | src-tauri/src/search/fuzzy.rs:29-43 | the nested loops leave exactly the flags and the count of the greedy matching |
| Jaro.SameMatched | src-tauri/src/search/fuzzy.rs:29-60 | both strings contribute the same characters with the same multiplicities, hence the same number of flags |
| Jaro.CountTranspositions | src-tauri/src/search/fuzzy.rs:48-60 | the scan for the next flagged position never leaves the array, and the count is the number of places where the two lists of matched characters differ |
| Jaro.Score | src-tauri/src/search/fuzzy.rs:19-64 | the whole function computes the Jaro score, empty inputs included |
| Jaro.JaroRange | src-tauri/src/search/fuzzy.rs:19-64 | the score lies in [0, 1] |
| Jaro.JaroOneIffEqual | src-tauri/src/search/fuzzy.rs:19-64 | the score is 1 exactly for equal strings: halving the mismatches hides no difference, since a single mismatch is impossible |
| Jaro.GreedyOnEqual | src-tauri/src/search/fuzzy.rs:29-43 | on equal strings the greedy choice is the identity although the window reaches backwards |
| Jaro.Winkler | src-tauri/src/search/fuzzy.rs:4-17 | the prefix bonus loop computes the Jaro-Winkler score, which lies in [0, 1] and is 1 exactly for equal strings |
| Jaro.WinklerRange | src-tauri/src/search/fuzzy.rs:4-17 | the bonus never lowers the score, never exceeds 1 and never creates a false 1 |
| JaroExact.MatchingExact | src-tauri/src/search/fuzzy.rs:29-44 | the matching pass computes the one pairing in which every position of the first string in turn has the first position of the second that holds the same character, lies closer than half the longer length (or at the same place), and is not given away yet; and none when there is no such position |
| JaroExact.ScoreExact | src-tauri/src/search/fuzzy.rs:45-63 | with m paired characters, of which t meet another character at the same rank, the score is (m/len1 + m/len2 + (m - t/2)/m)/3, halving rounded down, and 0 when nothing is paired |
| JaroExact.WinklerExact | src-tauri/src/search/fuzzy.rs:4-17 | the bonus is a tenth of what is missing to 1 for each of the at most four common leading characters |
| JaroExact.Martha | src-tauri/src/search/fuzzy.rs:167-169 | the example of the tests: 17/18, and 0.9611 with the bonus |
| Fuzzy.MatchCandidates | src-tauri/src/search/fuzzy.rs:98-132 | scoring loop, stable sort and truncation compute the ranked candidates |
| Fuzzy.ScoreRange | src-tauri/src/search/fuzzy.rs:108-121 | whichever branch scores a name, the score is in [0, 1], and it is 1 exactly for the queried name |
| Fuzzy.RankedSorted | src-tauri/src/search/fuzzy.rs:98-132 | results are rows of the input, best score first, within the limit |
| Fuzzy.ExactNameFirst | src-tauri/src/search/fuzzy.rs:98-132 | the first row whose name equals the query up to case is the first result |
| Fuzzy.KeptExact | src-tauri/src/search/fuzzy.rs:105-131 | results come exactly from the rows whose Jaro-Winkler score reaches the threshold or whose edit distance is within the bound, with that score or with the part of the longer name that needs no edit; only the limit leaves any of them out |
| Sorting.StableSortCorrect | src-tauri/src/search/fuzzy.rs:129 | the sort used by matcher, trie and engine is ordered, a permutation, and keeps the order inside every class of equals |
| Sorting.StableSortUnique | src-tauri/src/search/fuzzy.rs:129 | that promise has one solution, so any stable sort gives the modelled result |
| TrieModel.InsertCanonical | src-tauri/src/search/trie.rs:72-85 | insertion keeps children strictly sorted and leaves no dead node |
| TrieModel.RemoveCanonical | src-tauri/src/search/trie.rs:97-123 | removal keeps that form by pruning, changes nothing for a missing key, and reports exactly the stored keys |
| TrieModel.LookupInsert | src-tauri/src/search/trie.rs:72-85 | the map gains one count at the key with the first value kept, and is unchanged at every other key |
| TrieModel.LookupRemove | src-tauri/src/search/trie.rs:97-123 | the map loses one count at the key, the key itself with the last one, and is unchanged at every other key |
| TrieModel.CanonicalUnique | src-tauri/src/search/trie.rs:35-50 | two canonical tries with the same map have the same shape |
| TrieModel.InsertThenRemove | src-tauri/src/search/trie.rs:72-123 | removing what was just inserted restores the very shape |
| TrieSearch.SearchIsTopOfRanking | src-tauri/src/search/trie.rs:139-162 | prefix search returns the values of the first keys of the ranking: stored keys with the prefix, each once, by count descending and then key order |
| TrieSearch.RankingUnique | src-tauri/src/search/trie.rs:139-162 | there is only one such ranking |
| TrieSearch.SearchDetermined | src-tauri/src/search/trie.rs:139-162 | hence any listing with that order predicts the result position by position |
| TrieSearch.NodeCountIsPrefixCount | src-tauri/src/search/trie.rs:177-201 | the node count is the number of distinct prefixes of stored keys, the empty one always counted |
| TrieProgram.Trie.Insert | src-tauri/src/search/trie.rs:72-85 | on the heap: the map gets one more occurrence, only nodes of this trie or new ones are touched, and the invariant that ties nodes, map and size is kept |
| TrieProgram.Trie.Remove | src-tauri/src/search/trie.rs:88-95 | the result says whether the key was stored, the map loses one occurrence, no foreign node is touched |
| TrieProgram.Trie.Get | src-tauri/src/search/trie.rs:126-136 | the cursor loop answers with the first value stored for the key, or nothing |
| TrieProgram.Trie.PrefixSearch | src-tauri/src/search/trie.rs:139-151 | descent, collection, stable sort and truncation give the top of the ranking of the map |
| TrieProgram.Trie.Len | src-tauri/src/search/trie.rs:165-167 | the size field is the number of distinct stored keys |
| TrieProgram.Trie.NodeCount | src-tauri/src/search/trie.rs:177-179 | the count is the number of distinct prefixes of the keys of the map |
| TrieProgram.Descend | src-tauri/src/search/trie.rs:72-85 | the cursor loop of insertion: finishing the insertion at the cursor and putting the result back at its place is the whole insertion |
| TrieProgram.ChildOrInsert | src-tauri/src/search/trie.rs:35-43 | the child found or made is the one the tree model has, at its sorted place |
| TrieProgram.RemoveRec | src-tauri/src/search/trie.rs:97-123 | the recursive removal on nodes is the removal on trees, its two flags included |
| TrieProgram.SameContentsSameShape | src-tauri/src/search/trie.rs:35-50 | two trie objects with the same contents have the same shape, whatever their histories |
| TrieProgram.RanksUnique | src-tauri/src/search/trie.rs:139-151 | the map alone decides what a prefix search returns |
| Calc.Tokenize | src-tauri/src/search/calc.rs:28-75 | the index loop yields the token list of the text or the first bad character or number |
| Calc.Parser.Expr | src-tauri/src/search/calc.rs:95-111 | value, error and cursor of the sum loop are those of the specification |
| Calc.Parser.Term | src-tauri/src/search/calc.rs:113-133 | value, error and cursor of the product loop, with the check for a zero divisor |
| Calc.Parser.Factor | src-tauri/src/search/calc.rs:135-150 | literals, unary minus and parentheses, with every error of a missing or wrong token |
| Calc.Evaluate | src-tauri/src/search/calc.rs:153-164 | tokenizing, parsing and the check for leftover input are the specified evaluation |
| CalcGrammar.EvaluateComplete | src-tauri/src/search/calc.rs:95-164 | every token list the grammar derives evaluates to its tree's value or to division by zero, never to a parse error |
| CalcGrammar.EvaluateExact | src-tauri/src/search/calc.rs:95-164 | a value is returned exactly for the token lists the grammar derives, and it is the value of the derived tree |
| CalcGrammar.UniqueTree | src-tauri/src/search/calc.rs:95-150 | a token list has at most one tree: precedence and left associativity leave no choice |
| CalcGrammar.RenderRoundTrip | src-tauri/src/search/calc.rs:95-164 | a tree rendered with only the parentheses precedence needs evaluates to the value of the tree |
| CalcGrammar.RenderTextRoundTrip | src-tauri/src/search/calc.rs:28-164 | the same for text, with any white space, or none, before, between and after the tokens |
| CalcGrammar.TextRoundTrip | src-tauri/src/search/calc.rs:28-164 | the same for text with redundant parentheses |
| CalcGrammar.DivisionByZeroWins | src-tauri/src/search/calc.rs:113-164 | once a zero divisor is met, no continuation, well-formed or not, changes the error |
| CalcText.TokenizeExact | src-tauri/src/search/calc.rs:28-75 | the tokenizer accepts exactly the texts of words with white space around them, white space being obligatory between two numerals, and reads one token from each word; a numeral is any text over the ten digits and the dot that parses as a number |
| CalcText.EvaluateTextExact | src-tauri/src/search/calc.rs:153-164 | a value is returned exactly for the texts that write an expression of the grammar, with any white space, and it is the value of that expression |
| CalcText.ForeignRejected | src-tauri/src/search/calc.rs:60-71 | a character that is no digit, dot, white space, operator or parenthesis makes the text a parse error; it, an earlier such character, or a numeral that does not parse is blamed |
| CalcText.OneOperator | src-tauri/src/search/calc.rs:95-150 | the four operators between any two literals, the minus before one and parentheses around one, as texts, division by zero included |
| CalcText.TwoOperators | src-tauri/src/search/calc.rs:95-133 | three literals with two operators, as texts: operators of one level from left to right, products before sums |
| CalcText.Malformed | src-tauri/src/search/calc.rs:135-163 | the error for white space alone, for a missing operand, operator or parenthesis, and for a leftover |
| CalcText.InvalidNumeral | src-tauri/src/search/calc.rs:65-68 | a run of digits and dots that is no number is reported in full |
| Invite.Encode | src-tauri/src/network/manual_pair.rs:35-54 | the digit array filled from the back and the dash inserted after five characters are the code of the packed number |
| Invite.Decode | src-tauri/src/network/manual_pair.rs:61-87 | every rejection and the accumulated value are the specified decoding, and the 64-bit accumulator never wraps |
| Invite.DecodeEncode | src-tauri/src/network/manual_pair.rs:35-87 | all 2^32 addresses come back from their code with any separators put in or left out anywhere and any letters in lower case |
| Invite.EncodeDecode | src-tauri/src/network/manual_pair.rs:61-87 | an accepted code is the code of the address it names, up to separators and lower case |
| Invite.OtherPortRefused | src-tauri/src/network/manual_pair.rs:80-83 | a code packed with any other port is refused |
| Invite.CleanIgnoresStyle | src-tauri/src/network/manual_pair.rs:62-66 | a separator anywhere and a lower-case letter anywhere leave the normal form alone |
| Invite.CleanForgetsStyle | src-tauri/src/network/manual_pair.rs:62-66 | a typed text has the normal form of a code if and only if it is that code with separators put in or left out and letters in lower case |
| Invite.ElevenDigits | src-tauri/src/network/manual_pair.rs:24 | eleven base-25 digits hold 48 bits and stay below 2^64, ten do not hold 48 bits |
| Invite.CodeSpelled | src-tauri/src/network/manual_pair.rs:17-54 | the code of every address and port, letter by letter: the base-25 digits of the address times 2^16 plus the port, highest first, in the letters of the alphabet, with a dash after the fifth |
| Invite.BurstRefused | src-tauri/src/network/manual_pair.rs:30-34 | every change confined to three adjacent characters of a valid code is refused, stronger than the comment |
| Invite.SwapRefused | src-tauri/src/network/manual_pair.rs:30-34 | exchanging any two different characters of a valid code is refused |
| Framing.Le32RoundTrip | src-tauri/src/network/crypto.rs:88-101 | the length prefix round-trips for every 32-bit length and no other four bytes encode it |
| Framing.FrameLayout | src-tauri/src/network/crypto.rs:88-101 | up to 64 MB a frame is its length, lowest byte first, and the payload; reading takes the length from those bytes and refuses what is longer or cut |
| Framing.CutReadsPrefix | src-tauri/src/network/mod.rs:66-84 | reading any byte prefix of written frames gives the longest list of payloads that fits, never a wrong payload, and all of them when nothing is cut |
| Framing.CutSessionDeliversPrefix | src-tauri/src/network/mod.rs:87-100 | the same for sealed messages: a cut session delivers a prefix of the plaintexts |
| Framing.Stream.WritePlain | src-tauri/src/network/mod.rs:66-71 | an oversized payload writes nothing, any other appends its frame |
| Framing.Stream.ReadPlain | src-tauri/src/network/mod.rs:73-84 | a whole frame is consumed and returned; a cut, missing or oversized one is an error |
| Framing.Stream.ReadEnc | src-tauri/src/network/mod.rs:97-100 | the next plaintext of the session, or an error where the session ends |
| Queue.PushKeeps | src-tauri/src/network/queue.rs:44-54 | a push keeps ids distinct and the bound; a listed id keeps its place and shows the pushed entry, a new one comes first and only the oldest entry gives way |
| Queue.UpdateKeeps | src-tauri/src/network/queue.rs:57-63 | an update touches the one entry with the id, keeps order and bound, and is then what the queue shows |
| Queue.PushElsewhere | src-tauri/src/network/queue.rs:44-54 | a push for another transfer does not change what the queue shows for this one |
| Queue.TransferQueue.Push | src-tauri/src/network/queue.rs:44-54 | replace in place, or push to the front and trim |
| Queue.TransferQueue.Update | src-tauri/src/network/queue.rs:57-63 | the in-place update is the specified one |
| TransferModel.ServeOneFile | src-tauri/src/network/transfer.rs:348-404 | the frames sent are the start message with the size seen first, the reads up to the first empty one, and the checksum of the content seen when it was hashed, or the one error message; when the three looks agree they are the whole answer for that file |
| TransferSafety.AttemptSafe | src-tauri/src/network/transfer.rs:412-590 | one attempt against an unchanging file succeeds exactly when the whole answer arrives, then the file is complete and the row says so; otherwise the connection error is the only error and the row is ready for the next attempt |
| TransferSafety.RequestSafe | src-tauri/src/network/transfer.rs:595-690 | at every moment of a call the local file is a prefix of the remote one and the recorded bytes do not exceed it; success means equal byte for byte |
| TransferSafety.EveryRunSafe | src-tauri/src/network/transfer.rs:595-690 | the same after any number of calls, each finished or killed at any moment |
| TransferSafety.AnyWholeAnswerSucceeds | src-tauri/src/network/transfer.rs:595-690 | from any safe disk, if any one of the seven attempts is answered whole, the call succeeds, no later than that attempt, and the file is complete |
| TransferSafety.PullFromNothing | src-tauri/src/network/transfer.rs:595-690 | from an empty disk, after any number of calls, each finished or killed at any moment, the local file is a prefix of the remote one, and one more call with one whole answer completes it |
| TransferSafety.RequestBounded | src-tauri/src/network/transfer.rs:27 | at most seven attempts and 61 seconds of sleep, whatever the server does |
| TransferChanges.AnswerOutcome | src-tauri/src/network/transfer.rs:526-589 | for any announced size, any nonempty chunks and any checksum: the outcome of the attempt and, for each outcome, the content of the local file and the history row |
| TransferChanges.CutOutcome | src-tauri/src/network/transfer.rs:526-589 | an answer cut off before its control frame fails with the connection, unless a surplus chunk has arrived, which then decides as in the whole answer |
| TransferChanges.AlignedOutcome | src-tauri/src/network/transfer.rs:526-571 | when the chunks reach the announced size and only the last one does, success means exactly that the local file has the sender's checksum |
| TransferChanges.MisledIff | src-tauri/src/network/transfer.rs:526-571 | for an answer that is whole or cut off after any frame: success with another checksum than the sender's happens if and only if a surplus chunk has arrived that decodes as a control message with the checksum of the local file |
| TransferChanges.OkMeansSentChecksum | src-tauri/src/network/transfer.rs:548-690 | when no answer runs past its announced size, success of a call means that the last attempt's answer came whole and the local file has the checksum it ended with |
| TransferChanges.OkMeansHashed | src-tauri/src/network/transfer.rs:548-690 | for any server: success of a call means that a frame of the last attempt's answer, for the offset that attempt requested, reads as a control message with the checksum of the local file, and the row is complete |
| TransferChanges.RecoversWithinTwo | src-tauri/src/network/transfer.rs:571-690 | from any disk, safe or not: with whole answers and a recorded offset inside the remote file the call succeeds within two attempts |
| TransferChanges.OffsetPastEndNeverRecovers | src-tauri/src/network/transfer.rs:362-375 | a recorded offset past the end is refused seven times; file and offset stay, the row ends failed |
| TransferChanges.ReceiveStops | src-tauri/src/network/transfer.rs:525-546 | what the data loop writes chunk by chunk up to its stop is one write of all of it |
| TransferChanges.StopIsFirst | src-tauri/src/network/transfer.rs:526-531 | the stop is the first place where the announced size is reached |
| TransferChanges.ControlAlignedIff | src-tauri/src/network/transfer.rs:525-550 | the receiver stops right before the control frame if and only if the chunks reach the announced size and all but the last stay below it |
| TransferChanges.ShrunkFileSwallowsControl | src-tauri/src/network/transfer.rs:525-550 | with a larger announced size and no chunks the control frame is written into the file and the loop is cut off |
| TransferChanges.GrownFileReadAsControl | src-tauri/src/network/transfer.rs:525-571 | a file that was empty and grew by the encoding of a control message: the attempt succeeds with an empty local file, and when the sender's checksum is another one, the local file does not have it |
| TransferResume.KilledAsleep | src-tauri/src/network/transfer.rs:635-657 | any call, any server, any failed attempt but the last: right after the moments of that attempt comes the sleep, in which its history row is partial with the bytes it recorded, the file is as the attempt left it, and no other row has changed; a process killed there leaves that disk, and that row is the one to resume |
| TransferResume.ResumedAfterSleep | src-tauri/src/network/transfer.rs:606-689 | and the next call, against any server, uses that very row from its first attempt on, asks for the bytes after those recorded, and opens or changes no other row |
| TransferResume.CallEnds | src-tauri/src/network/transfer.rs:634-686 | a call ends after success or seven attempts, has slept 0, 1, 3, 7, 15, 31 or 61 seconds by the number of attempts, and leaves its row complete or failed |
| TransferResume.CutRecords | src-tauri/src/network/transfer.rs:480-546 | an answer cut off below its announced size: the file holds what arrived from the offset on, the row is in progress with the bytes reached, and no other row is touched |
| TransferResume.DropAfterOneByte | src-tauri/src/network/transfer.rs:635-663 | an instance: the connection drops after one byte of a new pull, the program is killed in the sleep, and the next call asks for what comes after that byte |
| TransferResume.MomentsAreAll | src-tauri/src/network/transfer.rs:412-690 | the moments at which a call can be killed lead from the disk it found to the disk it leaves, with one write to the file or one change of the history rows at a time |
| TransferResume.NothingStarted | src-tauri/src/network/transfer.rs:441-472 | no connection, an unreadable or unexpected first frame and each refusal of the sender: the error, and nothing changed on disk |
| TransferModel.FindPartial | src-tauri/src/storage/db.rs:319-334 | the row to resume is partial and no later one is, and none is found only when no row is partial |
| TransferProgram.Receiver.RequestTransfer | src-tauri/src/network/transfer.rs:412-590 | the in-place attempt on file, rows and queue is the modelled attempt; on success row and queue entry agree, and after a failure the queue shows the transfer queued, in progress with the bytes read, or failed by its checksum, unless another task touched it |
| TransferProgram.Receiver.Wait | src-tauri/src/network/transfer.rs:644-662 | between two attempts row and queue entry are left partial, and the next attempt resumes where the row says |
| TransferProgram.Receiver.RequestTransferWithRetry | src-tauri/src/network/transfer.rs:595-690 | the retry loop is the modelled run with at most seven attempts, and on return the history row and the queue entry, if still listed, agree on outcome and bytes, whatever other tasks do to the queue between frames and during sleeps, and whatever they do to other entries after the last update |
| TransferProgram.CutConnectionDelivers | src-tauri/src/network/mod.rs:87-100 | sealing the sender's frames, cutting the bytes anywhere and reading back is a connection the safety theorems cover |
| EngineModel.SortIsPartition | src-tauri/src/search/engine.rs:260-264 | when no result scores above an earlier one of its kind, the final sort is a stable partition into apps and files |
| EngineModel.PipelineOrder | src-tauri/src/search/engine.rs:192-267 | the answer is, cut at the limit, the new apps, then the new files of trie, full text, wildcard and fuzzy stage, each in its own order and with every field of its results given, with the conditions under which a stage is skipped; no type and path is repeated |
| EngineModel.FreshMeans | src-tauri/src/search/engine.rs:192-257 | what a stage keeps are, in order, exactly the results whose key was neither seen before nor stands earlier in the list |
| EngineModel.SameKeyIff | src-tauri/src/search/engine.rs:192-257 | two results count as the same when they are of one kind and have one path; a file whose path reads `app:` and the path of an app counts as that app |
| EngineModel.FuzzyStage | src-tauri/src/search/engine.rs:241-257 | fuzzy results arrive sorted and never above 0.6 |
| EngineProgram.SearchEngine.RunPipeline | src-tauri/src/search/engine.rs:192-266 | the loops over results and the seen set compute the pipeline |
| EngineProgram.SearchEngine.Search | src-tauri/src/search/engine.rs:130-269 | routing, cache lookup, store and any eviction are one modelled step; with a sound cache the answer is the uncached one and the cache stays sound |
| EngineExact.RouteExact | src-tauri/src/search/engine.rs:135-181 | white space around a query means nothing; without a slash in front and a star at either end the rest, in lower case, is a normal search |
| EngineExact.FolderRoute | src-tauri/src/search/engine.rs:143-147 | what follows a slash, without the white space around it, is the folder searched for |
| EngineExact.StarRoute | src-tauri/src/search/engine.rs:167-171 | with a star at either end or both, what is left without stars, in lower case, is searched anywhere in a name |
| EngineExact.FolderAnswer | src-tauri/src/search/engine.rs:148-161 | a folder search answers with the rows found, name for name and path for path |
| EngineExact.StarAnswer | src-tauri/src/search/engine.rs:172-178 | a search with stars answers with the paths of the wildcard index, each under its last component |
| EngineExact.CachedAfter | src-tauri/src/search/engine.rs:183-268 | after a search a key is cached exactly when it was kept and was there before or is the key of this search, which succeeded; its entry is what was there, or the answer |
| FolderSearch.LikeIsContains | src-tauri/src/storage/db.rs:511-528 | for a text without wildcards the pattern matches exactly the names that contain the text, up to the case of ASCII letters |
| FolderSearch.MatchingMeans | src-tauri/src/storage/db.rs:511-528 | before the limit cuts them, the rows found are those of the table whose name contains the text |
| FolderSearch.LikeIgnoresCase | src-tauri/src/storage/db.rs:511-512 | a pattern, wildcards included, may be written in any ASCII case |
| FolderSearch.SameFoldersIff | src-tauri/src/storage/db.rs:511-528 | two texts without wildcards find the same folders in every table if and only if they differ in the case of ASCII letters only |
| EngineCache.CacheNeverShows | src-tauri/src/search/engine.rs:120-127 | after any run of searches, rebuilds, invalidations, trie changes and evictions a query answers as without a cache, if since the last clearing the trie stayed as it was and its key was searched with one limit |
| EngineCache.LimitHarmlessIff | src-tauri/src/search/engine.rs:183-185 | a second search of a key is right for all stores if and only if it has the limit of the first |
| EngineCache.PaddingAgrees | src-tauri/src/search/engine.rs:135-141 | any white space before and after a query leaves its route, and so its answer and cache key, alone |
| EngineCache.CaseAgrees | src-tauri/src/search/engine.rs:135-183 | replacing letters by letters that lower-casing cannot tell apart leaves the route alone; of a folder query it leaves a folder query whose text differs in the same way |
| EngineCache.VariantsAgree | src-tauri/src/search/engine.rs:135-183 | a query in other case and with other space around it has the same answer, cached answer and effect on the cache, folder queries included as far as the folder search ignores the case |
| EngineCache.AsciiVariantsAgree | src-tauri/src/search/engine.rs:135-183 | with the database's own folder search the same holds without that proviso for any query of which only ASCII letters change case |
| EngineCache.FolderVariantsIff | src-tauri/src/storage/db.rs:511-528 | folder queries that are case variants have the same answer over every table if and only if their texts differ in the case of ASCII letters only |
| EngineCache.AccentsMatter | src-tauri/src/storage/db.rs:511-528 | an instance outside ASCII: the folder is found by its name and not by the same name in lower case |
| EngineCache.LimitIsNotInTheKey | src-tauri/src/search/engine.rs:183-185 | for any two limits, a trie that lists no more than it is asked for and for which the second answer has the size of the first: short, or longer than asked for |
| EngineCache.ChangeSeenIff | src-tauri/src/search/engine.rs:272-281 | as long as apps leave room for a file, all trie changes are seen by a query if and only if its key is not cached |
| EngineCache.StoresSeenIff | src-tauri/src/search/engine.rs:120-127 | the same for any change of the stores that bypasses the rebuild |
| EngineCache.TrieChangeIsNotSeen | src-tauri/src/search/engine.rs:272-281 | a run that shows it: a query without results, a file added, and the same query still without results although the file is found without the cache |
| EngineFlights.AnswerIsMixed | src-tauri/src/search/engine.rs:183-268 | whatever other searches and operations do between its steps: a search answers with the trie and the indexes as they were when it began, the apps as they were at its first await and the files as they were at its second, and stores that answer |
| EngineFlights.UndisturbedIsWhole | src-tauri/src/search/engine.rs:183-268 | a search whose steps between the awaits nothing separates is the one-step search |
| EngineFlights.OverlapNeverShows | src-tauri/src/search/engine.rs:120-268 | after any interleaving of overlapping and dropped searches, rebuilds, invalidations, trie changes and evictions a query answers as without a cache, if since the last clearing the trie stayed, its key was searched with one limit, and no search begun before the last change stored an answer for it |
| EngineFlights.RebuildSeenIff | src-tauri/src/search/engine.rs:120-127 | a rebuild is seen by a query for all new contents if and only if no search for its key is under way or that search fails |
| EngineFlights.RebuildIsForgotten | src-tauri/src/search/engine.rs:120-267 | a run that shows it: a search begins, a rebuild brings a file, the search ends, and the file is not found |
| Pairing.RunInv | src-tauri/src/network/peer.rs:94-320 | every interleaving of connections, messages, decisions and drops keeps the invariant of slots, sessions, trust and accept counts |
| Pairing.TrustAgrees | src-tauri/src/network/peer.rs:135-176 | the initiator has stored trust only if the responder has, each stored the other's long-term key, the responder only after a yes, and shown codes are equal |
| Pairing.TrustTableCorrect | src-tauri/src/network/peer.rs:269-303 | every trust row holds the long-term key of the peer it names |
| Pairing.OneLiveSender | src-tauri/src/network/peer.rs:195-213 | at most one decision sender per device is live, the one in its slot |
| Pairing.WritesNeedAccepts | src-tauri/src/commands.rs:197-216 | responder trust writes never exceed accept commands |
| Pairing.CeremonySucceeds | src-tauri/src/network/peer.rs:94-320 | in every interleaving with any other steps: a connection that is not harmed and whose eight stages occur in order ends with both sides having shown the code of their common secret and trusting each other |
| Pairing.NeverStuck | src-tauri/src/network/peer.rs:94-320 | from every reachable state in which a connection is alive, the same eight steps complete it |
| Pairing.UnharmedIsAlive | src-tauri/src/network/peer.rs:94-320 | a connection opened at any point of any run and not cut, rejected, given up or superseded since is alive |
| PairingRefusal.RefusalArrives | src-tauri/src/network/peer.rs:202-267 | after any run and among any other steps: when a live connection is turned down, by its user or by a newer connection in its slot, and is not broken, neither side ever writes trust; once the responder has taken the decision it has finished, and once the initiator has read what was sent it has failed |
| PairingRefusal.RefusalCompletes | src-tauri/src/network/peer.rs:129-148 | and with its five stages in order both sides are done |
| PairingRefusal.UnexpectedStops | src-tauri/src/network/peer.rs:115-149 | in any state: a side that reads anything but the message it waits for has failed for good and writes no trust afterwards |
| PairingRefusal.CutBeforeConfirmation | src-tauri/src/network/peer.rs:269-285 | a live connection cut after the initiator confirmed and before that was read never leads to trust on either side, whatever is decided afterwards |
| PairingRefusal.WritesNeedYeses | src-tauri/src/commands.rs:197-216 | a device stores trust as responder no more often than its user said yes |
| Discovery.PresenceLoop.Once | src-tauri/src/network/discovery.rs:119-195 | one pass of the loop, with its early restart for own and foreign packets, stores, evicts and announces as specified |
| Discovery.PresenceLoop.Loop | src-tauri/src/network/discovery.rs:98-196 | the log of announcements of any run |
| Discovery.PresentIffHeardRecently | src-tauri/src/network/discovery.rs:146-166 | after a full round the map holds exactly the devices heard less than 20 s before, with name, trust and time of their last packet |
| Discovery.AnnouncedAgainOnlyAfterAbsence | src-tauri/src/network/discovery.rs:169-183 | between two announcements of an id lies a full round in which it was absent or untrusted |
| Discovery.AnnouncedIff | src-tauri/src/network/discovery.rs:169-183 | an id is announced exactly in the full rounds where it is online and trusted and was not in the full round before |
| Discovery.CloseTogetherAnnouncedOnce | src-tauri/src/network/discovery.rs:117-183 | a peer that stays trusted and whose packets arrive less than 20 s apart is announced in the round of its first packet and in no other round before its last |
| Discovery.SteadyPeerAnnouncedOnce | src-tauri/src/network/discovery.rs:117-183 | the same when at every eviction some packet is recent enough |
| Discovery.CloseTogetherIsSteady | src-tauri/src/network/discovery.rs:166 | packets less than 20 s apart are in time for every eviction before the last of them |
| Indexer.WalkConserves | src-tauri/src/search/indexer.rs:189-299 | for every tree and every pattern of failed flushes, committed rows followed by pending rows are all rows queued so far, in order |
| Indexer.WalkQueuesInOrder | src-tauri/src/search/indexer.rs:200-299 | the rows queued are a subsequence of the tree's rows in walking order, and the count never exceeds the files among them |
| IndexerRows.RowsExact | src-tauri/src/search/indexer.rs:200-299 | the rows of a tree are, each once and in walking order, those of the addresses that lead through readable directories, past no name with a leading dot unless hidden entries are wanted, to a directory or to a regular file with metadata of at most 10 MB; every field of the row is given |
| IndexerRows.RowIff | src-tauri/src/search/indexer.rs:200-299 | a row is in the list if and only if such an address leads to it |
| IndexerRows.ScanIndexes | src-tauri/src/search/indexer.rs:176-299 | a scan of which no flush fails: a path is in the table if and only if an address leads to a row with it, and the count is the number of addresses of files |
| IndexerRows.FlushesNeeded | src-tauri/src/search/indexer.rs:176-196 | rows are written a batch at a time: n rows need n divided by the batch size, rounded up |
| Indexer.ScanComplete | src-tauri/src/search/indexer.rs:176-186 | when none of the flushes a scan attempts fails, the table gets every qualifying row, the count is the number of qualifying files, neither depends on the batch size, and a rescan changes nothing |
| Indexer.ScanUnderFailures | src-tauri/src/search/indexer.rs:176-186 | with failures a successful scan stores exactly the rows it queued, and a failed one those that were flushed and not those still pending |
| Indexer.ScanCountIff | src-tauri/src/search/indexer.rs:258-259 | the count of a successful scan is short of the files it stored by exactly the files queued in failed subdirectories, so it is right if and only if there are none |
| Indexer.ScanStoresIff | src-tauri/src/search/indexer.rs:258-259 | a successful scan stores all qualifying rows if and only if no failed flush cut a subdirectory short, and with distinct paths exactly the rows left out that way are absent |
| Indexer.SwallowedFailureUndercounts | src-tauri/src/search/indexer.rs:258-259 | a concrete tree where a failed flush inside a subdirectory is swallowed: the row is stored and its file is missing from the count |
| Indexer.SwallowedFailureLosesFile | src-tauri/src/search/indexer.rs:258-259 | a concrete tree where a qualifying file is not in the table although the scan succeeds |
| Indexer.RescanChangesNothing | src-tauri/src/storage/db.rs:347-383 | writing the same rows again leaves the table as it is |
| Indexer.UpsertAt | src-tauri/src/storage/db.rs:347-383 | the table holds the last row written for a path, and other paths keep theirs |
| Indexer.Scanner.WalkDir | src-tauri/src/search/indexer.rs:200-299 | the recursive loop over pending rows and table is the modelled walk |
| Indexer.Scanner.UpsertFiles | src-tauri/src/storage/db.rs:347-383 | all rows of a flush are written or none |
| Indexer.Scanner.ScanAll | src-tauri/src/search/indexer.rs:176-186 | walk and last flush are the modelled scan |
| Bloom.SetOneMember | src-tauri/src/search/bloom.rs:30-35 | setting one bit of one word adds exactly that position to the set the words stand for |
| Bloom.BloomFilter.Insert | src-tauri/src/search/bloom.rs:30-35 | the words then stand for the old set and the probes of the term |
| Bloom.BloomFilter.MayContain | src-tauri/src/search/bloom.rs:38-43 | the answer is whether all probes of the term are in the set |
| Bloom.Fnv1aSeparates | src-tauri/src/search/bloom.rs:55-62 | inputs that differ in exactly one byte have the same hash up to that byte and different hashes ever after |
| Bloom.Fnv1aIs | src-tauri/src/search/bloom.rs:55-62 | the hash of no bytes, and what one more byte makes of it |
| Bloom.Djb2 | src-tauri/src/search/bloom.rs:64-70 | the loop with shift and wrapping additions computes, modulo 2^64, the base-33 polynomial of the bytes on top of the seed |
| Bloom.Djb2Separates | src-tauri/src/search/bloom.rs:64-70 | inputs that differ in exactly one byte have different hashes |
| Bloom.ProbesAre | src-tauri/src/search/bloom.rs:72-80 | the positions of a term: the first hash plus i times the second made odd, modulo 2^64 and the table size, for i below k |
| Bloom.BloomFilter.InsertAll | src-tauri/src/search/bloom.rs:30-35 | after any sequence of inserts the words stand for the old set and the positions of all the terms |
| Bloom.AfterInsertsIsUnion | src-tauri/src/search/bloom.rs:30-43 | the positions after any sequence of inserts are exactly the union of the terms' probes, all below the table size |
| Bloom.InsertedTermsAreFound | src-tauri/src/search/bloom.rs:38-43 | a filled filter claims every inserted term, and any other term exactly when all its positions are covered by inserted ones |
| Bloom.SameTermsSameAnswers | src-tauri/src/search/bloom.rs:30-43 | two filters filled with the same terms, in any order and with any repetition, answer alike |
| Bloom.FillAndAsk | src-tauri/src/search/bloom.rs:30-43 | from an empty filter: the answer is yes for every inserted term, and yes exactly when all positions are covered |
| BloomProbes.ProbesDistinctIff | src-tauri/src/search/bloom.rs:72-80 | the first k probes are different positions for all hash values if and only if k is at most the largest power of two that divides the table size |
| BloomProbes.AllProbesDistinctIff | src-tauri/src/search/bloom.rs:72-80 | as many different probes as positions exist if and only if the table size is a power of two |
| BloomProbes.EngineProbesMeet | src-tauri/src/search/engine.rs:70-79 | the smallest filter the engine builds, 9586 bits with seven probes, does not keep them distinct |

## Left out

- Rounding: scores are reals and the calculator's numbers have arbitrary operations; parsing a decimal literal is a parameter.
- The 32-bit frequency counter of the trie: counts are unbounded.
- Cryptography: key agreement is a commutative function where a theorem needs it, sealing is an invertible function, the checksum a function; sealing internals and the session handshake are not part of this model.
- Control messages as JSON: an encoding that decodes to what was encoded; where a control frame must not be mistaken for the end of the data, it is not empty.
- Lower-casing and trimming tables: parameters.
- UTF-8: invite codes, keys and queries are sequences of characters; a non-ASCII character of a code is rejected where its bytes would be.
- Sockets, buffered writes and failing database calls in the transfer: a connection is the list of frames that arrive before it ends, and writes take effect at once.
- Failing reads on the sending side: an answer that is never finished is an answer that is cut off.
- Several requests for one local path at the same time, and a start message that names a different file: one local path is fixed.
- Pushed files, batch requests and path permission checks in `transfer.rs`: the permission is an input of `TransferModel.ServeOneFile`.
- Pairing is a step system over values, since its tasks are asynchronous functions: locals of a task are fields of a connection, locks are not modelled, and names, notifications, revocation and the in-memory trust set are left out.
- Broadcasting in `discovery.rs`, and the status of a stored peer between two of its packets when trust changes.
- Process-wide locks of engine, queue and trie: each method is one step. A search is also modelled as the steps between its awaits; the steps of a rebuild are not separated.
- How `build_indexes` fills the trie, which keeps only the first path of a repeated name: the engine's trie answers are a parameter.
- Full-text index, wildcard index and the `lru` crate: functions of the query, and a map with arbitrary eviction.
- A failed app query, which the engine treats as no apps and then caches: the stores answer the same until they change.
- Sizing of the Bloom filter from a false-positive rate, and that rate itself.
- Reading of directories: a tree of what the reads report, failures included; progress events, pruning of deleted files and the startup decision are left out.
- User interface, settings, app discovery, notifications, HTTP server, updater.
