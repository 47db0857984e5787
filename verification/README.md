# Verified model of the Shadow SE search core

This project models the parts of Shadow SE that carry its correctness and proves what they promise, for every
input and every run:

- **Text and index.** The UTF-8 reader and tokenizer, the inverted index with its five maps and two counters, BM25
  ranking and the snapshot format. What the tokens of a text are is stated on its bytes, what a score is in equations.
  The index is a class; its representation invariant says that it always is what indexing the stored documents from
  scratch would give. Saving, loading and searching again is one theorem.
- **Crawl frontier.** The crawler's critical sections are atomic steps of a transition system with any number of
  workers; fetch outcomes and page links are open. Invariants and whole-run theorems hold in every interleaving. A
  class performs the steps on the crawler's own fields. The Bloom filter and the robots.txt rules belong to it.
- **JSON.** A grammar of its own, with every byte written out: the recursive-descent parser accepts exactly its texts
  and returns what they mean, and the printer prints one of them. So the two undo each other exactly as far as the
  printed numbers allow.
- **Tor proxy pool.** A health, cooldown and round-robin state machine with a clock.
- **Base64.** The URL-safe codec, with the decoder's wrapping 32-bit buffer.

## Layout

| files | content |
|---|---|
| `Bytes.dfy`, `Words.dfy`, `Multisets.dfy` | byte strings; machine words and wrapping counters; facts about multisets |
| `Utf8.dfy`, `Tokenizer.dfy`, `TokenText.dfy` | `src/tokenizer.cpp`: the reader, the scan, tokens in terms of bytes and code points |
| `TermWeights.dfy`, `IndexModel.dfy`, `InvertedIndex.dfy` | `src/inverted_index.cpp`: posting lists as weighted sets, the index as a value, the class |
| `Bm25.dfy`, `ScoreLaws.dfy` | `src/bm25.cpp`: the ranking, the equations of its scores and what they do to results |
| `Snapshot.dfy`, `Rankings.dfy`, `Engine.dfy` | `src/snapshot.cpp`; results over indexes that differ in ids; saving and loading an index |
| `BloomFilter.dfy`, `Frontier.dfy`, `Crawls.dfy`, `Links.dfy`, `Depths.dfy`, `Crawler.dfy` | `src/bloom_filter.cpp` and `src/crawler.cpp`: steps and invariant, whole runs, which links are taken, how deep pages lie, the class |
| `RobotsRules.dfy`, `RobotsTxt.dfy`, `RobotsText.dfy` | `src/robots_txt.cpp`: what a body means, the class, what texts mean for addresses |
| `JsonPrinter.dfy`, `JsonParser.dfy` | `src/json.cpp`: printer, parser |
| `JsonStrings.dfy`, `JsonNumerals.dfy`, `JsonGrammar.dfy`, `JsonRoundTrip.dfy` | the same on texts: strings, numbers, whole documents, round trip |
| `StreamNumbers.dfy`, `Doubles.dfy` | `src/json.cpp`: how numbers are printed, the round trip for doubles |
| `TorPoolModel.dfy`, `TorPool.dfy` | `src/tor_proxy_pool.cpp`: calls and histories, the class |
| `Base64.dfy` | the base64 part of `src/crypto.cpp` |

A method that follows a loop or an in-place update of the source is proved equal to a function of its inputs or of
the old state; the lemmas are about that function. Bit operations are written as division, remainder and sum.

## Where the code decides

The model follows the code where it differs from what one might expect:

- The link loop of a page ends at the first rejected link, a duplicate included (`src/crawler.cpp:508-512`), so a page
  that is linked need not be crawled. `Links.LinkedPageIsMissed` is such a crawl, `Links.LoopTakesAllExactly` says
  when a loop takes all its links, and `Links.ClosedExactly` when a drained crawl has left no link out.
- `selectProxy` returns none when the endpoint whose turn it is has to be probed again and is down, whatever the
  health of the others (`src/tor_proxy_pool.cpp:86-94`). `TorPoolModel.NothingSelected` says exactly when,
  `TorPoolModel.NoneThoughOneIsHealthy` is such a pool.
- Initial proxies are not compared with each other, only added ones are (`src/tor_proxy_pool.cpp:22-33`), and a failure
  report reaches only the first copy. `TorPoolModel.DuplicatesDefeatQuarantine` shows what a second copy does,
  `TorPoolModel.KeptAwayExactly` when a failure keeps an endpoint from being selected.
- JSON numbers that are not integers, or not below 9.2e18, are printed with six significant digits
  (`src/json.cpp:120-127`). `Doubles.EveryValueParses` says exactly which values survive;
  `Doubles.SeventhDigitIsLost` is one that does not. Infinities and NaN are printed as words that the parser
  refuses (`Doubles.NotFiniteIsRefused`).
- The JSON parser also takes numbers with leading zeros, with empty rows of digits, or with nothing behind the point or
  the exponent letter (`src/json.cpp:249-269`), and a low surrogate without a high one (`src/json.cpp:291-307`).
  `JsonNumerals.Numeral` and `JsonStrings.Piece` say exactly what is taken.
- The offset basis of the 64-bit FNV-1a hash has one digit less than the published one (`src/bloom_filter.cpp:16`).
- Bytes after a snapshot are accepted (`src/snapshot.cpp:113-126`), and longer fields or counts are truncated when
  written (`src/snapshot.cpp:27-30`, `src/snapshot.cpp:77`). `Snapshot.RoundTripExactly` gives the exact condition,
  `Snapshot.LongFieldIsLost` a document that does not come back.
- A robots.txt line without a colon is its own key and value, every user-agent line starts a new group, and an empty
  user-agent name matches every crawler (`src/robots_txt.cpp:79-86`).

## Model

| member | source | states |
|---|---|---|
| Utf8.DecodeUtf8 | src/tokenizer.cpp:9-55 | the reading loop returns one step of the decoder at the offset and always advances before the end |
| Utf8.DecodeAfterEncode | src/tokenizer.cpp:82-98 | an encoded scalar value is decoded again, with its exact length, whatever follows (RFC 3629 section 3) |
| Utf8.EncodedForm | src/tokenizer.cpp:82-98 | one to four bytes by the size of the code point; the lead byte tells how many, and its bits and six of each other byte make up the code point (RFC 3629 section 3) |
| Utf8.EncodeAfterDecode | src/tokenizer.cpp:47-54 | whatever is accepted is a scalar value and the consumed bytes are its encoding: no overlong form, surrogate or larger value passes (RFC 3629 section 4) |
| Utf8.DecodeAcceptsExactly | src/tokenizer.cpp:9-55 | a text is accepted if and only if it begins with the encoding of a code point below 0xD800 or from 0xE000 to 0x10FFFF; otherwise one byte is skipped |
| Utf8.DecodeHeadIsLocal | src/tokenizer.cpp:35-46 | text that follows does not change a decoding step unless it begins with a continuation byte: the reader resynchronises |
| Tokenizer.FoldIsStable | src/tokenizer.cpp:57-121 | case folding is idempotent and keeps token characters token characters, which all are scalar values |
| Tokenizer.Tokenize | src/tokenizer.cpp:123-146 | the loop with its open token computes the token list of the recursive scan, of which the following rows say what it is |
| Tokenizer.ScanConcat | src/tokenizer.cpp:136-143 | scanning a concatenation is scanning the second part with the token the first part left open |
| Tokenizer.TokensSplitAtSeparator | src/tokenizer.cpp:123-146 | tokens of a + separator + b are the tokens of a and then those of b, for every separating code point and all bytes a and b, malformed ones included |
| Tokenizer.TokensSplitAtAscii | src/tokenizer.cpp:61-63 | the same for every byte below 0x80 outside 0-9, A-Z and a-z |
| Tokenizer.TokensAreWords | src/tokenizer.cpp:129-134 | every token is non-empty and one run of folded token characters |
| Tokenizer.TokenizeIsIdempotent | src/tokenizer.cpp:123-146 | tokenizing the tokens of any text, joined by spaces, gives the same list |
| TokenText.AsciiWord | src/tokenizer.cpp:57-121 | a non-empty row of ASCII letters and digits is exactly one token: its bytes with A-Z raised by 0x20 |
| TokenText.CaseIsIgnored | src/tokenizer.cpp:100-103 | any bytes, malformed ones included, have the tokens of the same bytes with ASCII capitals lowered |
| TokenText.TokensHaveNoCapital | src/tokenizer.cpp:100-146 | no token of any text contains a byte from 0x41 to 0x5A |
| TokenText.CapitalAndSmall | src/tokenizer.cpp:100-121 | each ASCII, Latin, Greek and Cyrillic capital that is folded and its small letter, as listed pairs of code points, have the same one token, the encoding of the small letter |
| TokenText.CapitalMatchesSmall | src/tokenizer.cpp:100-146 | in the middle of any text, writing the capital or the small letter gives the same tokens |
| TokenText.OthersStayAsTheyAre | src/tokenizer.cpp:57-121 | every other code point outside the listed gaps is one token, its own encoding |
| TokenText.GapsSeparate | src/tokenizer.cpp:57-79 | a code point in a gap separates the tokens before and behind it |
| TokenText.InvalidByteSeparates | src/tokenizer.cpp:31-34 | so does a byte of 0xF8 or more, which no encoding contains |
| IndexModel.WeightFromIndexableText | include/shadowse/document.hpp:25-34 | a term's weight is its count in the indexable text plus twice its count in the title; the length is three times the title tokens plus the other tokens |
| InvertedIndex.IndexText | src/inverted_index.cpp:12-18 | counts the tokens of a field on top of earlier counts |
| InvertedIndex.WeighedTerms | src/inverted_index.cpp:56-69 | the merged frequency map counts title tokens three times and all others once |
| InvertedIndex.RemoveIf | src/inverted_index.cpp:27-30 | drops the postings of one document from a list and keeps the others in order |
| InvertedIndex.WithoutHolds | src/inverted_index.cpp:27-30 | such a list then holds one posting for each other document with the term |
| InvertedIndex.InvertedIndex.RemovePostings | src/inverted_index.cpp:20-35 | exactly the lists of the given terms lose the document's postings, and no list stays empty |
| InvertedIndex.TrimmedMatch | src/inverted_index.cpp:20-35 | once a document's own terms are trimmed, the lists are those of the other documents |
| InvertedIndex.InvertedIndex.Unindex | src/inverted_index.cpp:46-49 | taking a document out leaves lists, term table, lengths and total as if it had never been added |
| InvertedIndex.InvertedIndex.ClaimId | src/inverted_index.cpp:42-54 | a known URL keeps its id and its old entries go, a new URL gets the next id |
| InvertedIndex.EnterNext | src/inverted_index.cpp:70-74 | entering one more term keeps every list right for the terms entered so far |
| InvertedIndex.InvertedIndex.Enter | src/inverted_index.cpp:70-79 | entering all terms gives lists, term table, lengths and total with the document added |
| InvertedIndex.InvertedIndex.constructor | src/inverted_index.cpp:101-110 | a fresh index is valid and empty |
| InvertedIndex.InvertedIndex.AddDocument | src/inverted_index.cpp:37-85 | keeps the invariant; the store becomes the old one with this document under its URL, and the id is that URL's |
| InvertedIndex.InvertedIndex.RemoveDocument | src/inverted_index.cpp:87-99 | keeps the invariant; removes exactly that document, or nothing for an unknown id |
| InvertedIndex.InvertedIndex.Clear | src/inverted_index.cpp:101-110 | leaves the empty index, whatever the state before |
| InvertedIndex.InvertedIndex.ReplaceAll | src/inverted_index.cpp:112-124 | leaves the index of the given documents added in order to an empty one |
| InvertedIndex.InvertedIndex.AllDocuments | src/inverted_index.cpp:162-171 | lists every stored document exactly once |
| InvertedIndex.InvertedIndex.AverageDocLength | src/inverted_index.cpp:154-160 | total length over document count, 0 for an empty index |
| InvertedIndex.Replay | src/inverted_index.cpp:37-124 | the class taken through any sequence of operations stays valid and holds the store of that history |
| IndexModel.PutKeepsValid | src/inverted_index.cpp:42-54 | adding keeps URLs, ids and documents in one-to-one correspondence and replaces what is stored under that URL, nothing else |
| IndexModel.DropKeepsValid | src/inverted_index.cpp:87-99 | removing keeps the correspondence and takes away that URL, nothing else |
| IndexModel.PutAllContents | src/inverted_index.cpp:112-124 | adding documents with distinct URLs stores exactly them |
| IndexModel.HistoryIsValid | src/inverted_index.cpp:37-124 | no sequence of operations breaks the correspondence |
| IndexModel.FrequencyBounded | src/inverted_index.cpp:70-79 | a posting list is as long as the number of documents with the term, and never longer than the store |
| IndexModel.StatisticsByUrl | src/inverted_index.cpp:126-160 | count, total length and every document frequency follow from the contents by URL |
| IndexModel.ContentsDetermineIndex | src/inverted_index.cpp:20-124 | two valid indexes with the same documents by URL are equal up to ids and list order |
| IndexModel.SurvivorsContents | src/inverted_index.cpp:112-124 | adding the surviving documents to an empty index stores the same contents |
| IndexModel.RebuildingIsEquivalent | src/inverted_index.cpp:20-124 | any valid index equals, up to ids and list order, one built from scratch from its documents |
| TermWeights.PostingsDistinct | src/inverted_index.cpp:70-72 | a posting list never names a document twice |
| TermWeights.HoldsCardinality | src/inverted_index.cpp:126-130 | a posting list is as long as the set of documents with the term |
| TermWeights.RenamedBags | src/inverted_index.cpp:119-123 | renaming documents changes no weight, length, total or frequency |
| Bm25.IdfIsPositive | src/bm25.cpp:43 | with a document frequency of at most N every idf is positive |
| Bm25.RarerWeighsMore | src/bm25.cpp:43 | a rarer term has the greater idf |
| Bm25.AverageIsPositive | src/bm25.cpp:24-28 | once some document has a term the average length is positive, so the divisions are defined |
| Bm25.TfBounds | src/bm25.cpp:46-47 | the term-frequency factor is positive and at most k1 + 1 |
| Bm25.TfGrowsWithFrequency | src/bm25.cpp:46-47 | at equal length a higher frequency never gives a lower factor |
| ScoreLaws.TfEquation | src/bm25.cpp:46-47 | the factor times f + k1 (1 - b + b dl / avgdl) is f (k1 + 1) |
| ScoreLaws.IdfEquation | src/bm25.cpp:43 | the idf is the logarithm of (N + 1) / (n + 0.5) |
| ScoreLaws.AverageEquation | src/bm25.cpp:24-28 | the average length times the number of documents is the total length |
| ScoreLaws.OneTermScore | src/bm25.cpp:37-50 | the score of a match for one term meets the written-out formula of its weight, its length, the number of documents, of those with the term, and the average length |
| ScoreLaws.ScoreAdds | src/bm25.cpp:37-50 | the score for several terms is the sum of those for each |
| ScoreLaws.WhoMatches | src/bm25.cpp:37-50 | the documents that match are those with at least one of the terms |
| ScoreLaws.LongerWeighsLess | src/bm25.cpp:46-47 | at equal frequency a longer document has a strictly smaller factor when k1 and b are positive |
| ScoreLaws.LengthIgnored | src/bm25.cpp:46-47 | with b = 0 length makes no difference |
| ScoreLaws.MoreWeighsMore | src/bm25.cpp:46-47 | at equal length a higher frequency has a strictly greater factor when k1 is positive |
| ScoreLaws.HigherStandsFirst | src/bm25.cpp:61-71 | of two matches the one with the higher score stands first in the results, or with equal scores the one with the lower id |
| ScoreLaws.ShorterStandsFirst | src/bm25.cpp:46-71 | in the results of a one-term query, of two documents with the term equally often the shorter one stands first |
| ScoreLaws.MoreFrequentStandsFirst | src/bm25.cpp:46-71 | of two equally long ones, the one with the term more often |
| Bm25.ScoreSplit | src/bm25.cpp:37-50 | a score is the sum over the set of query terms, in whatever order they are taken |
| Bm25.ScoreBounds | src/bm25.cpp:37-50 | a matching document scores above 0, and no score exceeds k1 + 1 times the sum of the idfs of the terms the document has |
| Bm25.BeforeIsTotal | src/bm25.cpp:32 | any two different strings are ordered byte by byte |
| Bm25.BeforeIsLexicographic | src/bm25.cpp:32 | the order is that of the first byte in which two strings differ, the end of a string coming first |
| Bm25.DistinctTerms | src/bm25.cpp:30-33 | the terms that are ranked are those of the query in strictly ascending order |
| Bm25.DenominatorsArePositive | src/bm25.cpp:46 | with k1 >= 0 and 0 <= b <= 1 no denominator is zero in any index |
| Bm25.AccumulateNext | src/bm25.cpp:44-49 | one posting adds its document's contribution for the term and touches no other document |
| Bm25.TermDone | src/bm25.cpp:37-50 | after a whole list the accumulator holds the scores for the terms done and this one |
| Bm25.SortedResults | src/bm25.cpp:52-66 | all accumulated documents, strictly ordered by score descending and then id ascending |
| Bm25.TruncatedIsTop | src/bm25.cpp:68-70 | cutting that list at the limit leaves the best |
| Bm25.EmptyCases | src/bm25.cpp:20-28 | in the cases that return early nothing matches the query |
| Bm25.TopIsUnique | src/bm25.cpp:61-71 | only one list of results meets the specification |
| Bm25.Rank | src/bm25.cpp:16-72 | for all parameters that make no denominator zero: returns the top list, min(limit, matches) results, each a match with its exact score, ordered, and nothing omitted ranks ahead |
| Bm25.QueryOrderIsIrrelevant | src/bm25.cpp:30-33 | queries with the same set of terms have the same results |
| Snapshot.SerializeDocuments | src/snapshot.cpp:73-82 | writes magic, version, count and the documents in order |
| Snapshot.HeaderLayout | src/snapshot.cpp:73-78 | a snapshot begins with the bytes of SHSE1 and a zero, the version 1 and the number of documents, each word with the least significant byte first |
| Snapshot.BodiesInOrder | src/snapshot.cpp:78-81 | the documents follow one after the other |
| Snapshot.DocumentLayout | src/snapshot.cpp:60-69 | a document is its URL, title, snippet and content, each behind its length, one byte that is 1 for the onion side and 0 for the clear web, and its depth |
| Snapshot.Reader.TakeU8 | src/snapshot.cpp:36-40 | reads a byte or refuses, and never moves past the end |
| Snapshot.Reader.TakeU32 | src/snapshot.cpp:41-49 | reads a little-endian word or refuses, and never moves past the end |
| Snapshot.Reader.TakeStr | src/snapshot.cpp:50-57 | reads a length and as many bytes or refuses, and never moves past the end |
| Snapshot.Reader.TakeDocument | src/snapshot.cpp:114-124 | reads the six fields in order or refuses, and never moves past the end |
| Snapshot.TakeHeader | src/snapshot.cpp:91-111 | accepts the magic, the version and a count of at most 10,000,000 |
| Snapshot.DeserializeDocuments | src/snapshot.cpp:84-127 | on arbitrary bytes the class-based reader does what the specification reader does |
| Snapshot.ReadsDocument | src/snapshot.cpp:60-69 | a written document is read back, without its id, to its last byte |
| Snapshot.ReadsWithSource | src/snapshot.cpp:113-124 | a source byte of 1 is read as the onion side and any other as the clear web |
| Snapshot.RoundTrip | src/snapshot.cpp:73-127 | what was written is read back whole, whatever bytes follow |
| Snapshot.RoundTripExactly | src/snapshot.cpp:73-127 | documents come back, ids aside, if and only if every text is shorter than 2^32 bytes and there are at most 10,000,000 documents |
| Snapshot.LongFieldIsLost | src/snapshot.cpp:27-30 | a document with a field of 2^32 bytes does not come back |
| Snapshot.SerializeIsInjective | src/snapshot.cpp:60-82 | lists that differ in more than ids are written differently |
| Snapshot.ReadDocumentExtends | src/snapshot.cpp:113-124 | what a prefix can read, the whole reads the same way |
| Snapshot.PrefixesAreRefused | src/snapshot.cpp:84-127 | every proper prefix of a snapshot is refused |
| Engine.SaveState | src/engine.cpp:163-165 | the file is the serialization of all documents in some order |
| Engine.LoadState | src/engine.cpp:167-174 | a readable file replaces the index, an unreadable one leaves all of it alone |
| Engine.LoadedIsEquivalent | src/engine.cpp:163-174 | a saved and loaded index has the same contents and is the same up to ids and list order |
| Engine.SameScore | src/bm25.cpp:37-50 | a URL scores the same for any query in two indexes with the same contents |
| Engine.SearchSurvivesSaving | src/engine.cpp:163-174 | after saving and loading every URL matches the same queries with the same scores |
| Engine.SameMatches | src/bm25.cpp:37-50 | a query matches the same documents with the same scores, ids aside |
| Engine.SaveAndLoad | src/engine.cpp:163-174 | saving one index and loading the file into another gives the same contents and the same statistics, up to ids and list order |
| Rankings.ScoreIsNoHigher | src/bm25.cpp:61-71 | renaming the documents cannot change the score at any position of the results |
| Rankings.RenamedRanking | src/bm25.cpp:61-71 | the results over renamed documents have the same length and scores, and the same document wherever a score belongs to one match only |
| Engine.SameResults | src/bm25.cpp:52-71 | the same for any query and limit over two indexes with the same contents |
| Engine.SearchSaveLoadSearch | src/engine.cpp:163-174 | searching, saving, loading and searching again gives such a pair of results |
| BloomFilter.Fnv1a | src/bloom_filter.cpp:15-22 | the loop computes FNV-1a with 64-bit wrap-around |
| BloomFilter.Probe | src/bloom_filter.cpp:45 | every probe of the wrapping arithmetic is inside the filter |
| BloomFilter.FnvOf | src/bloom_filter.cpp:15-22 | the hash of a longer text is that of the shorter one, combined with the byte and multiplied by 1099511628211; it starts at 1469598103934665603 |
| BloomFilter.ProbesExactly | src/bloom_filter.cpp:40-48 | the bits of a key are the k places (h1 + i h2) mod 2^64 mod m, where h2 is 1 when FNV gives 0 |
| BloomFilter.NoFalseNegatives | src/bloom_filter.cpp:40-61 | after any insertions all bits of every inserted key are set |
| BloomFilter.OrderIsIrrelevant | src/bloom_filter.cpp:40-48 | the bits depend on the set of inserted keys only |
| BloomFilter.BloomFilter.Set | src/bloom_filter.cpp:46 | sets one bit of one word and no other |
| BloomFilter.BloomFilter.Insert | src/bloom_filter.cpp:40-48 | adds exactly the probes of the key to the set bits |
| BloomFilter.BloomFilter.MaybeContains | src/bloom_filter.cpp:50-61 | true if and only if all probes of the key are set |
| BloomFilter.BloomFilter.Clear | src/bloom_filter.cpp:63-65 | no bit stays set |
| Frontier.BetterIsStrictTotalOrder | include/shadowse/crawler.hpp:79-84 | the queue order is a strict total order on items with different sequence numbers |
| Frontier.Best | src/crawler.cpp:391-392 | the item taken is one that no queued item precedes |
| Frontier.VerdictIsExact | src/crawler.cpp:303-323 | in every reachable state a URL is accepted if and only if there was no stop, there is room and it is new; the filter never changes the verdict |
| Frontier.TotalCount | src/crawler.cpp:326-327 | crawled and pending pages are together the accepted ones |
| Frontier.AcceptKeepsInvariant | src/crawler.cpp:320-334 | accepting keeps numbering, the books of the three places, the order and the filter |
| Frontier.OrderedDequeue | src/crawler.cpp:391-392 | taking the best item overtakes nothing that was accepted earlier and is no less urgent |
| Frontier.DequeueKeepsInvariant | src/crawler.cpp:382-393 | taking an item moves it from the queue to the worker |
| Frontier.FinishKeepsInvariant | src/crawler.cpp:395-399 | finishing moves it from the worker to the crawled pages |
| Frontier.FollowKeepsInvariant | src/crawler.cpp:507-513 | following a link keeps the invariant, accepted or not |
| Frontier.StepKeepsInvariant | src/crawler.cpp:303-401 | every step of every worker and caller keeps the invariant |
| Crawls.RunKeepsInvariant | src/crawler.cpp:303-401 | the invariant holds in every state of every interleaving |
| Crawls.PageCap | src/crawler.cpp:308-310 | crawled + pending is the number of seen URLs and at most maxPages, and pending is queued plus in flight |
| Crawls.OnePlaceForEveryUrl | src/crawler.cpp:379-401 | a seen URL is queued, in flight or finished: in one of them, never in two |
| Crawls.EachUrlProcessedOnce | src/crawler.cpp:320-323 | no URL is taken from the queue twice |
| Crawls.DequeuesAreBounded | src/crawler.cpp:308-310 | a run takes at most maxPages items from the queue |
| Crawls.EarlierAndNoLessUrgentGoesFirst | src/crawler.cpp:325-327 | an item accepted earlier and no less urgent is always taken earlier |
| Crawls.StoppedAcceptsNothing | src/crawler.cpp:305-307 | after a stop no URL is added |
| Crawls.ExitedMeansDrained | src/crawler.cpp:384-389 | when all workers have exited the queue is empty, nothing is pending and all accepted pages are crawled |
| Crawls.StoppedWorkShrinks | src/crawler.cpp:379-401 | after a stop every worker step decreases a lexicographic measure |
| Crawls.StoppedWorkersCanMove | src/crawler.cpp:384-389 | after a stop some worker can move until all have exited |
| Crawls.StopDrains | src/crawler.cpp:345-363 | a stopped run can always be completed by worker steps alone to one where all have exited |
| Crawls.DepthBudget | src/crawler.cpp:505-507 | no page beyond the maximum depth is accepted unless a caller submits one |
| Links.LinkedPageIsMissed | src/crawler.cpp:508-512 | for every cap of at least 2 and depth of at least 1, a crawl that ends with room and depth left and a linked page never accepted |
| Links.LoopTakesLongestPrefix | src/crawler.cpp:508-512 | undisturbed, the loop accepts the longest prefix of new links there is room for, in order, and nothing else |
| Links.LoopTakesAllExactly | src/crawler.cpp:508-512 | it takes every link if and only if there is none, or nobody has called stop, there is room for all, and they are distinct and new |
| Links.LinksTakenAsPrefix | src/crawler.cpp:505-513 | in every interleaving a worker takes a prefix of its page's links, in order; the loop ends early only after a stop, at the cap or at a URL seen before |
| Links.FollowingIsPending | src/crawler.cpp:394-399 | a crawl with a page still being followed is not drained |
| Links.OfferedIsTakenOrLost | src/crawler.cpp:505-513 | in a drained crawl every link of a fetched page within the depth budget was accepted or left behind by a rejection |
| Links.ClosedExactly | src/crawler.cpp:505-513 | a drained crawl is closed under links within the depth budget if and only if every link a rejection left behind was accepted from elsewhere |
| Links.UncutCrawlIsComplete | src/crawler.cpp:505-513 | a drained crawl in which no loop was cut short is closed under links, and all of it is crawled |
| Depths.LinksKeptExactly | src/crawler.cpp:505-508 | a fetched page leaves all its links to follow if the depth of the page plus 1 is at most maxDepth, and none otherwise |
| Depths.EveryPageHasASource | src/crawler.cpp:303-337 | in every run, every accepted page was submitted with its depth and priority, or was accepted when a worker followed a link to it, among those fetched for an earlier page, at one more than the depth of that page and with its depth as priority |
| Depths.DepthIsDistance | src/crawler.cpp:505-513 | a page of depth d hangs on a chain of d - d0 links from a page submitted at depth d0, and lies within the limit unless it was submitted itself |
| Depths.NothingFartherThanTheLimit | src/crawler.cpp:505-513 | with all pages submitted at depth 0, every accepted page is exactly as many links away from one as its depth says, and never more than maxDepth |
| Crawler.WhatIsAccepted | src/crawler.cpp:325-334 | an accepted page keeps a submitted priority that is not negative and otherwise gets its depth; the first one starts workerCount workers, or one |
| Crawler.WhatIsTaken | src/crawler.cpp:507-511 | a link taken is the next one of its page and lies one level below it |
| Crawler.Crawler.constructor | src/crawler.cpp:292-297 | a new crawler is in the initial state |
| Crawler.Crawler.Enqueue | src/crawler.cpp:303-337 | performs the enqueue step on the fields and the real filter; true exactly for a new URL with room and no stop, which is then accepted with its depth and with its priority or else its depth |
| Crawler.Crawler.Admit | src/crawler.cpp:320-336 | the accepting half: set, filter, queue, counters and workers become those of the step |
| Crawler.Crawler.SpawnWorkers | src/crawler.cpp:328-334 | starts exactly that many waiting workers |
| Crawler.Crawler.TakeNext | src/crawler.cpp:382-393 | performs the dequeue step and returns an item no other precedes |
| Crawler.Crawler.GiveUp | src/crawler.cpp:453-487 | a blocked or failed page has no links to follow |
| Crawler.Crawler.PageFetched | src/crawler.cpp:505-508 | the worker goes on with all links of the page if one more than its depth is within the limit, and with none otherwise |
| Crawler.Crawler.FollowLink | src/crawler.cpp:508-512 | one round of the link loop, which a rejection ends; an accepted link is one level deeper than its page |
| Crawler.Crawler.FollowLinks | src/crawler.cpp:508-512 | the whole loop, undisturbed, with the exact condition under which it takes every link |
| Crawler.Crawler.FinishItem | src/crawler.cpp:395-399 | performs the finish step |
| Crawler.Crawler.Leave | src/crawler.cpp:385-388 | performs the exit step |
| Crawler.Crawler.Halt | src/crawler.cpp:345-352 | sets stop; only the first caller goes on to join |
| Crawler.Crawler.JoinWorkers | src/crawler.cpp:354-362 | when it returns, the queue is empty, nothing is pending and everything accepted is crawled |
| Crawler.Top | include/shadowse/crawler.hpp:79-84 | scans for the position of the best item |
| RobotsTxt.LowerAscii | src/robots_txt.cpp:13-19 | lowers ASCII letters and nothing else |
| RobotsTxt.TrimWs | src/robots_txt.cpp:21-26 | strips white space from both ends |
| RobotsRules.PathOf | src/robots_txt.cpp:50-59 | the path begins with a slash and holds no query or fragment |
| RobotsTxt.KeyAndValue | src/robots_txt.cpp:78-80 | splits a line at its first colon into what the line says |
| RobotsTxt.ParseBody | src/robots_txt.cpp:61-100 | holding rules back until a group ends extracts the same rules, in order, as deciding line by line |
| RobotsRules.KeptRules | src/robots_txt.cpp:82-96 | a rule is kept if and only if some line states it with a non-empty path and the last user-agent line above means us |
| RobotsRules.CollectedPaths | src/robots_txt.cpp:87-96 | no stored path is empty |
| RobotsTxt.Decide | src/robots_txt.cpp:149-170 | the single pass allows a path if and only if no rule matches or some longest matching rule allows (RFC 9309 section 2.2.2, without wildcards) |
| RobotsRules.BestStep | src/robots_txt.cpp:156-168 | one more rule updates the longest match and its verdict correctly |
| RobotsRules.OrderIsIrrelevant | src/robots_txt.cpp:153-170 | permuting or repeating rules never changes a verdict |
| RobotsRules.OneMoreRule | src/robots_txt.cpp:153-170 | a further rule turns the verdict only its own way and only where it is the longest match |
| RobotsRules.GroupsCommute | src/robots_txt.cpp:61-100 | the groups of a body may be written in any order |
| RobotsText.LineReads | src/robots_txt.cpp:75-96 | a line is read by its keyword and value, whatever its case, the white space around its parts and the comment behind it |
| RobotsText.SpellingDoesNotMatter | src/robots_txt.cpp:71-96 | writing a rule in another way changes no verdict, in whatever body it stands |
| RobotsText.CommentSaysNothing | src/robots_txt.cpp:75-78 | a line of nothing but a comment says nothing |
| RobotsText.DisallowNeverPermits | src/robots_txt.cpp:92-96 | one more disallow line, anywhere in a body, never permits what was refused |
| RobotsText.AllowNeverRefuses | src/robots_txt.cpp:87-91 | one more allow line, anywhere in a body, never refuses what was permitted |
| RobotsText.AgentMatch | src/robots_txt.cpp:81-86 | a group is for us if it is for everyone or one of the two names is part of the other, whatever their case, and not otherwise |
| RobotsText.OwnName | src/robots_txt.cpp:81-86 | so our own name is, in any case |
| RobotsText.OneDisallow | src/robots_txt.cpp:61-171 | a body of one group that disallows one path refuses those it is for exactly the paths that begin with that one |
| RobotsText.DisallowAndAllow | src/robots_txt.cpp:137-171 | an allowed path added to it permits again exactly where it is no shorter and the path begins with it |
| RobotsText.PartsOfAddress | src/robots_txt.cpp:39-59 | of an address made of scheme, host, path and query or fragment, the origin is scheme and host in small letters and the path is the path |
| RobotsText.RootOfAddress | src/robots_txt.cpp:39-59 | without a slash behind the host the path is the root |
| RobotsText.NoScheme | src/robots_txt.cpp:39-59 | an address without a scheme has no origin, and its path is the root |
| RobotsTxt.RobotsTxt.Find | src/robots_txt.cpp:131-133 | finds the rules of an origin, or none |
| RobotsTxt.RobotsTxt.Store | src/robots_txt.cpp:118-125 | replaces or adds the policy of one origin and leaves all others; origins stay distinct |
| RobotsTxt.RobotsTxt.LoadDomain | src/robots_txt.cpp:102-126 | fetches a policy once for each origin; a failed fetch permits everything |
| RobotsTxt.LastFetchWins | src/robots_txt.cpp:102-126 | however threads interleave, an origin's policy is that of the thread that stored last, read from the origin's own robots.txt, and an origin once known stays known |
| RobotsTxt.RobotsTxt.HasRules | src/robots_txt.cpp:128-135 | true if and only if the origin has rules |
| RobotsTxt.RobotsTxt.Allowed | src/robots_txt.cpp:137-171 | the verdict of the origin's rules on the path |
| RobotsTxt.RobotsTxt.MayFetch | src/crawler.cpp:447-463 | a page is refused exactly when the rules first published by its origin, read for our name, forbid its path |
| RobotsText.VisitUnderDisallow | src/crawler.cpp:447-463 | the first page of a site whose robots.txt disallows one path to one agent is fetched unless the agent is us and the path of the page begins with that one; a URL that contains robots.txt always is |
| RobotsText.VisitUnderBoth | src/crawler.cpp:447-463 | the same with a path allowed again, where the longer of the two decides and the allowed one in a tie |
| RobotsText.VisitAfterFailure | src/crawler.cpp:447-463 | a site whose robots.txt cannot be fetched refuses nothing |
| JsonPrinter.EscapeString | src/json.cpp:81-104 | the loop escapes byte by byte |
| JsonPrinter.DumpValue | src/json.cpp:106-172 | appends exactly the text of the value in the chosen layout |
| JsonPrinter.DumpElements | src/json.cpp:142-146 | appends the elements with their separators and line breaks |
| JsonPrinter.DumpMembers | src/json.cpp:158-166 | appends the members with their separators and line breaks |
| JsonParser.ParseNumber | src/json.cpp:249-269 | success moves strictly forward inside the text |
| JsonParser.ParseString | src/json.cpp:270-317 | success moves strictly forward inside the text |
| JsonParser.ParseValue | src/json.cpp:190-204 | success moves strictly forward inside the text, so the recursion ends on every input |
| JsonParser.ParseArray | src/json.cpp:349-368 | success moves strictly forward inside the text |
| JsonParser.ParseObject | src/json.cpp:369-393 | success moves strictly forward inside the text |
| JsonParser.Parser.SkipSpace | src/json.cpp:219-224 | moves past the white space |
| JsonParser.Parser.TakeNumber | src/json.cpp:249-269 | moves and returns, or fails at the same offset, as the number specification says |
| JsonParser.Parser.TakeHex4 | src/json.cpp:318-331 | reads four hexadecimal digits or fails where the specification says |
| JsonParser.Parser.TakeUnicodeEscape | src/json.cpp:291-307 | joins surrogate pairs and refuses a high surrogate without a low one, as the escape specification says |
| JsonParser.Parser.TakeString | src/json.cpp:270-317 | moves and returns, or fails at the same offset, as the string specification says |
| JsonParser.Parser.TakeValue | src/json.cpp:190-204 | moves and returns, or fails at the same offset, as the value specification says |
| JsonParser.Parser.TakeArray | src/json.cpp:349-368 | the same for arrays |
| JsonParser.Parser.TakeMember | src/json.cpp:378-386 | the same for one key and value |
| JsonParser.Parser.TakeObject | src/json.cpp:369-393 | the same for objects |
| JsonParser.Parse | src/json.cpp:398-412 | parses one value and refuses anything but white space after it, as the text specification says |
| JsonStrings.SpelledIsRead | src/json.cpp:270-317 | a string written in any of the ways to write it, plain or with escapes, is read as what it means (RFC 8259 section 7) |
| JsonStrings.StringExactly | src/json.cpp:270-317 | a string is read with some value if and only if it is written, in quotes, in one of those ways and means that value |
| JsonGrammar.PairText | src/json.cpp:291-307 | every code point from 0x10000 on, written as its two UTF-16 units of four hexadecimal digits in either case, is parsed to its UTF-8 encoding |
| JsonGrammar.UnitText | src/json.cpp:291-307 | so is every other scalar value, written as one unit |
| JsonStrings.QuotedParses | src/json.cpp:270-317 | an escaped string is read back, for arbitrary bytes |
| JsonStrings.PrintedIsSpelled | src/json.cpp:81-104 | a string is printed in one of the ways to write it, with each control character as its short escape or in four hexadecimal digits with small letters |
| JsonStrings.PrintedIsShortest | src/json.cpp:81-104 | no way to write it is shorter |
| JsonNumerals.NumeralReads | src/json.cpp:249-269 | a sign, digits, a fraction and an exponent are read as the number they denote in decimal (RFC 8259 section 6) |
| JsonNumerals.NumberIsNumeral | src/json.cpp:249-269 | nothing else is taken for a number |
| JsonNumerals.NumberParses | src/json.cpp:249-269 | a number stops exactly before the comma, bracket, brace, space or end that follows |
| JsonNumerals.DigitsAreDecimal | src/json.cpp:120-122 | a natural number is printed in its decimal digits without a leading zero |
| JsonNumerals.DecimalReads | src/json.cpp:120-122 | the text of an integer is one number and denotes that integer |
| JsonGrammar.DocReads | src/json.cpp:190-393 | a document written at a position is read from it as what it means, up to its last byte, whatever white space it contains |
| JsonGrammar.ValueIsDoc | src/json.cpp:190-393 | whatever is read as a value is such a document |
| JsonGrammar.TextExactly | src/json.cpp:398-412 | a text is parsed to a value if and only if it is a document that means the value, with nothing but white space around it |
| JsonRoundTrip.LaidText | src/json.cpp:106-172 | what is printed is the document in which every item of a list stands on a line of its own with two blanks for each level and the closing bracket on the next, or, in the compact layout, without any white space |
| JsonRoundTrip.NumbersPrinted | src/json.cpp:118-129 | an integer strictly between -9.2e18 and 9.2e18 is printed in decimal, any other number by the stream |
| JsonRoundTrip.ValueParses | src/json.cpp:106-172 | what is printed at a position is parsed from it, up to its last byte |
| JsonRoundTrip.RereadIsSame | src/json.cpp:118-129 | only numbers can come back changed |
| JsonRoundTrip.RoundTrip | src/json.cpp:398-412 | for any way of printing other numbers, parsing a printed value succeeds and gives it back if and only if its numbers keep their values |
| JsonRoundTrip.IntegralRoundTrip | src/json.cpp:120-122 | a value with integer numbers below 9.2e18 is always given back, in both layouts |
| JsonRoundTrip.DumpIsInjective | src/json.cpp:174-178 | no two such values print alike, even in different layouts |
| StreamNumbers.Rounded | src/json.cpp:124-126 | a positive number is rounded to six digits before the point |
| StreamNumbers.RoundedIsNearest | src/json.cpp:124-126 | no decimal of six digits is nearer to the number |
| StreamNumbers.TiesGoToEven | src/json.cpp:124-126 | half-way between two, the one with the even last digit is taken |
| StreamNumbers.StreamForm | src/json.cpp:124-126 | it is printed in scientific notation if and only if it is then below 0.0001 or not below a million, without needless zeros and with at least two digits in the exponent |
| StreamNumbers.StreamReads | src/json.cpp:124-126 | the stream's text, fixed or scientific, is one number and denotes the six digits it was rounded to |
| Doubles.SixDigitsRecovered | src/json.cpp:124-126 | the double nearest to a decimal of at most six digits is printed as that decimal |
| Doubles.StreamIsExact | src/json.cpp:124-126 | printing and reading keeps a double if and only if it is the nearest to some decimal of at most six significant digits |
| Doubles.EveryValueParses | src/json.cpp:106-172 | every value of doubles can be printed and parsed, and comes back unchanged if and only if each number is an integer below 9.2e18 or the nearest double to a decimal of at most six digits |
| Doubles.SeventhDigitIsLost | src/json.cpp:124-126 | the double nearest to 123456.7 comes back changed |
| Doubles.NotFiniteIsRefused | src/json.cpp:190-204 | the texts printed for infinities and NaN are refused wherever a value may stand |
| TorPoolModel.DistinctIsKept | src/tor_proxy_pool.cpp:27-41 | a pool without duplicates stays so under every call |
| TorPoolModel.SelectedIsHealthy | src/tor_proxy_pool.cpp:83-99 | a selected endpoint is in the pool, healthy, and was healthy, rotated or probed up |
| TorPoolModel.NothingSelected | src/tor_proxy_pool.cpp:50-94 | the exact condition under which none is returned |
| TorPoolModel.SelectExactly | src/tor_proxy_pool.cpp:47-100 | without a rotation, of the endpoints that are healthy or were probed a cooldown ago the one at the cursor is picked and the cursor moves on; no other endpoint changes, and of that one only health and clocks |
| TorPoolModel.RotationMovesOn | src/tor_proxy_pool.cpp:56-65 | a due rotation moves the cursor on by one, inside the list, before the endpoint at it is returned |
| TorPoolModel.RemovedExactly | src/tor_proxy_pool.cpp:34-41 | a removal leaves every endpoint of another name in its place between those before and behind it |
| TorPoolModel.NoneThoughOneIsHealthy | src/tor_proxy_pool.cpp:86-94 | a pool with a healthy endpoint from which nothing is returned |
| TorPoolModel.FailureQuarantines | src/tor_proxy_pool.cpp:114-126 | a failure report quarantines an endpoint whose other copies are down; a pool of distinct endpoints has no other copies |
| TorPoolModel.CallKeepsQuarantine | src/tor_proxy_pool.cpp:47-155 | no harmless call ends a quarantine |
| TorPoolModel.NotSelectedDuringCooldown | src/tor_proxy_pool.cpp:67-99 | when every further copy of a failed endpoint is down and was probed since, no interleaving of harmless calls selects it before failure time + cooldown |
| TorPoolModel.CursorReaches | src/tor_proxy_pool.cpp:83-84 | the wrapping 64-bit cursor reaches every position of a list within two rounds |
| TorPoolModel.EndpointComesRound | src/tor_proxy_pool.cpp:67-99 | while nothing rotates, every endpoint that is healthy or cooled down is returned within two rounds of selections at one clock reading |
| TorPoolModel.SuccessComesRound | src/tor_proxy_pool.cpp:102-113 | a success report makes the first endpoint of the name healthy, and selections at any clock reading without a rotation soon return it |
| TorPoolModel.OtherCopyIsReturned | src/tor_proxy_pool.cpp:114-126 | otherwise harmless selections at one clock reading within the cooldown return the failed endpoint |
| TorPoolModel.KeptAwayExactly | src/tor_proxy_pool.cpp:47-126 | while no rotation falls due, a failure keeps the endpoint from being selected for its cooldown if and only if every further copy in the pool is down and was probed since |
| TorPoolModel.DuplicatesDefeatQuarantine | src/tor_proxy_pool.cpp:22-25 | with a duplicate the next selection can return the failed endpoint |
| TorPoolModel.RotationLiftsQuarantine | src/tor_proxy_pool.cpp:56-65 | a due rotation makes all endpoints healthy and one is returned |
| TorPoolModel.WalksRound | src/tor_proxy_pool.cpp:83-84 | with all endpoints healthy the selections walk round the pool |
| TorPoolModel.LoadIsBalanced | src/tor_proxy_pool.cpp:83-84 | any two of n consecutive selections from n distinct healthy endpoints differ |
| TorPool.AggregateProbe | src/tor_proxy_manager.cpp:102-126 | up if some proxy answers, down if none does, unknown for an empty list |
| TorPool.PooledTorProxyManager.constructor | src/tor_proxy_pool.cpp:22-25 | takes the endpoints as they are |
| TorPool.PooledTorProxyManager.AddProxy | src/tor_proxy_pool.cpp:27-33 | adds an endpoint unless one of that name is there |
| TorPool.PooledTorProxyManager.RemoveProxy | src/tor_proxy_pool.cpp:34-41 | removes every endpoint of that name and keeps the others in order |
| TorPool.PooledTorProxyManager.CandidateList | src/tor_proxy_pool.cpp:69-78 | collects the healthy and the cooled-down positions |
| TorPool.PooledTorProxyManager.Prepare | src/tor_proxy_pool.cpp:53-65 | counts an onion request and rotates when due |
| TorPool.PooledTorProxyManager.SelectProxy | src/tor_proxy_pool.cpp:47-100 | performs the selection on the fields; a result is healthy and in the pool |
| TorPool.PooledTorProxyManager.ReportSuccess | src/tor_proxy_pool.cpp:102-113 | marks the first endpoint of that name healthy, and changes nothing when there is none |
| TorPool.PooledTorProxyManager.ReportFailure | src/tor_proxy_pool.cpp:114-126 | marks the first endpoint of that name down and starts its cooldown; in a distinct pool that is a quarantine |
| TorPool.PooledTorProxyManager.Probe | src/tor_proxy_pool.cpp:128-144 | returns and stores the aggregated status and sets every endpoint's health from its own probe |
| TorPool.PooledTorProxyManager.ProbeEndpoint | src/tor_proxy_pool.cpp:145-155 | sets the health of every endpoint of that name |
| Base64.ToBase64 | src/crypto.cpp:46-73 | the loop computes the encoding in groups of three bytes |
| Base64.SextetsHoldBytes | src/crypto.cpp:51-57 | four characters hold exactly the bits of three bytes |
| Base64.EncodingHoldsBits | src/crypto.cpp:46-73 | the values of the encoding are the data's bits followed by fewer than six zero bits (RFC 4648 section 5) |
| Base64.EncodedLength | src/crypto.cpp:46-73 | the encoding of n bytes has ceil(4n / 3) characters |
| Base64.EncodedCharacter | src/crypto.cpp:43-73 | each character stands, in the ranges A-Z, a-z, 0-9, - and _, for its six bits of the group of three bytes it is in |
| Base64.BufferTakes | src/crypto.cpp:99 | shifting a sextet into the wrapping 32-bit buffer appends its bits to the pending ones, whatever stale bits are above |
| Base64.BufferGives | src/crypto.cpp:101-104 | taking a byte out yields the oldest eight pending bits |
| Base64.FromBase64 | src/crypto.cpp:86-107 | the loop computes the whole bytes of the concatenated sextets |
| Base64.RoundTrip | src/crypto.cpp:46-107 | decoding undoes encoding for every byte sequence |
| Base64.DecodedByte | src/crypto.cpp:75-107 | each byte of a decoding is made of the bits of the characters that hold it, in either alphabet: + and / count as 62 and 63 |
| Base64.NoiseIsIgnored | src/crypto.cpp:95-98 | a character outside the alphabets, inserted anywhere, changes nothing |
| Base64.PaddingEndsInput | src/crypto.cpp:92-94 | nothing after a padding character is looked at |

## Left out

- Bm25.Rank: scores are real numbers and the logarithm is any increasing function with log(1) = 0, so rounding is not modelled; nothing is promised where a denominator is zero and the source gets an infinity or a NaN, which only k1 < 0 or b outside [0, 1] can cause.
- Bm25.DistinctTerms: inserts one term after another where the source sorts and drops repetitions; the specification has only one answer.
- Bm25.SortedResults: inserts one result after another where the source calls `std::sort`; the specification has only one answer.
- InvertedIndex.InvertedIndex.AddDocument: ids, frequencies and lengths do not wrap at 32 or 64 bits.
- InvertedIndex.InvertedIndex.AllDocuments: the order of the hash map is left open, and so is the order of merged terms in `InvertedIndex.MergeInto`.
- Changes to the index while a query ranks: what `postings` and `document` return is read after the lock is released (src/inverted_index.cpp:126-136), so ranking is modelled over a fixed index.
- Engine.SaveState: models the bytes, not the file; encryption and key derivation (src/snapshot.cpp:129-214) are foreign calls.
- BloomFilter.BloomFilter.constructor: takes any number of bits and probes that is at least 1; the size formula (src/bloom_filter.cpp:24-38) is floating point. `std::hash` is any function, a word is the sequence of its bits.
- Frontier.Enabled: a worker's wait on the condition variable is a guard of its next step; wake-ups, `politenessWait` and its gap, which does not hold across two workers (src/crawler.cpp:417-438), and scheduling fairness are not modelled.
- Crawler.Crawler.PageFetched: the fetch, the robots verdict, HTML extraction and indexing are open inputs; the links are any list. The priority queue is modelled by its contract: the best item is removed.
- Crawler.Crawler.JoinWorkers: joining the threads and resetting the fields is one step.
- RobotsTxt.RobotsTxt.LoadDomain: its two locked sections run without another thread in between; `RobotsTxt.LastFetchWins` is about the sections of several threads in any order.
- RobotsTxt.RobotsTxt.MayFetch: the politeness wait and the error callback are not modelled.
- JsonParser.Parse: an error is its kind and offset, not its message text, and which one it is where is stated only by the functions the methods are proved against; the call stack is unbounded.
- Doubles.EveryValueParses: rounding to a double is any idempotent, odd function right to seven digits, so the exponent range (subnormal numbers and overflow) is not modelled, nor are negative zero and locales; the parser reads a decimal exactly and `Doubles.InDoubles` then rounds it, since no number's value steers the parser.
- In-place editing of JSON values (`push`, `operator[]`) and the accessors of src/json.cpp:19-79: no property beyond their bodies.
- TorPoolModel.KeptAwayExactly: asks that no rotation falls due before the cooldown is over, because a rotation marks every endpoint healthy (`TorPoolModel.RotationLiftsQuarantine`); list and cursor are those of a 64-bit machine.
- TorPoolModel.NotSelectedDuringCooldown: the cooldown is taken not to be negative, and clock readings, probe results and the circuit name are inputs.
- TorPoolModel.LoadIsBalanced: as long as the 64-bit cursor does not wrap, where the walk jumps.
- TorPool.PooledTorProxyManager.Probe: of a probe result only the status is modelled, not its message and duration; pool statistics, the retry and backoff policy and the country setting are left out.
- TorPool.PooledTorProxyManager.SelectProxy: the sentinel endpoint for none is an option value, and the circuit name's hash is an input.
- Sockets, HTTP servers, gateway and admin handlers, terminal interface, HTML helpers and command-line parsing: plumbing without an invariant of its own.
