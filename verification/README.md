# Verified models of the dyeing service's algorithmic core

This project models, in Dafny, the parts of the repository whose correctness is not obvious from one
function body, and proves what they are for. Code that updates state keeps that form: classes with fields,
arrays written in place, loops with invariants. Each such method is proved against a specification function,
and the properties are proved about those functions. `dafny verify dfyconfig.toml` checks everything.

## What is modelled

**Shared-memory queue** (`QueueMemory`, `QueueRing`, `QueueRuns`, `QueueHistory`, `MemQueue`).
`INV_MemQueue` keeps length-prefixed records in a circular byte buffer and changes its control block through
a redo journal. The model makes every store a step of its own, so a crash leaves some prefix of the stores.
Recovery may itself be stopped anywhere, any number of times. A segment `Represents` exactly one abstract
queue; `push_back` and `pop_front` cut after any store leave the queue before or the queue after, unread
bytes are never written, and every run of calls, each of which may be killed anywhere, is a run of a plain
FIFO in which some of the killed calls took effect.

**XXTEA** (`XxTea`, `XxTeaAnswer`). Encryption and decryption in place over a word array, the padding, the length word and
the modular round counter. Decryption inverts encryption for every non-empty text, and for no empty one. The mixing
term is written twice, with C's operators and in arithmetic, and a published answer fixes every constant.

**Replacement trie** (`ReplaceTrie`, `Replacer`). `INV_Replacer_impl` on the heap, with footprints, refines a
trie value; the trie represents the dictionary of what was added; `replace` substitutes, from left to right,
the longest key at each position.

**Keyword trie** (`KeywordIndex`, `KeywordSearch`, `KeywordSets`, `KeywordText`). The node pool of `KeyWordSearch` is a
tree whose node paths are an index; `Check` returns a greedy scan over double-byte tokens. For a set of keywords
there is a condition on the keywords alone, which prefix-free sets meet: every prefix of a keyword that starts with
a keyword of a reported level is one itself. Exactly then `Check` finds in every text what a plain scan over its
characters finds, in bytes: the leftmost longest keywords, each at its byte offset, with its own bytes as content.
Otherwise there is a text in which a keyword is missed. Gap or not, a result has the level, type and flag of the last
addition of its bytes and the replacement of the first.

**MD5** (`Md5Block`, `Md5`, `Md5Answer`). The block step computes in 64-bit `unsigned long` and agrees with RFC 1321 in
the low 32 bits; the buffered stream hashes the concatenation of all chunks; the two 32-bit counters give the
length in bits modulo 2^64. A digest of the RFC's test suite is computed inside the proof.

**Machine words** (`Bytes`, `Bits`, `BitVectors`). C's operators on unsigned integers, bit by bit; in arithmetic; and
as operations of bit-vectors, through which the known answers are computed.

**Recent users** (`DailyTrigger`, `FreshIndex`). The polling thread clears exactly once in each complete
occurrence of its hour. Two maps are updated by two threads, in parts that interleave freely: the two sections of
`set`, and the clock reading, the collection and the single removals of `clear`. Over every interleaving and for any
clock, no user is forgotten exactly while no recording overwrites the only entry of another user and no publication
comes after a `clear` has dealt with its user. With distinct times and prompt calls neither happens, and a `clear`
leaves recent users only.

**Bucket policies** (`Text`, `Policy`, `Buckets`, `OnlineHash`). The four-level text format, its parser, and the
choice of a configuration by hash bucket, of a thousand. Which texts are policies is said in characters.

**Text codecs** (`Base64`, `Codec`, `Path`, `ConfigText`, `Config`, `ConfigReader`, `ConfigNested`). Base64 with line breaks, the two
escape codecs, path simplification, configuration domains with their parameter lines, and the reader of whole files,
whose stack of pointers into a tree of objects refines a tree value: what each kind of line does inside any open
domain, and printed parameters between tags read back at their place.

## Where the code does not do what one might expect

Each of these is proved, with the exact condition where the code meets the property on some inputs.

- `decrypt` does not undo `encrypt` on the empty string (`XxTea.RoundTrip`).
- A record that fills the buffer exactly makes top equal bottom, so the queue reads as empty and the push
  counter runs ahead, by exactly the number of such records (`QueueHistory.OpKeepsCount`,
  `QueueHistory.CountIsExactOverRuns`).
- `elementCount` is the number of records as long as the push counter has not wrapped below the pop counter; then it
  is one too low (`QueueHistory.ElementCountIsExact`).
- The keyword scan can miss a keyword that is a proper prefix of an unreported tree node
  (`KeywordText.CheckFindsTheBytes`, `KeywordText.GapText`).
- A user can stay in `kq` without an entry in the time index, so that no later `clear` removes it: when another user is
  recorded under the same time, or when `set` is held up between its sections until a `clear` has come and gone
  (`FreshIndex.RecordForgets`, `FreshIndex.PublishForgets`; both happen: `FreshIndex.CollisionForgets`,
  `FreshIndex.LatePublishForgets`).
- A queue laid out over the remains of another one whose journal still holds a committed change redoes that change
  (`MemQueueModel.CreatedIsEmpty`).
- An hour setting that is not the plain decimal number of an hour never clears
  (`DailyTrigger.OddHourNeverClears`).
- A policy without any well-formed slot is accepted, and cannot be served (`Policy.SlotsExist`); one printed
  without slots is refused (`Policy.EntryText`).
- `transFrom` undoes `transTo` exactly when the second escape letter differs from the first, or the escape letter
  is the escaped one, or it does not occur (`Codec.RoundTrip`).
- `urldecode` accepts hexadecimal digits in lower case and misreads some: "%4f" becomes "o". A text decodes to what it
  means exactly when none of its escapes has a small letter for its second digit behind a first digit without bit 1
  (`Codec.DecodedAsMeant`, `Codec.LowerCaseIsMisread`).
- Base64 texts that are put together decode to the bytes of both, whatever the second one, exactly when the first
  ends without padding: padding is read again as part of what follows (`Base64.TextsJoin`).
- A configuration name that ends in a backslash hides the equals sign after it, and outer spaces are lost
  (`ConfigText.LineRoundTrip`); a parameter with an empty value is printed as a bare name whose escapes are never
  undone (`ConfigText.BareLine`); a name that starts like a comment or a tag is read as one
  (`ConfigText.PrintedLine`). A domain's printed parameters are read back from a file exactly when none of this
  applies to any of them (`ConfigReader.ParamsRoundTrip`, and inside a domain `ConfigNested.NestedRoundTrip`).
- The comment at `src/online_hash.cc:134-135` separates the slots of its second example with `;`. The code
  separates slots with `:` and products with `;`; the model follows the code.

## Model

| member | source | states |
|---|---|---|
| QueueMemory.RedoIsLastWrite | common/inutil/inv_mem_queue.cpp:252-266 | Redoing a committed journal gives each control field the value of its last entry. |
| QueueMemory.RedoIsIdempotent | common/inutil/inv_mem_queue.cpp:250-269 | A journal redone after any part of it had been redone gives the same control block. |
| QueueMemory.RollbackCut | common/inutil/inv_mem_queue.cpp:239-249 | A rollback stopped after any store has not touched control block or data, and is still a rollback to be done. |
| QueueMemory.RedoCut | common/inutil/inv_mem_queue.cpp:250-269 | A redo stopped after any store still leads to the same control block. |
| QueueMemory.RecoveryIsCrashProof | common/inutil/inv_mem_queue.cpp:232-274 | Recovery stopped after any store, from any journal the queue's own stores can leave, stands for the same recovered control block and data; run to its end it settles there. |
| QueueRing.EncodeInjective | common/inutil/inv_mem_queue.cpp:183-188 | Length-prefixed records decode in one way only. |
| QueueRing.RepresentsIsFunctional | common/inutil/inv_mem_queue.cpp:49-113 | A segment stands for at most one queue, counters included. |
| QueueRing.UsedIsEncoded | common/inutil/inv_mem_queue.cpp:68-93 | The bytes between bottom and top are the encoded records; top equals bottom exactly when there are none. |
| QueueRing.PushStands | common/inutil/inv_mem_queue.cpp:183-227 | A record written into free bytes and the new top and push count stand for the queue with the record appended, through every wrap. |
| QueueRing.PopStands | common/inutil/inv_mem_queue.cpp:124-164 | The new bottom and pop count stand for the queue without its first record. |
| QueueRuns.TransactionIsAtomic | common/inutil/inv_mem_queue.cpp:276-285 | Two logged updates and the commit, stopped after any store, recover to none or both of the updates. |
| QueueRuns.FillCut | common/inutil/inv_mem_queue.cpp:183-222 | Copying bytes into free space, stopped anywhere, leaves the unread bytes and the queue as they were. |
| QueueRuns.PushIsAtomic | common/inutil/inv_mem_queue.cpp:174-230 | push_back stopped after any store leaves the queue before or after, decided by whether the commit store was made, and no unread byte changed. |
| QueueRuns.PopIsAtomic | common/inutil/inv_mem_queue.cpp:115-167 | pop_front stopped after any store leaves the queue before or after, and no data byte changed. |
| QueueHistory.CallIsAtomic | common/inutil/inv_mem_queue.cpp:115-274 | A call that is killed anywhere, from any state a segment can be found in, leaves the queue before or after it. |
| QueueHistory.RunsAreFifo | common/inutil/inv_mem_queue.cpp:115-230 | Every run of calls, killed or finished, leaves what a FIFO of byte strings leaves when exactly the finished and some of the killed calls are made; all that is asked is that a record pushed onto an empty queue is no longer than the buffer. |
| QueueHistory.PushMeans | common/inutil/inv_mem_queue.cpp:174-230 | The FIFO takes a message exactly when it is empty or eight bytes and the message are fewer than the free bytes; then the message is last and pushed one more, otherwise nothing changes. |
| QueueHistory.PopMeans | common/inutil/inv_mem_queue.cpp:115-167 | The FIFO gives its first message exactly when it has one, and loses that one only. |
| QueueHistory.FifoStep | common/inutil/inv_mem_queue.cpp:115-230 | Each call that took effect in the FIFO of a run is such a push or such a pop; each other call changes nothing. |
| QueueHistory.FreePlusRecords | common/inutil/inv_mem_queue.cpp:68-87 | Free bytes plus the bytes of all records are the capacity. |
| QueueHistory.OpKeepsCount | common/inutil/inv_mem_queue.cpp:101-113 | An operation keeps the counters' difference equal to the number of records, modulo 2^64, exactly when it is not a push that fills the empty buffer. |
| QueueHistory.ElementCountIsExact | common/inutil/inv_mem_queue.cpp:101-113 | elementCount is the number of records exactly when the push counter is not below the pop counter; otherwise it is one too low. |
| QueueHistory.CountIsExactOverRuns | common/inutil/inv_mem_queue.cpp:101-113 | Over every run of fewer than 2^64 calls from a new queue, elementCount is too high by exactly the number of records that vanished, so it is right exactly while none did. |
| MemQueueModel.MemQueue.Create | common/inutil/inv_mem_queue.cpp:19-34 | Laid over the remains of a queue, settled or not, the segment stands for the empty queue exactly when redoing the remaining journal changes nothing, and surely when nothing was committed. |
| MemQueueModel.CreatedIsEmpty | common/inutil/inv_mem_queue.cpp:29-33 | The condition on the leftover journal, both ways, where a committed journal addresses control fields only. |
| MemQueueModel.MemQueue.Connect | common/inutil/inv_mem_queue.cpp:36-47 | Connecting takes over whatever queue the segment stands for, with its journal empty, half written or committed. |
| MemQueueModel.MemQueue.DoUpdate | common/inutil/inv_mem_queue.cpp:232-274 | doUpdate makes exactly the stores of recovery, in order. |
| MemQueueModel.MemQueue.QueueSize | common/inutil/inv_mem_queue.cpp:95-99 | Gives the capacity and recovers; it does nothing on a settled segment. |
| MemQueueModel.MemQueue.IsFull | common/inutil/inv_mem_queue.cpp:49-66 | True exactly when the queue is not empty and the record would take all free bytes or more. |
| MemQueueModel.MemQueue.IsEmpty | common/inutil/inv_mem_queue.cpp:89-93 | True exactly when the queue has no record. |
| MemQueueModel.MemQueue.GetFreeSize | common/inutil/inv_mem_queue.cpp:68-87 | Gives the capacity less the bytes of all records. |
| MemQueueModel.MemQueue.GetElementCount | common/inutil/inv_mem_queue.cpp:101-113 | Gives the count that ElementCountIsExact is about. |
| MemQueueModel.MemQueue.WriteRecord | common/inutil/inv_mem_queue.cpp:183-223 | The three ways to split header and payload all write the framed record around the ring and give the same next top. |
| MemQueueModel.MemQueue.ReadRecord | common/inutil/inv_mem_queue.cpp:124-160 | The three ways to read header and payload all give the first record and the same next bottom. |
| MemQueueModel.MemQueue.PushBack | common/inutil/inv_mem_queue.cpp:174-230 | Takes a record exactly when the queue is empty or the record with its 8-byte length leaves a byte free behind the others; then it is the last one, pushed has gone up by one modulo 2^64 and popped is unchanged, except that a record as long as a used buffer vanishes; refused, it changes nothing. Its stores are the script that is atomic under a crash. |
| MemQueueModel.MemQueue.PopFront | common/inutil/inv_mem_queue.cpp:115-167 | Gives the first record exactly when there is one, and removes it and nothing else; its stores are the script that is atomic under a crash. |
| XxTea.StepsCancel | common/inutil/inv_xxtea.cpp:95-102 | One word's encryption step and decryption step undo each other, either way. |
| XxTea.DecipherInvertsEncipher | common/inutil/inv_xxtea.cpp:149-164 | Any number of decryption rounds undo as many encryption rounds, for every vector of at least two words. |
| XxTea.EncipherInvertsDecipher | common/inutil/inv_xxtea.cpp:92-103 | The other way round as well. |
| XxTea.CounterIsZeroOnlyAtTheEnd | common/inutil/inv_xxtea.cpp:149-153 | The round counter reaches zero after exactly the rounds encryption made and not before. |
| XxTea.MixIs | common/inutil/inv_xxtea.cpp:94-101 | The mixing term in arithmetic: shifts as divisions and multiplications modulo 2^32, sums modulo 2^32, and the key word numbered by i modulo 4 xor the counter by 4 modulo 4. |
| XxTea.KeyWordCounts | common/inutil/inv_xxtea.cpp:97-97 | Different values of the selected key word give different terms. |
| XxTeaAnswer.MixedValue | common/inutil/inv_xxtea.cpp:97-97 | The term computed with bit-vectors is the term. |
| XxTeaAnswer.KnownAnswer | common/inutil/inv_xxtea.cpp:84-103 | Eight zero bytes under the key 0102040810204080fffefcf8f0e0c080 become d1e78be2c746728a, the published answer. |
| XxTea.EncryptWords | common/inutil/inv_xxtea.cpp:84-103 | The in-place loops compute the enciphering of the array, in 6 + 52/n rounds for n words. |
| XxTea.DecryptWords | common/inutil/inv_xxtea.cpp:143-164 | The in-place loops, driven by the counter, stop after 6 + 52/n rounds and compute the deciphering of the array. |
| XxTea.PackUnpack | common/inutil/inv_xxtea.cpp:75-78 | Words written as bytes are read back as the same words. |
| XxTea.UnpackPack | common/inutil/inv_xxtea.cpp:138-139 | Bytes read as words are written back as the same bytes. |
| XxTea.PaddedLength | common/inutil/inv_xxtea.cpp:55-82 | The padded text is the data, zeros up to a word boundary, and the length as its last word. |
| XxTea.RoundTrip | common/inutil/inv_xxtea.cpp:13-37 | decrypt gives back what encrypt was given exactly when that was not empty. |
| XxTea.EncryptIsInjective | common/inutil/inv_xxtea.cpp:13-24 | Different non-empty texts have different cipher texts under one key. |
| XxTea.EncryptMeans | common/inutil/inv_xxtea.cpp:39-106 | The cipher text is the enciphering, under the first 16 bytes of the key, of words that hold the data, zeros and the length. |
| XxTea.DecryptMeans | common/inutil/inv_xxtea.cpp:143-173 | Enciphered words decrypt to as many bytes as the last word says, or to themselves if the others cannot hold so many. |
| XxTea.DecryptCovers | common/inutil/inv_xxtea.cpp:122-146 | Every text of two words or more is the enciphering of some words; every other text is given back. |
| XxTea.Encrypt | common/inutil/inv_xxtea.cpp:39-106 | The wrapper, with padding and length word, computes the function the round trip is about. |
| XxTea.Decrypt | common/inutil/inv_xxtea.cpp:108-173 | The wrapper computes that function on every non-empty input, giving the input back on each error. |
| ReplaceTrie.InsertRep | common/inutil/util/inv_replace.h:171-186 | Adding a key to a trie that represents a dictionary makes it represent the dictionary with the key set. |
| ReplaceTrie.InsertAllRep | common/inutil/util/inv_replace.h:100-104 | After any sequence of adds the trie represents the dictionary in which the last text of a key wins. |
| ReplaceTrie.CompareIsLongest | common/inutil/util/inv_replace.h:127-158 | From any node, the recursive walk with fallback finds the longest key that continues there, or none exactly if there is none. |
| ReplaceTrie.CompareAtRoot | common/inutil/util/inv_replace.h:127-158 | At the root it finds the longest key of the dictionary at the position, with its text and start. |
| ReplaceTrie.NoMatchCopies | common/inutil/util/inv_replace.h:160-169 | Positions without a key are copied. |
| ReplacerModel.Replacer.Add | common/inutil/util/inv_replace.h:171-186 | On the heap, adding updates the represented dictionary and nothing outside the tree. |
| ReplacerModel.Replacer.CompareWords | common/inutil/util/inv_replace.h:127-158 | The walk over objects agrees with the walk over the trie value. |
| ReplacerModel.Replacer.FindWords | common/inutil/util/inv_replace.h:160-169 | Finds the first position at or after the start that has a key, with the longest key there. |
| ReplacerModel.Replacer.Replace | common/inutil/util/inv_replace.h:53-73 | Gives the left-to-right longest-match substitution. |
| ReplacerModel.Replacer.CountWords | common/inutil/util/inv_replace.h:81-98 | Gives the number of substitutions. |
| ReplacerModel.Replacer.ExistWords | common/inutil/util/inv_replace.h:75-79 | True exactly when there is a substitution to make. |
| KeywordIndex.CodesAreBytes | common/inutil/inv_keyword.cpp:92-107 | Where the token codes of a text start with those of another, the bytes do. |
| KeywordIndex.BytesAreCodes | common/inutil/inv_keyword.cpp:92-107 | Where the bytes from a token boundary start with another text, the token codes do. |
| KeywordIndex.AddedEntries | common/inutil/inv_keyword.cpp:33-90 | Adding a keyword adds its prefixes, keeps every other entry, sets level, type and flag of its own node, and sets its texts if they are not set yet. |
| KeywordIndex.ReachesTheEnd | common/inutil/inv_keyword.cpp:60-72 | The keyword is added completely exactly when the pool has as many free nodes as the tree lacks prefixes. |
| KeywordIndex.DeepestNode | common/inutil/inv_keyword.cpp:115-129 | The walk stops at a node, and the next code leads to none. |
| KeywordIndex.ScanIsLongestMatch | common/inutil/inv_keyword.cpp:146-170 | The greedy scan is the naive longest-match scan on every sequence of token codes exactly when no unreported node lies below a reported one. |
| KeywordIndex.PrefixFreeIsGapFree | common/inutil/inv_keyword.cpp:146-170 | Prefix-free keyword sets have that property. |
| KeywordIndex.GapIsMissed | common/inutil/inv_keyword.cpp:109-133 | Where it fails, the naive scan finds a keyword at the start of the codes of the longer node, and the greedy scan does not. |
| KeywordIndex.HitsLieInText | common/inutil/inv_keyword.cpp:155-169 | Every hit lies inside the text, at a reported node. |
| KeywordIndex.HitIsOccurrence | common/inutil/inv_keyword.cpp:160-163 | The bytes at a hit's reported offset are the keyword's bytes. |
| KeywordSets.BuiltNodes | common/inutil/inv_keyword.cpp:33-90 | After any sequence of additions the nodes are exactly the prefixes of the keywords. |
| KeywordSets.BuiltReports | common/inutil/inv_keyword.cpp:77-79 | The reported nodes are exactly the keywords whose last given level is from 1 to the level asked for. |
| KeywordSets.BuiltData | common/inutil/inv_keyword.cpp:77-89 | After any sequence of additions a node has level, flag and type of the last keyword added there and both texts of the first. |
| KeywordSets.BuiltSnoc | common/inutil/inv_keyword.cpp:54-75 | Adding one more keyword with nodes enough gives the tree that all keywords define; it takes a node for each new prefix. |
| KeywordSets.PrefixFreeKeywordsAreFound | common/inutil/inv_keyword.cpp:146-170 | Keywords none of which starts another, of any levels, are found in every sequence of codes, hence in every text. |
| KeywordText.PieceIsKeyword | common/inutil/inv_keyword.cpp:109-133 | At a token, the codes that follow are a keyword's exactly when its bytes stand there, and they end at the same byte. |
| KeywordText.GapText | common/inutil/inv_keyword.cpp:146-170 | Keywords with a gap have a text, without cut-off characters or zero bytes, at whose start a keyword is missed. |
| KeywordText.KeywordsAreFound | common/inutil/inv_keyword.cpp:146-170 | On every text the scan is the naive longest-match scan over its tokens exactly when every prefix of a keyword that starts with a keyword of a reported level is one itself. |
| KeywordText.CheckFindsTheBytes | common/inutil/inv_keyword.cpp:146-170 | On every text, for any levels and any level asked for, the hits are the byte positions and lengths that a longest-match scan over its bytes finds, exactly under the same condition. |
| KeywordText.ResultsHoldBytes | common/inutil/inv_keyword.cpp:131-163 | Whatever the keywords, each result carries the byte offset of its keyword, as content the bytes of the text there, level, type and replacement flag of the last keyword added with these bytes, and the replacement text of the first. |
| KeywordText.KeywordsAgree | common/inutil/inv_keyword.cpp:77-89 | The first and the last keyword of a path are the first and the last with that text. |
| KeywordSearchModel.GrowPool | common/inutil/inv_keyword.cpp:54-75 | Linking a fresh node keeps the pool a tree whose paths are the index. |
| KeywordSearchModel.KeyWordSearch.Init | common/inutil/util/inv_keyword.h:75-85 | A new pool holds the root only and all other nodes are free. |
| KeywordSearchModel.KeyWordSearch.GetFreeNode | common/inutil/util/inv_keyword.h:60-72 | Gives the next free node, zeroed, while there is one; used and free nodes add up to the pool. |
| KeywordSearchModel.KeyWordSearch.AddKeyWord | common/inutil/inv_keyword.cpp:33-90 | Updates the index as AddedEntries says and throws exactly when nodes are missing. As long as the nodes are enough for all keywords, nothing is thrown and the tree is the one they define. |
| KeywordSearchModel.KeyWordSearch.Compile | common/inutil/inv_keyword.cpp:92-107 | Cuts the text into its one- and two-byte tokens. |
| KeywordSearchModel.KeyWordSearch.SearchKeyWordTree | common/inutil/inv_keyword.cpp:109-144 | Ends at the deepest node on the text and moves on by its depth, or by one token. |
| KeywordSearchModel.KeyWordSearch.Check | common/inutil/inv_keyword.cpp:146-170 | Gives the results of the scan, in order; if the nodes were enough and the keywords leave no gap, these are what the longest-match scan over the bytes of the text finds, each with its offset, bytes and level. |
| Md5Block.LowBits | common/inutil/inv_md5.cpp:63-126 | The rewritten F macros on 64-bit words agree with the functions of the standard in every low bit. |
| Md5Block.RotateAgrees | common/inutil/inv_md5.cpp:51-51 | The shift macro S on a 64-bit word is, modulo 2^32, the 32-bit rotation. |
| Md5Block.PAgrees | common/inutil/inv_md5.cpp:53-56 | One P line is, modulo 2^32, one operation of section 3.4 of RFC 1321. |
| Md5Block.Md5Process | common/inutil/inv_md5.cpp:30-151 | The 64 lines compute the block step of RFC 1321, for every block and state. |
| Md5Stream.AbsorbConcat | common/inutil/inv_md5.cpp:192-197 | Absorbing whole blocks one after the other is absorbing their concatenation. |
| Md5Stream.CountsAdd | common/inutil/inv_md5.cpp:180-183 | The two counters with their carry hold the byte count modulo 2^64. |
| Md5Stream.HighIsSum | common/inutil/inv_md5.cpp:211-212 | The two shifted counters have no common bit, so their or is their sum. |
| Md5Stream.BitLength | common/inutil/inv_md5.cpp:211-213 | The shifted counters, joined with a bitwise or, hold eight times the byte count modulo 2^64. |
| Md5Stream.HashedBlock | common/inutil/inv_md5.cpp:184-197 | A filled block is absorbed and leaves an empty tail. |
| Md5Stream.OutputBytes | common/inutil/inv_md5.cpp:224-227 | Byte 4i + j of the output is byte j of state word i, counted from the low end. |
| Md5Stream.OutputOfInit | common/inutil/inv_md5.cpp:24-27 | Written out, the initial state is the byte sequence 01 23 ... 32 10 of section 3.3 of RFC 1321. |
| Md5Stream.WordsOfWritten | common/inutil/inv_md5.cpp:34-49 | Sixteen words written low-order byte first are read back from the block in order. |
| Md5Answer.FValue | common/inutil/inv_md5.cpp:63-126 | The functions of the four rounds computed with bit-vectors are those of the standard. |
| Md5Answer.KnownDigest | common/inutil/inv_md5.cpp:205-228 | The digest of the small alphabet is c3fcd3d76192e4007dfb496cca67e13b, as section A.5 of RFC 1321 lists it. |
| Md5Stream.Md5Context.Md5Update | common/inutil/inv_md5.cpp:172-202 | Whatever the chunking, the context stands for the concatenation of all chunks. |
| Md5Stream.Md5Context.Md5Final | common/inutil/inv_md5.cpp:205-228 | Gives the RFC 1321 digest of what the context stands for, with padding and length; OutputBytes and KnownDigest say which bytes these are. |
| Md5Stream.Md5Bin | common/inutil/inv_md5.cpp:276-290 | Gives the digest of the text, of its first bytes modulo 2^32 if it is longer than an unsigned int can say. |
| Md5Stream.Md5File | common/inutil/inv_md5.cpp:153-170 | Gives the digest of the file, whatever chunks it is read in. |
| DailyTrigger.ArmedOnEntry | src/fresh_kafka.cc:140-151 | The first poll in an occurrence of the hour finds the flag set. |
| DailyTrigger.DisarmedForTheHour | src/fresh_kafka.cc:143-149 | After a clear, no later poll of that hour finds the flag set. |
| DailyTrigger.ClearsOncePerDay | src/fresh_kafka.cc:120-151 | In every complete occurrence of the hour there is exactly one clear, across midnight too. |
| DailyTrigger.HourIsDecimal | src/fresh_kafka.cc:120-138 | The name of an hour is its decimal number without a leading zero. |
| DailyTrigger.OddHourNeverClears | src/fresh_kafka.cc:143-143 | A setting that is no hour's decimal text never clears. |
| DailyTrigger.ClearThread.Run | src/fresh_kafka.cc:140-151 | The polling loop clears at exactly the polls the lemmas are about. |
| FreshIndex.DyeingCurrentFresh.Expired | src/fresh_kafka.cc:199-209 | The walk with its early break collects exactly the entries older than the limit, in order. |
| FreshIndex.DyeingCurrentFresh.Set | src/fresh_kafka.cc:180-190 | The two locked sections enter the user under the first time in the one map and with the second time in the other. |
| FreshIndex.DyeingCurrentFresh.Clear | src/fresh_kafka.cc:192-219 | Removes exactly the expired entries and the users they name. |
| FreshIndex.RecordForgets | src/fresh_kafka.cc:183-186 | The first section of set leaves a user without entry exactly when it overwrites the only entry of another published user who is not about to be dropped. |
| FreshIndex.PublishForgets | src/fresh_kafka.cc:187-188 | The second section leaves its user without entry exactly when the entry is gone and the user is not about to be dropped. |
| FreshIndex.StepForgets | src/fresh_kafka.cc:180-219 | No other part of either thread forgets anybody; in any state, a part forgets somebody exactly when one of the two guards fires. |
| FreshIndex.NobodyIsForgotten | src/fresh_kafka.cc:180-219 | Over every execution, in every interleaving and with any clock, nobody is ever forgotten exactly when neither guard ever fires. |
| FreshIndex.CollisionForgets | src/fresh_kafka.cc:185-185 | An execution in which equal times make the first guard fire. |
| FreshIndex.LatePublishForgets | src/fresh_kafka.cc:187-188 | An execution in which a held-up set makes the second guard fire. |
| FreshIndex.ClearLeavesRecentEntries | src/fresh_kafka.cc:192-219 | When a clear has ended, a user that is left was recorded within the window exactly unless it was forgotten; set may run between the clock reading and the collection. |
| FreshIndex.StepKeepsInvariant | src/fresh_kafka.cc:180-219 | With distinct times and prompt calls, every part keeps every published user covered by the entry of its own set or a pending removal. |
| FreshIndex.PromptForgetsNobody | src/fresh_kafka.cc:180-219 | Then neither guard fires, in any interleaving. |
| FreshIndex.ClearLeavesRecentUsers | src/fresh_kafka.cc:192-219 | Then every user a clear leaves was also published within the window. |
| Text.SplitOfJoin | common/inutil/util/inv_util.h:369-418 | Splitting joined tokens that avoid the separator gives the tokens. |
| Text.JoinOfSplit | common/inutil/util/inv_util.h:369-418 | Joining the pieces gives the text, and no piece has the separator. |
| Text.SepStr | common/inutil/util/inv_util.h:369-418 | The index loop gives these pieces, without the empty ones if asked. |
| Text.AtoiOfDecimal | src/online_hash.cc:84-84 | A printed number is read back. |
| Text.AtoiOfText | src/online_hash.cc:97-98 | Leading spaces, a sign, and whatever follows the last digit do not disturb reading a number. |
| Text.Numerals | src/online_hash.cc:97-98 | Numbers are written in base ten, highest digit first. |
| Policy.SlotText | src/online_hash.cc:87-100 | A printed slot is read back and does not disturb the outer levels. |
| Policy.EntryText | src/online_hash.cc:64-103 | A printed policy is read back exactly when it has a slot. |
| Policy.ParsePrint | src/online_hash.cc:58-107 | Reading a printed list of policies adds exactly those with slots, in order, to what was there. |
| Policy.PolicyText | src/online_hash.cc:134-135 | The printed form of a policy without slots is product, bar, prefix, colon, seed. |
| Policy.SlotAddsText | src/online_hash.cc:134-135 | A further slot adds a colon and configuration, first and last bucket, separated by commas. |
| Policy.EntryAddsText | src/online_hash.cc:134-135 | A further policy stands behind a semicolon. |
| Policy.EntryShape | src/online_hash.cc:64-78 | A text is a policy exactly when it has one bar and at least two colons behind it; the product stands before the bar. |
| Policy.LastEntryWins | src/online_hash.cc:103-103 | The last entry of a product stays. |
| Policy.OthersKeepTheirPolicy | src/online_hash.cc:60-103 | Products that are not listed keep their policy. |
| Policy.SlotsExist | src/online_hash.cc:85-101 | A read policy has a slot exactly when some field after the seed has three parts. |
| Buckets.ShareIsLength | src/online_hash.cc:192-210 | With disjoint named slots a configuration serves as many buckets as its slots are long; the first also serves the uncovered ones. |
| Buckets.ChosenMeans | src/online_hash.cc:196-210 | The first slot that holds the bucket serves it, if it is named; without any slot holding it the first configuration of all does. |
| Buckets.SharesSumUp | src/online_hash.cc:192-210 | Overlapping or not, the shares of all configurations add up to the number of buckets. |
| Buckets.OnlyThePassedBucketsMove | src/online_hash.cc:197-205 | Moving the end of a slot changes nothing outside the buckets passed over. |
| Buckets.PassedBucketsChangeHands | src/online_hash.cc:197-210 | A slot that grows into uncovered buckets takes them from the first configuration. |
| OnlineHash.DyeingOnlinePlugin.ParseProductPolicy | src/online_hash.cc:58-107 | The nested loops load the table that ParsePrint is about, for one business type only. |
| OnlineHash.DyeingOnlinePlugin.LoadInternal | src/online_hash.cc:109-145 | Loading printed policies fills the table with them; an empty text is an error and changes nothing. |
| OnlineHash.DyeingOnlinePlugin.FindProduct | src/online_hash.cc:162-178 | Gives the combination with version and language if it has a policy, then that with the language, then that with the version, then the application, else the default. |
| OnlineHash.DyeingOnlinePlugin.Allocate | src/online_hash.cc:196-210 | The loop chooses the configuration the shares are counted for. |
| OnlineHash.DyeingOnlinePlugin.Get | src/online_hash.cc:147-223 | Gives prefix and configuration that the policy of the product found serves the hash of the user, with that policy's seed; nothing exactly when no product is found. |
| OnlineHash.ServedByLength | src/online_hash.cc:192-220 | Of every thousand hashes, a configuration with disjoint named slots is served as many as its slots are long; the first one also the rest. |
| OnlineHash.EveryHashServed | src/online_hash.cc:192-220 | Whatever the slots, each of a thousand hashes is served one configuration. |
| Base64.SixesHoldTheBits | common/inutil/inv_base64.cpp:74-77 | The four shifted and masked pieces hold the 24 bits in order. |
| Base64.RoundTrip | common/inutil/inv_base64.cpp:59-159 | Decoding undoes encoding for all bytes, with line breaks and without. |
| Base64.PlainText | common/inutil/inv_base64.cpp:5-113 | Character by character: the base-64 digits, in the alphabet of the source, of three bytes read as one number, and one equals sign for each missing byte. |
| Base64.WrappedText | common/inutil/inv_base64.cpp:80-86 | Wrapped text is one line for every 57 bytes, ended by CR LF, and what is left over. |
| Base64.DeTabIsAlphabet | common/inutil/inv_base64.cpp:8-27 | The decoding table undoes the alphabet and is zero everywhere else. |
| Base64.IncompleteIsDropped | common/inutil/inv_base64.cpp:128-129 | Fewer than four characters at the end are dropped. |
| Base64.TextsJoin | common/inutil/inv_base64.cpp:116-159 | A text followed by another decodes to the bytes of both, for every second text, exactly when the first has no padding. |
| Base64.WrappingAddsBreaksOnly | common/inutil/inv_base64.cpp:81-87 | Without its line breaks the wrapped text is the plain one. |
| Base64.LinesAreShort | common/inutil/inv_base64.cpp:81-87 | No line of wrapped text is longer than 76 characters. |
| Base64.EncodedFitsBuffer | common/inutil/inv_base64.cpp:34-37 | The text and its terminating zero fit in the buffer encode allocates, whichever way the product with 1.4 is rounded. |
| Base64.EncodeInto | common/inutil/inv_base64.cpp:59-113 | The loop writes the text and the zero and nothing behind them. |
| Base64.DecodeInto | common/inutil/inv_base64.cpp:116-159 | For any text inside the table, the two-pointer loop writes the decoded bytes and the zero into no more places than the text has characters. |
| Base64.Encode | common/inutil/inv_base64.cpp:29-43 | Gives the encoded text, which decodes to the data. |
| Base64.Decode | common/inutil/inv_base64.cpp:45-57 | Gives the decoded bytes of any text inside the table. |
| Codec.RoundTrip | common/inutil/inv_encoder.cpp:235-273 | The escapes are undone exactly under a condition on the letters and the text. |
| Codec.UnescapedEscaped | common/inutil/inv_encoder.cpp:255-273 | What each escaped character reads back as, for all letters. |
| Codec.EscapedIsFree | common/inutil/inv_encoder.cpp:235-253 | The escaped character is gone from the text unless it is one of the two escape letters. |
| Codec.TransTo | common/inutil/inv_encoder.cpp:235-253 | The loop that inserts while it iterates escapes every character once. |
| Codec.TransFrom | common/inutil/inv_encoder.cpp:255-273 | The loop undoes the escapes of every text that does not end in a lone escape letter. |
| Codec.UrlRoundTrip | common/inutil/inv_encoder.cpp:293-337 | Percent decoding undoes percent encoding for all byte strings. |
| Codec.UrlEncodedIsSafe | common/inutil/inv_encoder.cpp:293-313 | Encoded text holds unreserved characters, percent signs and nothing else. |
| Codec.UrlBytes | common/inutil/inv_encoder.cpp:293-313 | Letters, digits, "_", "-" and "." stay; every other byte becomes a percent sign and two upper-case hexadecimal digits. |
| Codec.HexPairIs | common/inutil/inv_encoder.cpp:281-324 | Two hexadecimal digits give their byte exactly when the second is no small letter or the first has bit 1; otherwise bit 5 comes on top. |
| Codec.DecodedAsMeant | common/inutil/inv_encoder.cpp:315-337 | Any text decodes to what it means, in either case of its digits, exactly when no escape is of the other kind. |
| Codec.LowerCaseIsMisread | common/inutil/inv_encoder.cpp:281-284 | "%4f", the letter O, decodes to o. |
| Codec.UrlEncode | common/inutil/inv_encoder.cpp:293-313 | The loop computes the encoding. |
| Codec.UrlDecode | common/inutil/inv_encoder.cpp:315-337 | The loop computes the decoding, which is what the text means exactly when no escape is misread. |
| Path.SimplifyDirectory | common/inutil/inv_file.cpp:216-265 | Gives the path that prints the meaning of the argument (absolute or not, and components), without // or /./. |
| Path.SimplifyingTwice | common/inutil/inv_file.cpp:216-265 | Simplifying keeps the meaning and is idempotent. |
| Path.SameTextSameMeaning | common/inutil/inv_file.cpp:216-265 | Two paths simplify to the same text exactly when they mean the same. |
| Path.SimplePrints | common/inutil/inv_file.cpp:222-262 | A path without the rewritten patterns is the print of its meaning. |
| Path.RemoveDoubled | common/inutil/inv_file.cpp:222-226 | The first loop keeps the meaning, ends, and leaves no //. |
| Path.RemoveDots | common/inutil/inv_file.cpp:228-232 | The second loop keeps the meaning, ends, and leaves no /./ and no new //. |
| Path.RemoveUps | common/inutil/inv_file.cpp:234-237 | The third loop keeps the meaning, ends, and leaves no way up from the root. |
| ConfigText.UnescapedEscaped | common/inutil/inv_config.cpp:218-312 | parse undoes reverse_parse on every text that can be printed. |
| ConfigText.EscapeTable | common/inutil/inv_config.cpp:287-302 | The spelling of each escape. |
| ConfigText.EscapedConcat | common/inutil/inv_config.cpp:282-311 | Each character is escaped by itself. |
| ConfigText.EscapedOrdinary | common/inutil/inv_config.cpp:306-307 | All others stay as they are. |
| ConfigText.UnknownEscape | common/inutil/inv_config.cpp:254-262 | parse throws on every other character behind a backslash, and on a backslash at the end. |
| ConfigText.TrimmedText | common/inutil/inv_config.cpp:435-435 | Trimming takes spaces, tabs, carriage returns and line feeds from both ends, and nothing else. |
| ConfigText.PlainLine | common/inutil/inv_config.cpp:183-216 | A line without escapes is split at its first equals sign, and both sides are trimmed. |
| ConfigText.LineRoundTrip | common/inutil/inv_config.cpp:183-216 | setParamValue reads a printed line back exactly under a condition on name and value. |
| ConfigText.BareLine | common/inutil/inv_config.cpp:215-215 | setParamValue reads a bare name back exactly when it has nothing to escape. |
| ConfigText.PrintedLine | common/inutil/inv_config.cpp:435-480 | A parameter printed into a file, with its tabs, is taken for itself exactly when it has no outer spaces, does not start like a comment or a tag, and nothing hides or fakes its equals sign. |
| ConfigText.Parse | common/inutil/inv_config.cpp:218-271 | The loop undoes the escapes, and throws exactly where the specification has no result. |
| ConfigText.ReverseParse | common/inutil/inv_config.cpp:273-312 | The loop writes the escapes, and throws exactly on angle brackets. |
| Config.SetKeepsConsistent | common/inutil/inv_config.cpp:167-181 | Setting a parameter keeps the list of names duplicate-free and equal to the names of the table. |
| Config.InsertKeepsConsistent | common/inutil/inv_config.cpp:142-165 | So does inserting. |
| Config.InsertValues | common/inutil/inv_config.cpp:142-144 | Inserting never changes a value; new names get the inserted one. |
| Config.InsertOrder | common/inutil/inv_config.cpp:146-164 | Inserting keeps every name in its place and appends the new names, in order. |
| Config.SetMoves | common/inutil/inv_config.cpp:167-181 | Setting gives the name the last place and the value, and keeps the order of the others. |
| Config.ConfigDomain.AddSubDomain | common/inutil/inv_config.cpp:86-95 | Gives the subdomain of the name, a new empty one if there was none, and keeps the lists consistent. |
| Config.ConfigDomain.InsertParamValue | common/inutil/inv_config.cpp:142-165 | The two loops insert what InsertValues is about. |
| Config.ConfigDomain.SetParamValue | common/inutil/inv_config.cpp:167-181 | Sets the value and moves the name to the end. |
| Config.ConfigDomain.SetParamLine | common/inutil/inv_config.cpp:183-216 | Does what the line says, and changes no parameter when the line cannot be read. |
| Config.ConfigDomain.ParamLines | common/inutil/inv_config.cpp:356-382 | Every listed name is in the table, and the lines printed, tabs included, are those the round trip is about. |
| Config.ConfigDomain.SubDomains | common/inutil/inv_config.cpp:386-393 | Every listed subdomain is in the table. |
| Config.ConfigDomain.Destroy | common/inutil/inv_config.cpp:339-354 | Leaves a domain without parameters, lines and subdomains, its lists consistent. |
| ConfigReader.GrownMirrors | common/inutil/inv_config.cpp:86-95 | A new object linked below one domain makes the objects stand for the tree with the subdomain added, and for no other change. |
| ConfigReader.ConfigFile.OpenDomain | common/inutil/inv_config.cpp:471-476 | A tag makes the objects the tree with that subdomain, and gives the object of its place. |
| ConfigReader.ConfigFile.SetLine | common/inutil/inv_config.cpp:478-481 | A parameter line, set through a pointer into the tree, changes the parameters of that domain only. |
| ConfigReader.ConfigFile.Parse | common/inutil/inv_config.cpp:425-488 | The loop over the lines of a file, with its stack of pointers to the domains it changes, leaves objects that are the tree the lines define, and ends as the source does: by return, by exception, or by using an empty stack. ConfigNested says what each kind of line does. |
| ConfigNested.SettingLine | common/inutil/inv_config.cpp:478-481 | For any tree and any open domains, a parameter line sets its parameter in the innermost open domain and changes nothing else. |
| ConfigNested.PlainSetting | common/inutil/inv_config.cpp:183-216 | Without escapes, the parameter is the text before the first equals sign with the text behind it, both trimmed. |
| ConfigNested.CommentLine | common/inutil/inv_config.cpp:437-445 | Blank lines and lines that begin with # change nothing. |
| ConfigNested.OtherLine | common/inutil/inv_config.cpp:478-481 | A line whose escapes cannot be read is an exception. |
| ConfigNested.OpeningLine | common/inutil/inv_config.cpp:471-476 | [name] makes the subdomain of the innermost open domain the innermost, a new empty one at the end of its list unless it exists. |
| ConfigNested.ClosingLine | common/inutil/inv_config.cpp:455-470 | [/name] closes the innermost domain if it has that name and changes nothing else; otherwise it is an exception. |
| ConfigNested.BrokenLine | common/inutil/inv_config.cpp:446-453 | A tag without its closing bracket is an exception. |
| ConfigReader.LineFromClean | common/inutil/inv_config.cpp:435-482 | In the root, a line is ignored, sets one parameter, throws, or is a tag, after which the root is no longer alone. |
| ConfigReader.SpoiltStays | common/inutil/inv_config.cpp:444-488 | Nothing that follows undoes a tag or an exception. |
| ConfigReader.ParamsRoundTrip | common/inutil/inv_config.cpp:356-488 | Reading the printed parameters of a domain as a file gives a root with these parameters, in this order, and nothing else, exactly when each of them survives its line. |
| ConfigNested.NestedRoundTrip | common/inutil/inv_config.cpp:356-488 | Inside any open domain, a tag, the printed parameters and the closing tag leave these parameters at the place of the tag, the open domains as they were and every other domain its parameters, exactly when each parameter survives its line. |

## Left out

- MemQueueModel.MemQueue.Create: of the memory it is laid over, requires a status of 0 to 2, fewer than five entries counted, none at status 0, and at status 2 only entries of eight bytes that address a control field; zeroed memory and every segment the queue itself leaves are like that. On other memory a redo stores elsewhere, which is not modelled.
- MemQueueModel.CreatedIsEmpty: for such memory only.
- MemQueueModel.MemQueue.DoUpdate: for such journals only, which are all that `update` writes; a store is a whole field or one byte; processor caches and reordering of stores are not modelled.
- MemQueueModel.MemQueue.PushBack: requires that a record pushed onto an empty queue is no longer than the buffer, which the source does not check.
- XxTea.RoundTrip: for keys of at least 16 bytes, data shorter than 2^31 - 8 bytes, and little-endian machines.
- XxTea.Decrypt: not for the empty string, on which the source reads outside its buffer.
- KeywordSearchModel.KeyWordSearch.Check: for text whose last double-byte character is complete; the 128-byte copies of keyword and replacement are not bounded.
- Md5Block.Md5Process: the bit operators are defined on integers bit by bit; the bit-vectors of the known answers are tied to them operator by operator.
- FreshIndex.StepKeepsInvariant: for readings in order, distinct recording times and less than one window between the two sections of set, which FreshIndex.NobodyIsForgotten does without. The window is a parameter because the literal in the source overflows an int. A user set again does not stay for a full window: an older entry that expires removes it.
- DailyTrigger.ClearsOncePerDay: for consecutive clock readings less than 30 minutes apart and days of 24 hours in local time.
- Policy.ParsePrint: for numbers below 2^31, beyond which atoi is undefined; larger numbers are reduced modulo 2^32.
- OnlineHash.DyeingOnlinePlugin.Get: requires that the policy found has a slot; without one the source reads outside a vector.
- Base64.DecodeInto: requires characters below 128; the source indexes its table with a signed char.
- Base64.EncodedFitsBuffer: the allocated size is a parameter, the floating-point product with either rounding it can have.
- Codec.TransFrom: requires that no lone escape letter ends the text; there the source reads behind the end.
- Config.ConfigDomain.ParamLines: the lines of one domain; the recursion of tostr over the tree and its tags is left out, because the tags it prints are not those the reader expects.
- ConfigNested.NestedRoundTrip: for a subdomain that is not there yet, whose name its two tags can hold.
- ConfigReader.ConfigFile.Parse: where the source uses the top of an empty stack the outcome is a value of its own; what an exception leaves of the tree, the remembered lines, and the deletion of the old subdomains are not captured.
- KeywordText.CheckFindsTheBytes: for non-empty keywords whose last double-byte character is complete.
- KeywordText.KeywordsAreFound: for non-empty keywords that are all complete or all of a reported level.
- The update overload for bool, the INV_ShmQueue wrapper with its locks and waiting.
- Copying and assigning INV_Replacer_impl, which drops data; sizes beyond int.
- AddKeyWordUtf8 and CheckUtf8, which convert through iconv; md5str and bin2str, which print hexadecimal digits.
- CityHash64WithSeed is an unspecified function; the configuration service, logging and file access become parameters.
- Path lookup in a configuration, the white list, the fresh-user and push-user maps, the request handler, the CRC table and the IP search: easy beside the above.
- Threads, locks, sockets, Kafka, Redis, databases, shared-memory calls, generated Thrift and Ice code.
