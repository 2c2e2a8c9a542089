# Huffman file compression with a chained hash map

This project models two cooperating components of a Huffman file compressor.

**The hash map** (`hashmap.cpp`) maps `int` keys to `int` values. It has ten buckets, and each bucket holds a singly linked chain of key/value nodes. It offers:
- `put`, `get`, `containsKey` and `keys`.
- The integer mixing `hashFunction` that chooses a key's bucket.
- A deep copy, through the copy constructor and `operator=`.
- A text form `{k:v, k:v}`, written by `operator<<` and read back by `operator>>`.

**The Huffman pipeline** (`util.h`) has these steps:
- Count the characters of a text into the hash map, and add the pseudo-EOF 256 with count 1.
- Build a binary tree by repeatedly merging the two trees with the lowest counts. Merged nodes carry the character 257.
- Give each leaf its root-to-leaf path of '0'/'1' as its code.
- Encode a text as its characters' codes followed by the pseudo-EOF's code.
- Decode bits by walking the tree.
- `compress` and `decompress`, including the file names `decompress` derives.

The model is organised as follows:
- **Hash map class.** `HashMaps.HashMap` is a class. Its bucket array is an `array<seq<Entry>>`, and each chain is a sequence of entries. Every method is proved against the value-level functions of module `Chains`:
  - `Put` overwrites a matching node or appends one at the tail.
  - `Lookup` finds a key's value.
  - `Flatten` and `Keys` give the `keys()` order.
  - `PutAll` is a sequence of `put`s.
- **Hashing and text form.** Module `Hashing` gives `hashFunction` on 32-bit words, with the wrap-around written out. Module `Header` defines the text form.
- **Huffman pipeline.** The pipeline is split into modules `Frequency`, `Huffman`, `Codes`, `Coding` and `Compression`:
  - The loops become methods: counting, the merge loop, `encode`, and `decode`.
  - The recursive code walk becomes a function returning a `map<int, string>`.
  - File contents are parameters and results.

The headline results are:
- **Hash map round trip.** Reading the printed form of a map into an empty map rebuilds its chains exactly, so the copy has the same pairs in the same `keys()` order (`HashMaps.SerializeParseRoundTrip`).
- **Compression round trip.** For a non-empty text, decompressing what `compress` wrote gives the text back under the "_unc" name (`Compression.RoundTrip`). Two facts make this work:
  - The parsed header rebuilds the same tree (`Compression.DecompressRebuildsTree`).
  - Decoding the encoded bits gives the text back (`Coding.DecodeEncode`).

## Model

| member | source | states |
|---|---|---|
| Hashing.HashFunctionAsWritten | hashmap.cpp:152-167 | The hash as written is a 32-bit `int`. It is non-negative exactly when the mixed value is not -2^31, and equals -2^31 when it is. |
| Hashing.Mix | hashmap.cpp:156-157 | Defines the mixing: an arithmetic shift by 16, an xor, a multiply that wraps at 2^32, and an xor with the upper half. Its properties are stated by `Hashing.HashFunctionAsWritten` and `Hashing.OverflowingKeyLeavesBucketRange`. |
| Hashing.Mixed | hashmap.cpp:156-161 | Defines `int hash = (int) temp`: the mixed word read as a signed 32-bit value. `Hashing.HashFunctionAsWritten` and `Hashing.HashFunctionCorrectsOverflow` state how the hash follows from it. |
| Hashing.HashFunction | hashmap.cpp:159-166 | Defines the corrected hash, the magnitude of the signed mixed value. `Hashing.HashFunctionCorrectsOverflow` states how it relates to the hash as written. |
| Hashing.WrapInt32 | hashmap.cpp:163 | Wrap-around into the `int` range: the result is in range, is congruent to the input modulo 2^32, and equals the input when the input is already in range. |
| Hashing.CRem | hashmap.cpp:57 | C `%` truncates: the remainder lies in [0, b) for a non-negative dividend and in (-b, 0] for a negative one. |
| Hashing.BucketAsWritten | hashmap.cpp:57 | Defines the bucket index `hashFunction(key) % 10` as written. `Hashing.BucketInRange` and `Hashing.BucketMatchesWritten` state that it is in range and agrees with the corrected bucket away from the overflow. `Hashing.OverflowingKeyLeavesBucketRange` gives a key where it is -8. |
| Hashing.HashFunctionCorrectsOverflow | hashmap.cpp:159-166 | The corrected hash, the magnitude of the mixed value, is at most 2^31. It reaches 2^31 exactly for the overflowing value. It agrees with the hash as written everywhere else. |
| Hashing.BucketInRange | hashmap.cpp:57 | Away from the overflowing mixed value, `hashFunction(key) % 10` as written lies in [0, 10). |
| Hashing.BucketMatchesWritten | hashmap.cpp:57 | Away from the overflowing mixed value, the corrected bucket is the written one. |
| Hashing.OverflowingKeyLeavesBucketRange | hashmap.cpp:156-166 | Key 1895428345 mixes to 0x80000000. The written hash is -2^31 and the written bucket is -8, while the corrected bucket is 8. |
| Hashing.OverflowingNegativeKey | hashmap.cpp:156-166 | Key -1895428346 overflows the same way and gives bucket -8. |
| Hashing.BucketIsHashMod | hashmap.cpp:57 | The bucket the model uses is the corrected hash modulo 10. |
| Hashing.BucketOf | hashmap.cpp:57 | The bucket that put, get and containsKey use is one of the ten buckets. `Hashing.BucketIsHashMod` states that it is the corrected hash modulo 10. |
| Chains.Find | hashmap.cpp:62-72 | The chain walk stops at the first node carrying the key, or at the end of the chain when no node carries it. |
| Chains.ChainLookup | hashmap.cpp:95-108 | Defines the walk of `get` along one chain: the value of the first node with the key, if any. `Chains.ChainLookupAfterPut` states get-after-put on a chain. |
| Chains.ChainPut | hashmap.cpp:60-89 | Defines `put` on one chain: overwrite the first node with the key, or append a node at the tail. `Chains.ChainPutKeeps` and `Chains.ChainLookupAfterPut` state its effect. |
| Chains.Put | hashmap.cpp:55-90 | `put` keeps ten buckets and changes only the key's bucket. `Chains.PutShape` and `Chains.LookupAfterPut` state the rest. |
| Chains.Lookup | hashmap.cpp:95-108 | Defines `get` and `containsKey` as the first node with the key in its bucket. `Chains.LookupAfterPut` and `Chains.FlattenLookup` state its properties. |
| Chains.Keys | hashmap.cpp:130-143 | Defines `keys()` as bucket order, then chain order. `Chains.KeysExactlyOnce` states that a well-formed map lists each key once. |
| Chains.Flatten | hashmap.cpp:130-143 | Defines the node walk of `keys()`: bucket by bucket, each chain from head to tail. `Chains.FlattenLookup` states that a pair is listed exactly when `get` of its key gives its value, and `Chains.Rebuild` that re-putting the list rebuilds the chains. |
| Chains.PutAll | hashmap.cpp:186-191 | Defines a sequence of `put`s in order, as the re-put loop of the copy does. `Chains.PutAllAppend`, `Chains.AppendChain` and `Chains.Rebuild` state its properties. |
| Chains.ChainLookupAfterPut | hashmap.cpp:55-108 | After `put(k, v)` on a chain, looking up `k` gives `v`, and every other key looks up as before. |
| Chains.ChainPutKeeps | hashmap.cpp:55-90 | `put` of a key hashing to bucket b keeps the chain in b and free of repeated keys. |
| Chains.PutShape | hashmap.cpp:55-90 | `put` leaves the other buckets untouched. On a present key it keeps the chain's keys, so no node is added. On an absent key it appends exactly one node at the tail. |
| Chains.LookupAfterPut | hashmap.cpp:55-108 | After `put(k, v)`, `get(k)` gives `v`, and every other key is unchanged. |
| Chains.PutPreservesWellFormed | hashmap.cpp:55-90 | `put` keeps the invariant: every key sits once, in bucket hash(key) % 10. |
| Chains.LookupFindsBucket | hashmap.cpp:113-125 | A key is present exactly when some node of its own bucket carries it. |
| Chains.FlattenLookup | hashmap.cpp:130-143 | A pair is among the listed nodes exactly when `get` of its key gives its value. |
| Chains.KeysExactlyOnce | hashmap.cpp:130-143 | `keys()` never repeats a key, and it lists a key exactly when the key is present. |
| Chains.PutAllAppend | hashmap.cpp:187-191 | Putting one list of pairs and then another is putting their concatenation. |
| Chains.AppendChain | hashmap.cpp:187-191 | Putting a chain's pairs, all new and all of one bucket, into a table appends them to that bucket. |
| Chains.Rebuild | hashmap.cpp:179-193 | Putting a map's nodes in `keys()` order into empty buckets rebuilds every chain exactly. |
| HashMaps.HashMap.constructor | hashmap.cpp:15-19 | A new map has ten empty buckets. |
| HashMaps.HashMap.Put | hashmap.cpp:55-90 | The chain walk leaves exactly the table the value-level `put` gives, and keeps the invariant. |
| HashMaps.HashMap.Get | hashmap.cpp:95-108 | The value stored under the key, or None (the `out_of_range` throw) exactly when the key is not among `keys()`. |
| HashMaps.HashMap.ContainsKey | hashmap.cpp:113-125 | True iff some node of bucket hash(key) % 10 carries the key, iff `get` succeeds. It changes nothing. |
| HashMaps.HashMap.Keys | hashmap.cpp:130-143 | Every key in bucket order and then chain order, each stored key exactly once, and no other key. |
| HashMaps.HashMap.PutAllOf | hashmap.cpp:186-191 | The re-`put` loop leaves the target holding the other map's nodes, put in `keys()` order. |
| HashMaps.HashMap.Copy | hashmap.cpp:179-193 | The copy has fresh buckets with the very chains of the original, so it has the same pairs in the same `keys()` order. |
| HashMaps.HashMap.Assign | hashmap.cpp:198-228 | Self-assignment changes nothing. Otherwise every chain is emptied first, and the target ends with the other map's chains exactly. |
| HashMaps.HashMap.Serialize | hashmap.cpp:234-247 | The text is "{", then `key:value` for each key in `keys()` order with ", " between them, then "}". |
| HashMaps.HashMap.PutSegment | hashmap.cpp:274-279 | An empty segment puts nothing. A segment that `stoi` reads puts its pair. A segment that `stoi` rejects reports the failure and changes nothing. |
| HashMaps.HashMap.Parse | hashmap.cpp:253-280 | The map ends as the old map with the read's pairs put on top in order, without clearing first. The result is the read's ending. |
| HashMaps.HashMap.ReadAndPutSegment | hashmap.cpp:259-279 | One turn of the read: it puts the segment's pairs. It either reports how the read ends, or says where the read goes on with the same ending and the remaining pairs. |
| HashMaps.ReadSegmentEnd | hashmap.cpp:260-263 | The inner loop stops at the first ',' or '}' after the start, or at the end of the text. |
| HashMaps.StepUnterminated | hashmap.cpp:260-263 | Text that runs out before a ',' or '}' ends the read as unterminated, with nothing more put. |
| HashMaps.StepBad | hashmap.cpp:274-278 | A segment that `stoi` rejects ends the read with nothing more put. |
| HashMaps.StepClosed | hashmap.cpp:268-279 | A segment closed by '}' puts its pairs and ends the read right after the '}'. |
| HashMaps.StepNext | hashmap.cpp:264-267 | A segment closed by ',' puts its pairs, and the read goes on two characters later. |
| HashMaps.SerializeParseRoundTrip | hashmap.cpp:234-280 | The printed form of a well-formed map, read into an empty map, rebuilds its chains exactly: the same pairs and the same `keys()` sequence. The read consumes the whole text. |
| HashMaps.ParseEmptyKeepsMap | hashmap.cpp:273-274 | Reading "{}" leaves any map as it was. |
| Decimal.DigitRoundTrip | hashmap.cpp:240 | A printed digit reads back as itself. |
| Decimal.IntToString | hashmap.cpp:240 | Defines `out << n`: a minus sign for negative numbers, then the decimal digits of the magnitude. `Decimal.IntToStringChars` and `Decimal.StoIRoundTrip` state its properties. |
| Decimal.StoI | hashmap.cpp:277-278 | Defines `stoi` on an optional '-' followed by digits. Any other text is a throw. `Decimal.StoIRoundTrip` states that it inverts `Decimal.IntToString`. |
| Decimal.ParseNatToString | hashmap.cpp:240 | The digits printed for a natural number read back as that number. |
| Decimal.StoIRoundTrip | hashmap.cpp:240 | What `out << n` prints, `stoi` reads back as `n`, for negative numbers too. |
| Decimal.IntToStringChars | hashmap.cpp:240 | A printed integer is digits after an optional '-'. |
| Header.ScanTo | hashmap.cpp:260-263 | The segment's length: every character before it is neither ',' nor '}', and the character at it, when there is one, is one of them. |
| Header.PairText | hashmap.cpp:240 | Defines one printed pair `k:v`. `Header.PairTextParses` states that it reads back and `Header.PairTextPlain` that it holds no ',' or '}'. |
| Header.Join | hashmap.cpp:237-244 | Defines the pieces separated by ", ", with no separator after the last. `Header.JoinAppend` states what one more piece adds, and `Header.ParseJoin` that joined segments read back in order. |
| Header.Body | hashmap.cpp:236-244 | Defines the printed pairs in `keys()` order, joined. `Header.ParseBody` states that the body reads back. |
| Header.ReadSegment | hashmap.cpp:274-279 | Defines the pairs one segment `put`s: none for an empty segment, else its pair, and a failure when `stoi` throws. `Header.PairTextParses` states that a printed pair reads as that pair. |
| Header.SegmentPairs | hashmap.cpp:274-279 | `Header.ReadSegment` behind one countdown step, so that proofs about the loop do not unfold `stoi`. `Header.SegmentPairsIs` states the two are equal. |
| Header.HeaderText | hashmap.cpp:234-247 | Defines the printed map: "{", the pairs `k:v` joined by ", ", and "}". `Header.ParseHeaderText` states that it reads back. |
| Header.ParseEntry | hashmap.cpp:276-278 | Defines one segment's pair: `stoi` of the text before the first colon and of the text after it. With no colon, `npos + 1` wraps to 0. `Header.PairTextParses` states that a printed pair reads back. |
| Header.ParseFrom | hashmap.cpp:257-280 | Defines the loop of `operator>>`. It reads segments up to ',' or '}' and skips the character after a ','. Running out of text never ends the source loop and is reported as unterminated. `Header.ParseJoin` and `Header.ParseBody` state its properties. |
| Header.ParseHeader | hashmap.cpp:253-282 | Defines `operator>>`: skip the first character, then run the loop. `Header.ParseHeaderText` and `Header.ParseEmpty` state its properties. |
| Header.FindColon | hashmap.cpp:276 | `find(":")` gives the first colon, or the length when there is none. |
| Header.AfterComma | hashmap.cpp:264-267 | After a ',' the read goes on strictly further along, and never past the end. |
| Header.JoinAppend | hashmap.cpp:237-244 | Printing one more pair after a non-empty list adds ", " and the pair. |
| Header.PairTextParses | hashmap.cpp:276-278 | A printed `key:value` reads back as the same pair. |
| Header.PairTextPlain | hashmap.cpp:240 | A printed pair is non-empty and holds no ',' or '}'. |
| Header.ParseFromAfterComma | hashmap.cpp:258-280 | A segment closed by ',' contributes its pairs, and the rest is read from after the skipped character. |
| Header.ParseLastPair | hashmap.cpp:264-279 | A printed pair closed by '}' is one put, and the read ends after the '}'. |
| Header.ParseNextPair | hashmap.cpp:264-279 | A printed pair followed by ", " is one put, and the read goes on after the space. |
| Header.ParseJoin | hashmap.cpp:258-280 | Segments each reading as one pair, joined by ", " and closed by '}', read back as those pairs in order, consuming through the '}'. |
| Header.ParseBody | hashmap.cpp:258-280 | The printed body of a list of pairs, closed by '}', reads back as exactly those pairs, whatever follows. |
| Header.ParseHeaderText | hashmap.cpp:234-280 | Reading the printed form of a list of pairs gives back exactly those pairs, in order, and stops right after the closing '}', whatever follows. |
| Header.ParseEmpty | hashmap.cpp:273-274 | "{}" reads as no pairs, and the read consumes two characters. |
| Frequency.Occurrences | util.h:61-67 | A character occurs no more often than the text is long. |
| Frequency.OccurrencesCount | util.h:61-67 | A count is positive exactly for the characters of the text, and agrees with the text's multiset. |
| Frequency.CountCharLookup | util.h:62-66 | One turn of the loop raises the character's count by one, from 0 for a new key, and changes no other key. |
| Frequency.CountAllCounts | util.h:61-67 | Counting a text adds each character's number of occurrences to its old count, and leaves every other key alone. |
| Frequency.CountAll | util.h:61-67 | The counting loop over a text keeps ten buckets. `Frequency.CountAllCounts` and `Frequency.CountAllKeeps` state what it counts. |
| Frequency.FrequencyTable | util.h:59-71 | The map after counting and the `put` of the pseudo-EOF keeps ten buckets. `Frequency.FrequencyCounts` and `Frequency.FrequencyKeys` state its contents. |
| Frequency.CountAllKeeps | util.h:61-67 | Counting keeps the map's invariant. |
| Frequency.FrequencyCounts | util.h:59-71 | Afterwards the pseudo-EOF has count 1, overwriting any earlier value. Each character of the text has its old count plus its occurrences. No other key changes. |
| Frequency.FrequencyKeys | util.h:59-71 | Counted into an empty map, the keys are exactly the characters of the text and the pseudo-EOF. |
| Frequency.CountOne | util.h:62-66 | The `containsKey`/`put`/`get` turn leaves the table one step of counting gives. |
| Frequency.CountChar | util.h:62-66 | Defines one turn of the counting loop: put 1 for a new character, else its count plus one. `Frequency.CountCharLookup` states that it adds one to that character's count and leaves every other key alone. |
| Frequency.BuildFrequencyMap | util.h:59-71 | The map ends as the counted table with the pseudo-EOF put with 1. |
| Huffman.MinIndex | util.h:102-107 | `top()` names a tree of the queue. |
| Huffman.MinIndexLowest | util.h:74-79 | The tree `top()` gives has the lowest count of the queue, and no tree before it has a count as low. |
| Huffman.RemoveAtKeeps | util.h:102-108 | `pop()` hands over the popped tree's leaves and count, and keeps the rest of the queue. |
| Huffman.RemoveAt | util.h:102-108 | Defines `pop()` of a chosen tree: the queue without it, one tree shorter. `Huffman.RemoveAtKeeps` states that the rest of the queue keeps its leaves and count. |
| Huffman.Join | util.h:102-121 | Defines the pop-pop-push of one turn: the two chosen trees leave, and a node whose count is their sum is pushed. `Huffman.JoinPicksMinima` and `Huffman.JoinKeeps` state its properties. |
| Huffman.JoinPicksMinima | util.h:99-121 | The pushed node is merged, and its count is its children's sum. Its `zero` is the first tree popped, and `zero.count <= one.count`. Its `one` is no higher than any tree left in the queue. |
| Huffman.MergeStepPicksMinima | util.h:99-121 | One turn of the merge loop joins the lowest tree of the queue, as `zero`, with the lowest of the rest, as `one`. |
| Huffman.JoinKeeps | util.h:99-121 | Popping two trees and pushing their parent loses no leaf and no count. |
| Huffman.MergeStepKeeps | util.h:99-121 | A merge loses no leaf, keeps the total count, and keeps every merged node's count the sum of its children. |
| Huffman.MergeStep | util.h:100-121 | One turn of the merge loop leaves one tree fewer. `Huffman.MergeStepPicksMinima` and `Huffman.MergeStepKeeps` state which trees it joins and what it keeps. |
| Huffman.MergeAll | util.h:99-124 | Defines the merge loop followed by `top()`. `Huffman.MergeAllKeeps` states what the final tree holds. |
| Huffman.HuffmanTree | util.h:83-125 | Defines the tree `buildEncodingTree` returns for a non-empty map. `Huffman.HuffmanTreeShape` states its leaves and counts. |
| Huffman.MergeAllStep | util.h:99-122 | A turn of the loop leaves a queue that merges into the same final tree. |
| Huffman.MergeAllKeeps | util.h:99-124 | The final tree holds exactly the queue's leaves, counts the queue's total, and sums at every merged node. It is a merged node whenever the queue held two trees. |
| Huffman.LeavesKeep | util.h:86-98 | The first loop queues one leaf per pair of `keys()`, and their total is the sum of the values. |
| Huffman.Leaves | util.h:86-98 | Defines the queue the first loop fills: one leaf per `keys()` pair, in that order. `Huffman.LeavesKeep` and `Huffman.LeavesMatchMap` state its leaves and total. |
| Huffman.LeavesMatchMap | util.h:86-98 | A tree whose leaves are the map's pairs has a leaf for each key, carrying that key's count, and no other leaf. |
| Huffman.HuffmanTreeShape | util.h:83-125 | One leaf per key carrying its count, and every merged node sums its children, so the root counts the sum of all values. The root is a merged node exactly when the map holds two keys or more. |
| Huffman.MergeQueue | util.h:99-124 | The pop-pop-push loop returns the tree that repeated merging of the queue gives. |
| Huffman.BuildEncodingTree | util.h:83-125 | For a non-empty map, the tree built from its `keys()` and `get` values. |
| Codes.CodesKeys | util.h:129-146 | The walk records exactly the leaf characters other than 257. |
| Codes.CodesFrom | util.h:129-146 | Defines the recursive walk of `stringIntoMap`: a leaf other than 257 records its path. `Codes.CodesKeys` and `Codes.CodePath` state what it records. |
| Codes.EncodingMap | util.h:151-159 | Defines `buildEncodingMap` as the walk from the root with the empty path. `Codes.PrefixFree` and `Codes.EncodingMapShape` state its properties. |
| Codes.CodePath | util.h:129-146 | A recorded code extends the walk's prefix by '0'/'1' steps that lead from the node to a leaf carrying the character. Below a merged node there is at least one step. |
| Codes.FollowEndsAtLeaf | util.h:129-146 | A path that reaches a leaf cannot be continued. |
| Codes.PrefixFree | util.h:129-159 | No character's code is a prefix of another character's code, and two characters never share a code. |
| Codes.EncodingMapShape | util.h:151-159 | A single-leaf tree maps its character to "". Below a merged root every code is non-empty. Every code is '0'/'1' only and leads to a leaf carrying its character. The keys are the leaf characters other than 257. |
| Coding.Encode | util.h:168-198 | The result is the input's codes in order followed by the pseudo-EOF's code, and `size` is its length. With `makeFile` one bit is written per code character, 0 exactly for '0'. Without it nothing is written. |
| Coding.Encoding | util.h:173-176 | Defines the codes of a text's characters, concatenated in order. `Coding.DecodeEncode` states that decoding them, followed by the pseudo-EOF's code, gives the text back. |
| Coding.ToBits | util.h:184-194 | Defines the bits `writeBit` writes for a string of '0'/'1': 0 for '0', 1 for anything else. `Coding.ToBitsAppend` states that it distributes over concatenation. |
| Coding.ToBitsAppend | util.h:184-194 | The bits of two code strings are the bits of each, one after the other. |
| Coding.PlainLeavesSymbols | util.h:223-225 | No leaf carries 257 exactly when 257 is not a leaf character. |
| Coding.ToChar | util.h:228 | Storing into a signed `char` keeps a value in range unchanged and otherwise keeps its low eight bits. |
| Coding.Decode | util.h:207-239 | The root must be a merged node, since the loop reads at least one bit. The returned string is the bit-by-bit walk from the root (`Coding.DecodeFrom`), and the output stream receives exactly that string. |
| Coding.DecodeFrom | util.h:212-231 | Defines the decode loop from a cursor. The pseudo-EOF stops it, another character is appended and the cursor returns to the root, and 257 keeps walking. `Coding.DecodeEncode` states that it inverts encoding. |
| Coding.DecodeNext | util.h:212-231 | One bit: at the pseudo-EOF the decoding ends with what was emitted. At another leaf the character is emitted and the cursor returns to the root. At a merged node the cursor moves on. |
| Coding.DecodePath | util.h:212-231 | The bits of a root-to-leaf path take the decoder to that leaf. It emits the leaf's character and restarts at the root, or stops for good at the pseudo-EOF. |
| Coding.DecodeEncode | util.h:168-239 | Decoding the encoding of a text, followed by any bits at all, gives the text back, when the root is merged and every character has a code. |
| Compression.Find | util.h:285-291 | `find` gives the first occurrence of the pattern, or npos when there is none. |
| Compression.FirstDot | util.h:291 | `find(".")` stops at the name's first '.'. |
| Compression.HufAtEnd | util.h:285 | In a name without ".huf", followed by ".huf", the first ".huf" is the appended one. |
| Compression.CompressedName | util.h:285-299 | `decompress(filename + ".huf")` reads the very file `compress(filename)` wrote, and writes the name with "_unc" before the first '.'. |
| Compression.DecompressNames | util.h:284-299 | Defines the names `decompress` derives: cut at the first ".huf", then split at the first '.'. `Compression.CompressedName` states the names it gives for a name `compress` wrote. |
| Compression.FrequencyKeysOf | util.h:59-71 | The keys of a text's map are the pseudo-EOF and the text's characters, each once. |
| Compression.FrequencyOf | util.h:250-252 | Defines the map `compress` counts into a new map. `Compression.FrequencyKeysOf` and `Compression.CompressReady` state its keys and the tree it gives. |
| Compression.KeyCount | util.h:99 | A text's map holds a key, and holds two keys or more exactly when the text is not empty. |
| Compression.CodesReady | util.h:175-178 | A tree whose leaves are a text's map keys gives a code to every character of the text and to the pseudo-EOF. |
| Compression.CompressReady | util.h:249-265 | For any text: the map holds a key, every character and the pseudo-EOF get a code, and the root is merged exactly when the text is not empty. |
| Compression.CompressedCode | util.h:249-270 | Defines the string `compress` returns: the text's codes, then the pseudo-EOF's code. `Compression.DecodesText` states that it decodes back to a non-empty text. |
| Compression.CompressedOf | util.h:249-270 | Defines the `.huf` file `compress` writes, a `HufFile` value: the printed map (`output << map`), then the code as bits (`encode` with `makeFile`). `Compression.DecompressRebuildsTree` states that its header reads back as the same map, and `Compression.DecodesText` that its bits decode to the text. |
| Compression.Compress | util.h:249-270 | The output name is `filename + ".huf"`. The returned string is the text's codes followed by the pseudo-EOF's code, under the code table of the tree of the text's own map. The file holds the printed map and then that string as bits. |
| Compression.Decompress | util.h:283-311 | The name split, header read, tree build and decode give the result `Compression.DecompressOf` defines. A name without '.', a header that `operator>>` cannot finish or whose `stoi` throws, a header with no pair, a leaf marked 257 and a single-leaf tree are reported as failures. Except for a 257 leaf that the bits never reach, the source throws, never ends, or has undefined behaviour in each of these. The `Compression.Decompress` line under "## Left out" lists where the model differs. |
| Compression.DecompressOf | util.h:283-311 | Defines what `decompress` returns for a file, or the failure it reports in place of undefined behaviour. `Compression.DecompressDecodes` and `Compression.RoundTrip` state its properties. |
| Compression.DecompressRebuildsTree | util.h:300-304 | The header read back gives the same table, and so the same tree, as the map `compress` printed. |
| Compression.DecompressDecodes | util.h:283-311 | Suppose the name splits, the header reads, and the tree it builds has a merged root and no leaf marked 257. Then `decompress` returns the decoding of the bits under the "_unc" name. |
| Compression.DecodesText | util.h:249-270 | A non-empty text's own map builds a tree with a merged root and no leaf marked 257. The bits `compress` writes decode with that tree back to the text. |
| Compression.RoundTrip | util.h:249-311 | For a non-empty text, decompressing what `compress(filename)` wrote, under the name it wrote it, gives the text back and writes it to the "_unc" name. |
| Compression.EmptyTextFails | util.h:212-223 | For the empty text, `compress` builds the single-leaf tree of the pseudo-EOF. Decompressing its file reaches the null child on the first bit, which is reported as `LeafRoot`. |

## Left out

- File and stream I/O: file contents are parameters and results. The file branch of `buildFrequencyMap` (util.h:44-58) reads characters just as the string branch does, so only the string branch is modelled.
- The bit stream library (`ofbitstream`/`ifbitstream`) is not part of this model. Bits are a `seq<Bit>`. Packing into bytes and padding are left out, and so are any bits the reader returns past the written ones.
- The ordered map `mymap` is not part of this model. The code table is a Dafny `map<int, string>`, and a later put of the same key overwrites an earlier one.
- Memory management: `freeTree`, the destructor and `createBucketArray` only free or allocate memory.
- Node identity: each chain is a sequence of entries rather than linked nodes, so pointer splicing and aliasing between nodes are not modelled. A Huffman tree is a value.
- `size()`/`nElems`: `put` never increments the count, so it is left out.
- Huffman.MinIndex: `std::priority_queue` does not fix which of several equal-count trees `top()` gives. The model takes the first one queued, and each new merged node is pushed at the end. The proved properties hold for this order. Pinning the library's heap order is left out.
- Huffman.MergeQueue: the second loop of `buildEncodingTree` is its own method, called by `Huffman.BuildEncodingTree` right after the first loop.
- Frequency.CountAllCounts: counts are unbounded integers. In the source, `map.get(c) + 1` past 2^31-1 is signed overflow, which is undefined behaviour. Reaching it needs a text of more than two billion characters.
- Huffman.MergeStep: merged counts are unbounded integers. In the source, `first->count + second->count` is an `int` sum, and its overflow is undefined behaviour. A `.huf` header can carry any `int` count, so `{65:2147483647, 66:2147483647, 256:1}` overflows on a merge. On a machine that wraps, the negative sum would change which trees merge next. A header whose counts overflow when merged is outside the model, and so are `Huffman.Join`, `Huffman.MergeAll` and `Compression.DecompressOf` for it.
- Header.ParseEntry: `stoi` is modelled on plain decimal text only (an optional '-' and digits). Any other text is a failure. Leading whitespace, trailing junk after digits, and out-of-range values are not modelled.
- HashMaps.HashMap.Parse: on text without a closing '}', the source reads EOF forever and never leaves its inner loop. The model reports `Unterminated` instead.
- HashMaps.HashMap.Parse: a throwing `stoi` is reported as `BadInteger`, and the pairs put before it stay.
- Coding.Decode: the source dereferences a null child when the root is a leaf and when a leaf carries 257. Its loop reads at least one bit, so a leaf root fails even with no bits left. The model requires a merged root and no leaf with 257. `Compression.Decompress` reports these cases as `LeafRoot` and `MarkedLeaf`. It also reports `EmptyMap` for a header with no pair, where `top()` of an empty queue is undefined.
- Coding.Decode: the bits are taken to end right after the last written bit. The source's `eof()` becomes true only after a read fails, and the reader returns the padding bits of the last byte. Neither is modelled. For what `compress` wrote, the loop stops at the pseudo-EOF before either matters.
- Compression.RoundTrip: holds only for a non-empty text. For the empty text the tree is a single leaf and the source follows a null child; `Compression.EmptyTextFails` shows the model reports `LeafRoot` there.
- Compression.Decompress: some failures are reported where the source would not fail, or would fail differently:
  - `MarkedLeaf` is reported for any leaf carrying 257, even one the bits never reach.
  - A header key whose hash overflows goes to the corrected bucket 8, not to the source's out-of-bounds `buckets[-8]`.
  - The header and the bits are separate fields of the file. In the source, `operator>>` and `readBit` read one stream.
- Hashing.HashFunctionAsWritten: three steps assume fixed behaviour. `input >> 16` on a negative `int` was implementation-defined before C++20; the model takes the arithmetic shift. The multiply at hashmap.cpp:156 is of two `int`s, so its overflow is undefined behaviour; the model wraps it at 2^32. `hash *= -1` on -2^31 is signed overflow; the model wraps it to -2^31.
- Compression.Decompress: `decompress` splits the name at its FIRST '.', as the code does. For "a.b.txt.huf" the code writes "a_unc.b.txt".

## Findings

| source | as written | input that shows it | evidently intended | confidence | as-written member | corrected member |
|---|---|---|---|---|---|---|
| hashmap.cpp:159-166 | `hash *= -1` on the mixed value -2^31 overflows and stays -2^31. `% 10` then gives -8, and `buckets[-8]` is read out of bounds. | key 1895428345 (also -1895428346) mixes to 0x80000000 | the hash is the magnitude of the mixed value, so the bucket is in [0, 10); for this key it is 8 | not executed | Hashing.OverflowingKeyLeavesBucketRange | Hashing.HashFunctionCorrectsOverflow |
