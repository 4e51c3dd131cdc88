# Roxy runtime: verified models

Roxy is a small language with its own runtime, compiler and language server.
This project models, in Dafny, the parts of it whose correctness rests on
invariants rather than on reading one function at a time, and proves what those
parts are for.

- **The runtime's map** (`RobinHood`, `Homes`, `AbstractMap`, `Counting`,
  `RoxyList`, `RoxyMap`, `MapRuns`, `MapStops`, with `Bits` and `Modular` for masks
  and remainders). A Robin Hood table over three parallel bucket arrays whose probe
  distance is one byte. Every operation answers as a finite map does, and the
  reference counts of string keys and of `ref` values move exactly as the entries
  do. The byte-sized distance can run out: the assertion in the displacement loop
  is an outcome of the model (`Trap`). It fails if and only if, in the buckets in
  force after any growth, some cyclic arc of m + 1 buckets is home to at least
  255 + m of the keys, the new one included (`Homes.Overfull`); that depends on the
  keys alone and not on the order in which they came. A map of 2^31 buckets that
  must grow is the other way to stop.
- **Runs over a whole heap** (`HeapModel`, `HeapRuns`, `HeapCounts`). Several maps
  and lists, the operations on them in any order, and owners outside them who make,
  retain and release strings and start and end borrows. An inserted key need only be alive at
  that moment, so a map may be the last owner of its keys. Any run is a run of an
  abstract heap, up to the first operation that stops at an assertion. Over it every
  count is the number of holders, and a string is alive exactly while somebody holds
  it, unless it once had as many holders as a count can tell.
  In both, keys are abstract: a hash and an equality, where the equality is an equivalence
  that respects the hash (`Lawful`). Equal keys need not be identical, so the map
  keeps the first of two equal keys, as the runtime does.
- **Hashing** (`Xxh3`, `Xxh3Stream`, `Xxh3Schedule`, `XxhLanes`, `XxhSchemes`,
  `XxhWritten`, `Mult64`). The
  streaming states of XXH3, XXH32 and XXH64 give the one-shot hash however the
  input is split. The schedule is proved for arbitrary mixing rounds; XXH32 and
  XXH64 are instances with their own.
- **JSON** (`JsonText`, `JsonParse`, `JsonGrammar`, `JsonDom`, `JsonReader`,
  `JsonWriter`, `JsonApi`, `JsonBytes`). The grammar of RFC 8259 as a datatype of concrete
  syntax with its meaning; a functional parser that accepts exactly that grammar;
  the parser that decodes in place over its own input and feeds a three-stack tree
  builder; the comma-tracking writer; and the round trip.
- **Module discovery** (`Discovery`), **precedence climbing** (`Precedence`,
  `PrecedenceGrammar`) and
  **generic type arguments** (`TypeArgs`) of the front end.
- **The formatter** (`FormatSpec`, `Format`, `FormatText`), **the small-string class**
  (`SmallString`, `StringRuns`) and **the bump allocator** (`BumpAllocator`).

Where a method and its specification share a definition, a module beside them says
what the definition comes to without using it: `MapStops`, `HeapCounts`,
`Xxh3Schedule`, `XxhWritten`, `JsonBytes`, `PrecedenceGrammar` and `FormatText` write
it out in hashes, counts, bytes, tokens and characters.

Code that changes state is a class or a method with the source's fields, loops
and branches, proved against functions on plain values; the lemmas are about those
functions. Where a source method is long, the model splits it into several methods
with the same steps in the same order.

In one place the documentation and the code of the original differ, and the model
follows the code: `format_to` is documented to return the full length, but with a
buffer size of 0 it returns 0 (`Format.FmtImpl`). The JSON parser departs from
RFC 8259 in one respect and the model with it: inside a string it takes any byte
from 0x80 on, without the UTF-8 check that section 8.1 asks of exchanged texts, and
`\u` escapes of surrogates must form valid pairs.

## Model

| member | source | states |
|---|---|---|
| Bits.MaskIsMod | src/roxy/rt/roxy_rt.cpp:1007-1011 | on a power-of-two capacity, `hash & (capacity - 1)` is the remainder, for every hash |
| RobinHood.EarlyExit | src/roxy/rt/roxy_rt.cpp:1217-1222 | when a probe stops at an empty or poorer bucket, no equal key lies at or past that bucket anywhere in the table |
| RobinHood.ProbeStep | src/roxy/rt/roxy_rt.cpp:1217-1228 | a probe that has not stopped is still before the empty bucket, so it ends and never comes round |
| RobinHood.PutWellFormed | src/roxy/rt/roxy_rt.cpp:1033-1061 | placing the carried entry in an empty or poorer bucket keeps every stored distance right, distances rising by at most one per bucket, and keys distinct |
| RobinHood.ScanStep | src/roxy/rt/roxy_rt.cpp:1047-1064 | what the displacement loop carries is the smaller of two distances of the table it started from, and it reaches 255 only at a bucket that blocks the insertion |
| RobinHood.ScanDone | src/roxy/rt/roxy_rt.cpp:1032-1046 | an insertion that reaches an empty bucket met no blocking bucket, and the table has none |
| RobinHood.GapIsMod | src/roxy/rt/roxy_rt.cpp:1047-1063 | the distance that a stored entry keeps is the remainder of its bucket minus its home |
| RobinHood.SaturatedIsLong | src/roxy/rt/roxy_rt.cpp:1064 | a table with an entry at the largest distance holds at least 254 entries |
| RobinHood.ShiftStep | src/roxy/rt/roxy_rt.cpp:1334-1346 | moving the next entry back one bucket keeps the table well formed around the gap, which moves on |
| RobinHood.ShiftEnd | src/roxy/rt/roxy_rt.cpp:1336-1341 | clearing the last bucket of the shift restores the whole table invariant |
| RobinHood.ShiftEntries | src/roxy/rt/roxy_rt.cpp:1342-1345 | a backward shift loses no surviving entry and duplicates none |
| RobinHood.EntryReplaced | src/roxy/rt/roxy_rt.cpp:1047-1061 | a swap exchanges exactly the carried and the stored entry in the bag of entries |
| RobinHood.SomeEmpty | src/roxy/rt/roxy_rt.cpp:1285-1287 | fewer entries than buckets leave an empty bucket |
| Homes.NotOverfull | src/roxy/rt/roxy_rt.cpp:1005-1066 | in any well-formed table with byte distances, no arc of m + 1 buckets is home to 255 + m of the stored keys |
| Homes.StuckOverfull | src/roxy/rt/roxy_rt.cpp:1047-1064 | when an entry would have to move past the largest distance, some arc is home to too many of the stored keys and the carried one |
| Homes.OverfullIsLarge | src/roxy/rt/roxy_rt.cpp:1064 | fewer than 255 keys are never too many, whatever their hashes |
| AbstractMap.MapLaws | src/roxy/rt/roxy_rt.cpp:1250-1347 | the abstract insert and remove are map update and deletion up to key equality: lookups after each, for every other key |
| AbstractMap.PutNew | src/roxy/rt/roxy_rt.cpp:1289-1295 | adding an entry under a new key to the bag of entries is map insertion |
| AbstractMap.PutOver | src/roxy/rt/roxy_rt.cpp:1270-1278 | exchanging the value of a stored entry is map replacement under the stored key |
| AbstractMap.DropFound | src/roxy/rt/roxy_rt.cpp:1325-1347 | taking the located entry out of the bag is map deletion |
| Counting.RetainMoves | src/roxy/rt/roxy_rt.cpp:349-355 | retaining a live string raises its count by one holder; it becomes immortal only at the all-ones count, and no other string is touched |
| Counting.NewMoves | src/roxy/rt/roxy_rt.cpp:373-435 | a new dynamic string has the one holder it was made for, and no other string is touched |
| Counting.ReleaseMoves | src/roxy/rt/roxy_rt.cpp:357-369 | releasing a held string spends one count that was there to spend, frees the string with its last count, and makes none immortal |
| Counting.BalancedDetermines | src/roxy/rt/roxy_rt.cpp:297-369 | a balanced change leaves no choice: the holders before and after settle which strings are alive, which are immortal, and every count |
| Counting.RefDecMoves | src/roxy/rt/roxy_rt.cpp:303-319 | ending a held borrow never meets a zero count |
| Counting.ExchangeMoves | src/roxy/rt/roxy_rt.cpp:1271-1275 | replacing a `ref` value moves one borrow from the old object to the new, also when they are the same |
| Counting.Heap.StringRelease | src/roxy/rt/roxy_rt.cpp:357-369 | the in-place release is the specified change of the counts: null and immortal strings are left alone, a last count frees |
| Counting.Heap.RefDec | src/roxy/rt/roxy_rt.cpp:303-319 | the in-place decrement, and that the trap channel is raised exactly by a decrement at zero |
| RoxyList.RoxyList.Push | src/roxy/rt/roxy_rt.cpp:685-708 | appends exactly one element; refuses exactly when an element is borrowed; doubles a full buffer from 8 on, and stops exactly when the doubled capacity would wrap |
| RoxyList.RoxyList.Pop | src/roxy/rt/roxy_rt.cpp:710-724 | takes off the last element and nothing else; refused when an element is borrowed |
| RoxyList.RoxyList.Copy | src/roxy/rt/roxy_rt.cpp:745-778 | an equal list with its own buffer; each `ref` element's object gains exactly one borrow per element |
| RoxyMap.RoxyMap.constructor | src/roxy/rt/roxy_rt.cpp:1111-1127 | an empty map with the least power of two of buckets that is at least 8 and at least the request |
| RoxyMap.RoxyMap.EmptyBucket | src/roxy/rt/roxy_rt.cpp:1284-1287 | the 4/5 load rule leaves an empty bucket in every valid table |
| RoxyMap.RoxyMap.Locate | src/roxy/rt/roxy_rt.cpp:1207-1229 | the probe ends with an occupied bucket holding an equal key, or with no equal key in the whole table |
| RoxyMap.RoxyMap.Contains | src/roxy/rt/roxy_rt.cpp:1141-1163 | answers as the finite map |
| RoxyMap.RoxyMap.Get | src/roxy/rt/roxy_rt.cpp:1231-1243 | returns the finite map's value, or nothing when there is none; the assertion fails exactly on the empty map |
| RoxyMap.RoxyMap.GetOr | src/roxy/rt/roxy_rt.cpp:1245-1248 | returns the finite map's value, or the default |
| RoxyMap.RoxyMap.Unpin | src/roxy/rt/roxy_rt.cpp:852-858 | ends one borrow; the assertion fails exactly when there is none, and then nothing changes |
| RoxyMap.RoxyMap.InsertInternal | src/roxy/rt/roxy_rt.cpp:1005-1066 | places the entry keeping the invariant and every other entry; the distance assertion fails if and only if the keys and the new one are too many for some arc of buckets (`MapStops.OverfullMeans` says so in hashes), which is when an unbroken run leads from the key's home to an entry at distance 254 that would have to move |
| RoxyMap.RoxyMap.Grow | src/roxy/rt/roxy_rt.cpp:1068-1092 | doubles the buckets and keeps every entry and the length; it stops if and only if the keys are too many for the doubled buckets, or the capacity wraps |
| RoxyMap.RoxyMap.Insert | src/roxy/rt/roxy_rt.cpp:1250-1296 | map update under the stored key, counts moved exactly as the entries, refusal exactly when a value is borrowed; it stops if and only if the key is new and there is no room for it (`MapStops.InsertStops` says so in hashes and capacities) |
| RoxyMap.RoxyMap.Remove | src/roxy/rt/roxy_rt.cpp:1298-1347 | map deletion, true exactly when the key was present; the stored key and value are released and nothing else |
| RoxyMap.RoxyMap.Clear | src/roxy/rt/roxy_rt.cpp:1349-1373 | the empty map; one count released for every key and value held |
| RoxyMap.RoxyMap.Keys | src/roxy/rt/roxy_rt.cpp:1375-1396 | a fresh list of the keys in bucket order, each retained once for the list |
| RoxyMap.RoxyMap.Values | src/roxy/rt/roxy_rt.cpp:1398-1420 | a fresh list of the values in the same order, each `ref` borrowed once, and the list tagged as holding borrows |
| RoxyMap.RoxyMap.ListingEnumerates | src/roxy/rt/roxy_rt.cpp:1375-1420 | the bucket order lists every entry of the finite map exactly once, and the length is its size |
| RoxyMap.RoxyMap.Copy | src/roxy/rt/roxy_rt.cpp:1422-1466 | an equal map with its own arrays, and one more count for every key and value held |
| RoxyMap.RoxyMap.Iterate | src/roxy/rt/roxy_rt.cpp:1481-1490 | below 2^31 buckets, stepping by next-occupied visits exactly that listing; at 2^31 the signed bound is negative and the walk visits nothing |
| MapRuns.Step | src/roxy/rt/roxy_rt.cpp:852-1373 | one operation answers as the finite map and leaves the map it says, with the counts moved as the entries; it stops if and only if an insertion has no room, a plain lookup meets an empty map, or a borrow ends that never began |
| MapRuns.SameHashOverfull | src/roxy/rt/roxy_rt.cpp:883-931 | keys that all hash alike are too many, in any number of buckets, exactly from 255 on |
| MapRuns.TrapReached | src/roxy/rt/roxy_rt.cpp:1250-1296 | under a constant hash function, which a struct key may have, 254 insertions into an empty map succeed and the next one stops |
| MapStops.OverfullMeans | src/roxy/rt/roxy_rt.cpp:1005-1066 | keys are too many for a number of buckets exactly when 255 + m of their low 32-bit hash words lie within m of some point, modulo that number |
| MapStops.RoomMeans | src/roxy/rt/roxy_rt.cpp:1284-1287 | below 2^30 buckets the capacity stays exactly while 5 * (length + 1) <= 4 * capacity, and doubles otherwise; the first is 8; from 2^30 on every insertion doubles, and 2^31 is the end |
| MapStops.InsertStops | src/roxy/rt/roxy_rt.cpp:1250-1296 | an insertion stops exactly when nothing is borrowed, no stored key is equal, and the map has 2^31 buckets or, at the capacity then in force, too many low hash words lie close together |
| MapStops.PlainMap | src/roxy/rt/roxy_rt.cpp:1207-1347 | when equal keys are identical, lookup, insertion and removal are those of the plain finite map |
| MapStops.PlainSteps | src/roxy/rt/roxy_rt.cpp:1141-1373 | and so is what every operation makes of the map |
| MapStops.PlainAnswers | src/roxy/rt/roxy_rt.cpp:1139-1373 | and what it answers |
| MapStops.AscendingRun | src/roxy/rt/roxy_rt.cpp:1250-1296 | keys that are their own hash, inserted as 0, 1, 2 and so on, never come too close: 429496731 insertions succeed and the next one meets 2^31 buckets |
| MapStops.ListedAscending | src/roxy/rt/roxy_rt.cpp:1375-1396 | such keys below the capacity are in the buckets of their own numbers, and listed in ascending order |
| HeapModel.Framed | src/roxy/rt/roxy_rt.cpp:297-369 | holders that a change of counts does not concern stay paid for, so a change that is balanced for one container is balanced for the heap |
| HeapModel.ExactKept | src/roxy/rt/roxy_rt.cpp:297-369 | over any balanced change, counts that equal the numbers of holders go on doing so, strings become immortal exactly at 2^32 - 1 holders, and any other string is alive exactly while it is held |
| HeapModel.RunExact | src/roxy/rt/roxy_rt.cpp:297-1466 | over any run that starts with exact counts, every count is the number of holders at every point; a string becomes immortal exactly when it has had 2^32 - 1 holders at some point, and any other is alive exactly while somebody holds it |
| HeapModel.RunConserves | src/roxy/rt/roxy_rt.cpp:297-1466 | over any run at all, every count less its holders is as at the start, unless the string became immortal, which took enough more holders at some point |
| HeapCounts.MapHolders | src/roxy/rt/roxy_rt.cpp:1190-1205 | a map holds a string once for each key that points to it, and an object once for each value |
| HeapCounts.CountsCounted | src/roxy/rt/roxy_rt.cpp:297-1466 | at every point of a run that starts with exact counts, a count is the number of map entries and list elements that point to it and of owners outside, counted out; a string is alive exactly while that is not zero |
| HeapRuns.World.Do | src/roxy/rt/roxy_rt.cpp:685-1466 | one operation on any of several maps and lists, or by an outside owner, is the step of the abstract heap, stopping exactly when that stops; afterwards each container holds exactly the strings and objects of its entries or elements, all alive and paid for |
| HeapRuns.World.Run | src/roxy/rt/roxy_rt.cpp:297-1466 | any sequence of insertions, removals, lookups, clears, copies, key and value lists, list pushes and copies, and of strings and borrows made and given up outside, is a run of the abstract heap up to the first operation that stops; at every point each container holds exactly the strings and objects of its entries or elements, all that is held is alive and paid for, and no decrement meets zero |
| Xxh3.AbsorbMore | include/roxy/core/xxhash.h:5528-5559 | consuming m stripes and then n is consuming m + n, with scrambles at the same points |
| Xxh3.RunIsAbsorb | include/roxy/core/xxhash.h:5528-5559 | a run within a block is the plain accumulation, and scrambles exactly when it fills the block |
| Xxh3.HashLong | include/roxy/core/xxhash.h:5528-5615 | the block loop, the partial block and the last stripe compute the stripe-by-stripe definition of the hash, which `Xxh3Schedule.HashIsWritten` writes out |
| Xxh3.ConsumeStripes | include/roxy/core/xxhash.h:5938-5972 | stripes that cross block boundaries are consumed as the definition has it, from any position in a block |
| Xxh3Stream.State.Update | include/roxy/core/xxhash.h:5982-6059 | any update appends its input to what the state stands for |
| Xxh3Stream.State.Digest | include/roxy/core/xxhash.h:6070-6123 | the digest of a state is the hash of everything it was given, also when the last stripe begins in the buffer's end, unless the length has wrapped to that of a short input, and what it is then |
| Xxh3Stream.StreamEqualsOneShot | include/roxy/core/xxhash.h:5982-6123 | for every split of any input and every long enough secret, streaming and one-shot XXH3 agree, unless the wrapped length is that of a short input |
| Xxh3Schedule.HashIsWritten | include/roxy/core/xxhash.h:5528-5615 | for any rounds, the hash is that of the rounds in order: stripe i with the window at 8 * (i mod n) of the secret, a scramble with its last 64 bytes after every n stripes, the last 64 bytes of the input with the window 71 bytes before the secret's end, and the merge with bytes 11 to 74 and the length times the prime |
| Xxh3Schedule.EveryByte | include/roxy/core/xxhash.h:5528-5559 | every byte of a long input is in a stripe of some round |
| Xxh3Schedule.Hashed | include/roxy/core/xxhash.h:5982-6123 | streaming, for any split below 2^64 bytes, and one-shot give that written-out hash |
| XxhLanes.Scheme.Split | include/roxy/core/xxhash.h:2758-2789 | whole stripes in front of more input are absorbed first, and the tail is that of the rest |
| XxhLanes.State.Update | include/roxy/core/xxhash.h:2846-2897 | appends its input; the sticky flag stays exact and the length stays the length modulo a word, also after it wraps |
| XxhLanes.State.Digest32 | include/roxy/core/xxhash.h:2901-2917 | the 32-bit digest is the one-shot hash of everything given, whatever its length |
| XxhLanes.State.Digest64 | include/roxy/core/xxhash.h:3339-3356 | the 64-bit digest is the one-shot hash unless the length has wrapped to less than a stripe, and what it is then |
| XxhLanes.LengthStep | include/roxy/core/xxhash.h:2857-2858 | after a wrapping addition the large-input test still says whether a stripe's worth of input has ever been seen |
| XxhLanes.StreamEqualsOneShot | include/roxy/core/xxhash.h:2846-2917 | for every split of any input and any seed, streaming and one-shot agree: the 32-bit digest always, the 64-bit digest unless the wrapped length hides the stripes |
| XxhSchemes.Xxh32 | include/roxy/core/xxhash.h:2560-2789 | XXH32 with its primes and rounds is such a scheme, of 4-byte words and 16-byte stripes modulo 2^32 |
| XxhSchemes.Xxh64 | include/roxy/core/xxhash.h:3093-3229 | XXH64 with its primes and rounds is such a scheme, of 8-byte words and 32-byte stripes modulo 2^64 |
| XxhSchemes.Streamed | include/roxy/core/xxhash.h:2846-3356 | streaming XXH32 gives the one-shot hash of any input, and streaming XXH64 of any input below 2^64 bytes |
| XxhWritten.HashIsWritten | include/roxy/core/xxhash.h:2758-2789 | the hash folds each lane over its own words from seeds made of the primes, converges them if there was a whole stripe, adds the length, and finishes with the bytes that are left |
| XxhWritten.Words32 | include/roxy/core/xxhash.h:2773-2778 | the words of XXH32's lanes are four bytes of every sixteen |
| XxhWritten.Words64 | include/roxy/core/xxhash.h:3211-3216 | the words of XXH64's lanes are eight bytes of every thirty-two |
| XxhWritten.RoundsAre | include/roxy/core/xxhash.h:2585-2588 | the rounds multiply by the second prime, rotate by 13 bits of 32 or 31 of 64, and multiply by the first |
| XxhWritten.ConvergeIs | include/roxy/core/xxhash.h:2780-2781 | XXH32's lanes are rotated by 1, 7, 12 and 18 bits and summed |
| XxhWritten.Primes | include/roxy/core/xxhash.h:2560-2564 | the primes are the published ones |
| Mult64.Mult64To128 | include/roxy/core/xxhash.h:4147-4161 | high * 2^64 + low is the product for all inputs, and no partial sum leaves 64 bits |
| JsonText.Utf8Decodes | src/roxy/core/json.cpp:201-221 | the encoding of every scalar value is decoded to it by section 3 of RFC 3629 |
| JsonBytes.Utf8Unique | src/roxy/core/json.cpp:201-221 | a code point has only one well-formed encoding |
| JsonBytes.PairRead | src/roxy/core/json.cpp:132-158 | the two escapes of the UTF-16 form of any character from U+10000 on, in digits of either case, are read as bytes that decode to it |
| JsonBytes.UnicodeRead | src/roxy/core/json.cpp:132-158 | one escape of any other character likewise |
| JsonBytes.LoneSurrogate | src/roxy/core/json.cpp:137-154 | a surrogate on its own is refused |
| JsonBytes.Emoji | src/roxy/core/json.cpp:132-158 | the escapes d83d and DE00 are read as F0 9F 98 80 |
| JsonBytes.EscapeRead | src/roxy/core/json.cpp:107-163 | which letters are short escapes, and what each is read as |
| JsonBytes.ByteRead | src/roxy/core/json.cpp:94-168 | any other byte from 0x20 on stands for itself, a lower one is refused, and a quotation mark ends the string |
| JsonBytes.SpaceRead | src/roxy/core/json.cpp:46-56 | space, tab, carriage return and line feed are skipped around a value, and no other byte is |
| JsonBytes.NamesRead | include/roxy/core/json.hpp:229-287 | the three names are read as their values |
| JsonBytes.NumberRead | include/roxy/core/json.hpp:377-449 | a number without a point and an exponent is the integer its digits spell, kept within 64 bits; any other stands for the double of its text |
| JsonBytes.Refused | include/roxy/core/json.hpp:202-449 | numbers with a leading zero or without digits where there must be some, empty and unfinished texts, commas too many, and anything behind a value are refused |
| JsonGrammar.ValueWritten | include/roxy/core/json.hpp:229-287 | every value of the grammar, with any white space before it, is read as what it means |
| JsonGrammar.ValueRead | include/roxy/core/json.hpp:229-287 | every accepted value is a value of the grammar, and the result is its meaning |
| JsonGrammar.AcceptsExactly | include/roxy/core/json.hpp:202-227 | the parser accepts a text with a result if and only if the grammar of RFC 8259 gives the text that meaning |
| JsonReader.Parser.ParseString | src/roxy/core/json.cpp:73-171 | the in-place decoding yields the functional decoding (which `JsonBytes` gives byte by byte), the write position never passes the read position, and nothing before the string changes |
| JsonReader.Parser.EncodeUtf8 | src/roxy/core/json.cpp:201-221 | writes exactly the UTF-8 of a code point, and only there |
| JsonReader.Parser.ConvertInt | include/roxy/core/json.hpp:431-449 | the temporary terminator bounds the conversion to the number and is undone |
| JsonReader.Parser.ParseValue | include/roxy/core/json.hpp:229-287 | agrees with the functional parser on the text as it was; the finished node stands for the value, the builder's stacks are as before plus one value, and earlier bytes are unchanged |
| JsonReader.Parser.Parse | include/roxy/core/json.hpp:202-227 | succeeds exactly on what the functional parser accepts, and the tree resolves over the final buffer to its result |
| JsonDom.ResolveSame | include/roxy/core/json.hpp:484-492 | a node whose views end before a point means the same over any two buffers that agree up to it |
| JsonDom.NodesMean | include/roxy/core/json.hpp:462-546 | what each kind of node stands for, element by element and member by member |
| JsonDom.Dom.OnEndArray | include/roxy/core/json.hpp:529-546 | the values above the saved base become one array, and the stacks return to where the array began |
| JsonDom.Dom.OnEndObject | include/roxy/core/json.hpp:499-522 | the same for objects, pairing each key with its value in order |
| JsonWriter.CompactMeans | src/roxy/core/json.cpp:389-422 | the compact syntax of a tree is in the grammar and means the tree |
| JsonBytes.ByteWritten | src/roxy/core/json.cpp:242-281 | how each byte of a string is written |
| JsonBytes.StringWritten | src/roxy/core/json.cpp:242-281 | a string is written in quotation marks, byte after byte |
| JsonBytes.IntWritten | src/roxy/core/json.cpp:297-302 | an integer is written in decimal without leading zeros, after a minus sign if it is negative |
| JsonBytes.NamesWritten | src/roxy/core/json.cpp:283-295 | null, true and false are written as such |
| JsonBytes.ContainerWritten | src/roxy/core/json.cpp:389-422 | arrays and objects are written in their brackets, with commas between the parts and no white space |
| JsonBytes.MembersWritten | src/roxy/core/json.cpp:389-422 | a member is its key, a colon and its value |
| JsonWriter.Writer.WriteEscaped | src/roxy/core/json.cpp:242-281 | writes the quoted text of a byte string |
| JsonWriter.Writer.WriteValue | src/roxy/core/json.cpp:389-422 | writes one tree after whatever separator is due and leaves the level stack as after one value |
| JsonWriter.RoundTrip | src/roxy/core/json.cpp:453-462 | for every tree without doubles, the written text parses to that tree |
| JsonApi.ReadText | src/roxy/core/json.cpp:426-451 | reading in place succeeds on the texts of the grammar and no others, with the tree the text denoted |
| JsonApi.WriteThenRead | src/roxy/core/json.cpp:426-462 | writing a tree and reading the text back in place gives the tree |
| Discovery.Discoverer.Discover | src/roxy.cpp:246-290 | terminates on every import graph; what it appends is new, distinct, readable, reached from the module, and after its imports unless one closes a cycle |
| Discovery.Discoverer.Run | src/roxy.cpp:246-333 | succeeds exactly when every reachable module can be read; the order holds each reachable module once, main last, and has imports first if and only if the reachable graph has no cycle |
| Discovery.Discoverer.ReachedLeast | src/roxy.cpp:246-290 | the modules reached are the least set that holds the main module and what the import lists of its members name |
| Discovery.Discoverer.OrderedAcyclic | src/roxy.cpp:320-333 | an order with imports first rules out any reachable cycle |
| Precedence.ParseSound | src/roxy/lsp/lsp_parser.cpp:1325-1348 | for any tokens, the tree yields exactly the tokens taken, left operators bind at least as tightly and right ones strictly tighter, and the parser stops at the first operator below the minimum |
| Precedence.TreeParsed | src/roxy/lsp/lsp_parser.cpp:1325-1364 | every tree of that shape is what its own tokens parse to |
| Precedence.UniqueTree | src/roxy/lsp/lsp_parser.cpp:1325-1364 | two trees of that shape with the same tokens are the same |
| Precedence.SentenceParsed | src/roxy/lsp/lsp_parser.cpp:1325-1364 | a well-formed expression is taken whole, without an error node, into the one tree that yields it |
| Precedence.NextMinTighter | src/roxy/lsp/lsp_parser.cpp:15-56 | every operator of the table is left-associative, so what follows one must bind strictly tighter |
| Precedence.Parser.ParsePrecedence | src/roxy/lsp/lsp_parser.cpp:1325-1348 | the loop computes that parse of the remaining tokens, at any minimum |
| PrecedenceGrammar.ParsedExactly | src/roxy/lsp/lsp_parser.cpp:15-56 | tokens are parsed to a tree without error nodes exactly when the ten-level expression grammar, one rule for each level with its own operators, derives the tree with those tokens and no operator follows |
| PrecedenceGrammar.SentencesDerived | src/roxy/lsp/lsp_parser.cpp:1325-1364 | the token sequences taken whole are those that the grammar derives |
| PrecedenceGrammar.ParseExpression | src/roxy/lsp/lsp_parser.cpp:1325-1364 | parsing finds the one derivation of a prefix of the tokens that no operator follows, when there is one, and otherwise a tree with an error node |
| TypeArgs.TypeSame | src/roxy/lsp/lsp_parser.cpp:1703-1721 | any stream, well-formed or not, parses as the stream with its fused closers taken apart, and leaves the same tokens |
| TypeArgs.AnyPairing | src/roxy/lsp/lsp_parser.cpp:1752-1766 | every type expression is parsed back from its tokens under any pairing of adjacent closers, taking exactly them |
| TypeArgs.ParsedExactly | src/roxy/lsp/lsp_parser.cpp:1703-1766 | a stream parses to a given type if and only if its expansion begins with that type's tokens and the type ends there |
| TypeArgs.ModifiersRead | src/roxy/lsp/lsp_parser.cpp:1703-1721 | each of the three modifiers is read back in front of a name, and no other token is taken for one |
| TypeArgs.NestedRead | src/roxy/lsp/lsp_parser.cpp:1703-1766 | a name with two arguments, the second with a modifier and an argument of its own, is read back token by token, both closers in one |
| TypeArgs.FusedToEqual | src/roxy/lsp/lsp_parser.cpp:1843-1880 | a type whose last closer is fused to `=` is not parsed back |
| TypeArgs.Parser.ConsumeClosingAngle | src/roxy/lsp/lsp_parser.cpp:1837-1885 | takes one closer and leaves the other half of a fused token in place |
| TypeArgs.Parser.TryGenericArgs | src/roxy/lsp/lsp_parser.cpp:1768-1835 | accepts exactly a closed list followed by a call or a literal, and otherwise restores the parser |
| FormatSpec.ParseFormatSpec | include/roxy/core/format.hpp:30-71 | the pointer walk reads a specification, with the width kept to 32 bits |
| FormatSpec.SpecReadBack | include/roxy/core/format.hpp:30-71 | every specification is read back from each of its texts, with or without a sign and a zero flag, which asks for zeros unless an alignment was given |
| FormatSpec.NumeralDenotes | include/roxy/core/format.hpp:139-170 | a numeral in any base from 2 to 16 denotes its number, in digits of that base and without a leading zero |
| FormatSpec.PaddedKeeps | include/roxy/core/format.hpp:90-115 | padding reaches exactly the width asked for and keeps the value whole around one run of fill: behind it under `<`, otherwise in front of it, but zeros behind its sign |
| FormatText.DocumentedSpecs | include/roxy/core/format.hpp:30-71 | what the documented forms of specification are read as |
| FormatText.SpecApplies | include/roxy/core/format.hpp:279-309 | a placeholder applies its specification as written, with or without a sign and a zero flag |
| FormatText.SignedShown | include/roxy/core/format.hpp:138-155 | a signed number is written as the decimal digits of its size, after a minus sign exactly when it is negative and a plus sign exactly when asked for and it is not |
| FormatText.UnsignedShown | include/roxy/core/format.hpp:157-172 | an unsigned number likewise |
| FormatText.HexShown | include/roxy/core/format.hpp:138-172 | in base 16 a number is written modulo 2^64, in the case asked for |
| FormatText.LiteralShown | include/roxy/core/format.hpp:127-136 | truth values, characters and texts come out literally, and a null text as (null) |
| Format.Sink.ApplySpec | include/roxy/core/format.hpp:90-115 | writes the padded value, of which the buffer keeps what fits |
| Format.FmtImpl | include/roxy/core/format.hpp:270-326 | for every size of at least 1 the result is the full length of the output (which `FormatText` gives) as a signed 32-bit number, the buffer holds the last character written at each position, a terminator and its old bytes, and the arguments taken are as many as there are placeholders or arguments |
| Format.FittedPrefix | include/roxy/core/format.hpp:76-88 | below 2^32 characters the buffer holds the prefix that fits, a terminator and its old bytes |
| Format.CountPlaceholders | include/roxy/core/format.hpp:333-362 | counts exactly the placeholders that formatting takes an argument for |
| Format.Format | include/roxy/core/format.hpp:418-428 | probing and refilling gives the whole output exactly below 2^32 characters, also when its length comes back negative |
| Format.EscapedText | include/roxy/core/format.hpp:279-317 | text with doubled braces comes out as it was and takes no argument |
| FormatText.TextThen | include/roxy/core/format.hpp:279-317 | text with doubled braces is written as it was in front of whatever follows |
| FormatText.HoleThen | include/roxy/core/format.hpp:284-290 | placeholders take the arguments in order, and write nothing when there is none left |
| FormatText.SpecThen | include/roxy/core/format.hpp:291-309 | so do those with a specification |
| FormatText.LoneBraces | include/roxy/core/format.hpp:303-317 | a brace on its own, or one that opens a specification without an end, is written as it is |
| SmallString.TaggedString.Grow | src/roxy/core/string.cpp:31-64 | keeps the text, makes the room asked for or twice the old one, at least 32, and exchanges one memory block for another |
| SmallString.TaggedString.PushBack | src/roxy/core/string.cpp:177-192 | appends one character across the change of layout, NUL after the end, no block leaked or freed twice |
| SmallString.TaggedString.Append | src/roxy/core/string.cpp:194-210 | appends the text across the change of layout |
| SmallString.TaggedString.Resize | src/roxy/core/string.cpp:224-251 | truncates or fills; short text goes back inline and the block is freed after it was read |
| SmallString.TaggedString.Copy | src/roxy/core/string.cpp:109-115 | an equal string that owns its own memory |
| SmallString.TaggedString.AssignCopy | src/roxy/core/string.cpp:127-137 | equal afterwards, also onto itself; memory stays separate |
| SmallString.TaggedString.AssignMove | src/roxy/core/string.cpp:139-147 | takes over text and memory and leaves the other empty |
| SmallString.TaggedString.Substr | src/roxy/core/string.cpp:312-317 | the characters asked for, clipped to the end |
| SmallString.TaggedString.Equals | src/roxy/core/string.cpp:255-262 | two strings are equal exactly when their texts are, in either layout |
| SmallString.Run | src/roxy/core/string.cpp:163-251 | any run of edits of one string does to the text what it does to a sequence, and leaves at most the string's own block live |
| StringRuns.Pool.Do | src/roxy/core/string.cpp:109-251 | one operation on a pool of strings changes the texts as it would sequences of characters; no block is shared, leaked or freed twice |
| StringRuns.Pool.Run | src/roxy/core/string.cpp:109-251 | any sequence of edits, copies, moves, copy and move assignments, onto themselves too, and destructions does to the texts what it does to sequences, and the live blocks are the unrelated ones and exactly one string's each |
| BumpAllocator.AlignUpIs | include/roxy/core/bump_allocator.hpp:44-47 | the masked address is a multiple of the alignment less than one alignment up |
| BumpAllocator.AlignUpIsLeast | include/roxy/core/bump_allocator.hpp:44-47 | and no lower aligned address would do |
| BumpAllocator.BehindFree | include/roxy/core/bump_allocator.hpp:40-72 | the free part of the newest chunk meets no block, in retired chunks either |
| BumpAllocator.Bump.AllocBytes | include/roxy/core/bump_allocator.hpp:40-72 | over any run, a returned block is aligned, inside one chunk, and disjoint from every earlier block; a new chunk is taken exactly when the block does not fit, twice as large as the last or as large as the block and its alignment need, and retired chunks do not move |

## Left out

- Counting.Heap.RefInc: borrow counts are unbounded, so 2^32 borrows of one object, and the pin counters' own width, are not modelled.
- HeapRuns.World.Run: maps of one key and value type in one heap. A list of counted keys is not copied in a run, because the runtime's list copy takes no counts for strings; the retains are emitted by the compiler.
- XxhLanes.State.Digest64: when the length has wrapped to less than a stripe the digest is that of the seed and the tail, as proved, and not the one-shot hash, because the source decides by the length itself.
- JsonWriter.RoundTrip: trees with doubles are left out, because `%.17g` writes 1.0 as an integer; a double read is kept as its text.
- SmallString.TaggedString.Grow: sizes of 2^32 - 1, where the allocation size wraps, are excluded by precondition; allocation failure is left out.
- BumpAllocator.Bump.AllocBytes: the address the system gives a new chunk is a parameter, and addresses and sizes that would wrap 64 bits are excluded by precondition.
- Format.FmtImpl: floats and pointers as arguments are left out, and single texts of 2^32 characters or more.
- Format.Format: a length of 2^32 - 1, for which the second buffer's size wraps, and which the string class cannot hold.
- Stops are those of a build with assertions; the map after a failed one in a build without them; NaN float keys and null string keys, which no lawful equality covers; the hash functions themselves.
- `roxy_map_delete`, `roxy_list_delete`: they free buffers only, and the release of elements is emitted by the compiler.
- The two scratch buffers of the displacement loop and the slot widths of keys and values: an entry is one value. During growth the old buckets are a snapshot.
- One probe, `Locate`, stands for the four copies of the lookup loop in the source.
- XXH3's short inputs, seeded and 128-bit variants, secrets and SIMD code: short inputs go to one uninterpreted function, as do its rounds.
- A number that ends the buffer is taken to end there; the source's conversion relies on a byte after the buffer that does not continue it.
- Lengths of JSON texts are unbounded: the source's `m_current + 4 > m_length` is 32 bits wide and wraps near 4 GB.
- JSON error messages and positions, event handlers other than the tree builder, the key-value conveniences of the writer, and nesting beyond the machine stack.
- Reading files and scanning sources for imports: discovery is given the import lists. Command-line handling and registration with the compiler are left out.
- The rest of the language server's parser: an operand is one token for the precedence model, so primary and postfix expressions, ternaries, assignments and statements are outside it; text ranges and diagnostics too.
- Arguments that point into the string's own memory: assignment from a view of itself, which frees before it reads, and an append of its own text across a growth. Arguments are values.
- Search in strings, comparison with C strings, and hashing of strings.
- The slab allocator, interpreter, compiler passes, lexer, global symbol index and server transport: they depend on declarations only, or are lookup tables.
