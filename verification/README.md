# Verification of the Ivy C library's hash table, fifo, option scanner and message buffer

This Dafny project models four components of the Ivy C library and proves what they promise for every input and every
run. `dafny verify dfyconfig.toml` checks it.

**The intrusive hash table of `src/uthash.h`.** An element object is on two doubly linked lists at once: the application
list (`prev`/`next`, with `head` and `tail`) and the chain of its bucket (`hhPrev`/`hhNext`). The class
`UtHash.HashTable` performs the macros' pointer surgery on heap objects and on an array of buckets. Its ghost field
`view` is the table as a value (`TableSpec.Tab`); every method states its new value as a function of the old one, and
`Valid()` ties the value to the pointers, the counters and the bit vector of the Bloom filter. What the value promises
is proved in `TableLaws`, `TableRuns` and `TableGrowth` over arbitrary runs of adds, deletes, expansions and
reorderings. `ListSort` is the in-place mergesort, proved equal to the sort on sequences of `StableSort`. `Jenkins` is
the default hash function on 32-bit words, and `JenkinsNumbers` relates it to numbers. `Bits` shows that the source's
masks and shifts are the divisions and remainders they stand for.

**The growing ring buffer of `src/ivyfifo.c`.** `IvyFifo.IvyFifoBuffer` copies bytes around the end of a heap array and
hands them to a socket that takes as much as it likes; it refines the queue of bytes in `FifoSpec`, where conservation
over every run is proved.

**The option scanner of `tools/getopt.c`.** `GetOpt.Scanner` keeps `optind`, `optarg` and the position inside a word
between calls; it refines the recursive parser over whole argument vectors in `GetOptSpec`, which is the inverse of
printing in both directions.

**The retrying formatter of `src/ivybuffer.c`.** `IvyBuffer.IvyBuffer` appends formatted text to a buffer that is
regrown until the text fits, for three conventions of `vsnprintf`: the needed length is returned (section 7.19.6.12 of
ISO/IEC 9899:1999), -1 is returned, and -1 is returned except that text filling the room exactly is written without its
terminator.

Where the text of the repository and its code disagree, the model follows the code. `doc/NEWS` says that once the fifo
is too big, new messages are lost until the slow client has consumed all its buffered messages. The code needs less: a
fifo that refuses takes a message again, after n bytes have been drained, if and only if n > 0 and the message fits the
buffer, or the message makes the buffer grow (`FifoSpec.RefusalEnds`; src/ivyfifo.c:98-103, 173-175). One drained byte
can be enough with another still held (`FifoSpec.OneByteIsEnough`), though not for a message of the maximum size or
more. `FifoSpec.FlagHistory` says for every run whether the fifo refuses at its end.

Three more properties that one might expect do not hold of the code, and the exact condition is proved instead.

- An empty fifo does not always take a message that fits its buffer: one oversized write to an empty fifo makes it
  refuse, and nothing can be drained from it (`FifoSpec.EmptyAndFull`). An empty fifo takes such a message if and only if
  the flag is not set (`FifoSpec.EmptyFifoAccepts`).
- Doubling the buckets does not always leave `HASH_FIND` alone: chains come out reversed, so the answer for a key stays
  the same if and only if the table holds at most one element under it (`TableRuns.ExpandKeepsFind`). Ten adds under one
  key show it: the ninth element is found after nine, the first after ten (`TableRuns.RepeatedKeyRun`).
- A send that fails is not neutral: its result -1 is drained, which moves the read pointer one place back. With n bytes
  held, m of them before the end of the buffer, the fifo afterwards holds just the bytes that the socket did not take if
  and only if the socket does not fail in the next call, nor, when that takes all of the m bytes and m < n, in the one
  after (`FifoSpec.Willing`, `IvyFifo.IvyFifoBuffer.SendSocket`). After a failure the byte before the contents is held
  again: of two bytes [a, b], with a socket that takes one, fails and takes the rest, a goes out twice
  (`IvyFifo.SentTwice`). A ring full to its last byte looks empty and all of it is lost (`IvyFifo.AllLost`), and a read
  pointer at the start leaves the buffer. So over any program of calls the bytes are conserved if and only if the socket
  failed in none of the calls made of it (`IvyFifo.IvyFifoBuffer.Play`).

## Model

| member | source | states |
|---|---|---|
| TableRuns.LoadBound | src/uthash.h:650-751 | Over every run of adds, deletes and sorts from the empty table: the ideal chain length never exceeds 10; as long as expansion is not given up the table holds at most 19 items per bucket and every chain is within 10 times its multiplier plus one; expansion is given up exactly when ineff_expands is 2 |
| TableGrowth.GivenUp | src/uthash.h:744-748 | Over every run from no table: expansion is given up if and only if two doublings in a row each left more than half of the items beyond the ceiling of items over buckets in their chain; as long as no two did, the table holds at most 19 items per bucket; the number of buckets is 32 doubled once per doubling |
| TableGrowth.ExpansionTrigger | src/uthash.h:650-661 | An add doubles the buckets if and only if the chain of the element, with it, comes to 10 times the multiplier of its bucket plus one and expansion was not given up; otherwise the element is at the front of its chain and the other chains, the multipliers and all figures are as they were |
| TableGrowth.DelFigures | src/uthash.h:192-225 | A delete of the last item leaves no table; any other leaves all other chains, the multipliers, the figures and the filter as they were |
| TableGrowth.NewTable | src/uthash.h:128-145 | A new table has 32 empty buckets, no multiplier and zero figures |
| TableRuns.FindRefinesMap | src/uthash.h:82-93 | With distinct keys, a lookup after any history is the lookup in the finite map of that history: the element last added and not deleted under the key, else none, with or without the Bloom filter, through every doubling |
| TableRuns.FindLaw | src/uthash.h:112-119 | On every valid table the Bloom filter changes no answer, the answer is an item of the table with the key, and there is none only if no item has the key |
| TableRuns.ExpandKeepsFind | src/uthash.h:720-739 | Without the distinct-key rule: an expansion leaves the answer for a key unchanged if and only if at most one item has that key |
| TableRuns.RepeatedKeyRun | src/uthash.h:650-661 | Ten elements added to no table under one key, whatever its hash value: the ninth is found after nine adds and the first after the tenth, which triggers the expansion |
| TableRuns.OrderRefinesSequence | src/uthash.h:150-173 | Over every run the application list is the sequence of the history: adds append, deletes take out that one position, expansions on the way change nothing |
| UtHash.HashTable.Play | src/uthash.h:249-299 | On the heap: every program of adds, deletes and sorts in which an added element is not in the table and a deleted one is keeps both lists linked both ways, every stored count and the tail right, so that HASH_FSCK after each call is content; and it is the legal run of these very operations on the value of the table, a sort being the stable sort, so the theorems on runs hold of it |
| TableRuns.Run | src/uthash.h:276-279 | On the value: every legal run ends with both structures holding the same elements once, each in its own bucket, and chain lengths that add up to the item count |
| TableRuns.ExpandFigures | src/uthash.h:716-748 | Right after a doubling: the ideal length is the ceiling of items over buckets though computed by shift and mask, each multiplier is the integer quotient of count by ideal length where the count exceeds it and else 0, nonideal_items is the sum over the buckets of what each holds above the ideal length, no item is lost, ineff_expands goes up by one if more than half of the items are nonideal and else becomes 0, and from 2 on noexpand is 1 |
| TableRuns.ExpandSpreads | src/uthash.h:716-731 | A doubling that starts with at most 20 items per old bucket ends with ideal length at most 10, every chain within its allowance, and allowances that add up to the bucket count |
| TableLaws.RehashAt | src/uthash.h:720-739 | New chain j is the reverse of the subsequence that belongs there of the one old chain j or j - n; no other old chain contributes |
| TableLaws.RehashTotal | src/uthash.h:720-739 | An expansion conserves the number of items |
| TableLaws.ExpandKeepsPartition | src/uthash.h:705-751 | An expansion keeps the invariant: same items, each once, in the bucket that the doubled mask selects, and the filter still covers them |
| TableLaws.AddKeepsWF | src/uthash.h:150-173 | An add, with or without the doubling it triggers, keeps the invariant and appends to the application list |
| TableLaws.DelKeepsWF | src/uthash.h:192-225 | A delete of any element, the sole one included, keeps the invariant and removes that element only |
| TableLaws.ReorderKeepsWF | src/uthash.h:758-835 | Any rearrangement of the application list keeps the invariant of the table |
| Bits.BktIsMod | src/uthash.h:175-178 | In a table of 2^k buckets an item is in the bucket of its hash value modulo 2^k |
| Bits.BktSplit | src/uthash.h:175-178 | Doubling the bucket count sends an item of bucket b to bucket b or to bucket b plus the old count |
| Bits.IdealIsCeiling | src/uthash.h:716-718 | The shift-and-mask expression is the least k with n <= k buckets |
| UtHash.HashTable.constructor | src/uthash.h:156-156 | A null head is the empty table |
| UtHash.HashTable.Add | src/uthash.h:150-173 | On the heap: the element is linked at the end of the application list and at the front of its chain, counted and entered in the filter; the first element makes the table; the new state is the value the add denotes and is valid; num_buckets doubles if and only if the count of the bucket, with the element, is at least 10 times its multiplier plus one and expansion was not given up, and else the figures stay |
| UtHash.HashTable.Delete | src/uthash.h:192-225 | On the heap: exactly that element leaves both lists, with head, tail and bucket front repaired, and the last one takes the table with it; the new state is valid and is the value the delete denotes; the buckets' number and the figures stay |
| UtHash.HashTable.Find | src/uthash.h:82-93 | Returns null exactly when no element has the key, and otherwise an element of the table with the key: the first in its bucket |
| UtHash.HashTable.FindInBkt | src/uthash.h:636-647 | Returns the first element of the chain with the key, null if there is none |
| UtHash.HashTable.AddToBkt | src/uthash.h:650-661 | The element becomes the front of its chain and a chain that reaches its allowance makes the table expand unless expansion was given up |
| UtHash.HashTable.ExpandBuckets | src/uthash.h:705-751 | The in-place move of every element to a new array yields exactly the doubled table, linked both ways, with the counters and the judgement of the expansion: ineffective if twice nonideal_items exceeds the items, given up at the second in a row |
| BucketHeap.MoveChains | src/uthash.h:719-739 | The two nested loops: afterwards the new buckets hold the reversed chains with counts and multipliers, and nonideal_items is the sum over the buckets of what each holds above the ideal length |
| BucketHeap.RemoveBkt | src/uthash.h:664-674 | Unlinking any position of a chain leaves that chain without it and every other chain as it was |
| UtHash.HashTable.BloomAdd | src/uthash.h:112-116 | Sets the bit of the hash value and no other |
| UtHash.HashTable.BloomTest | src/uthash.h:118-125 | Tells whether the bit of the hash value is set; always true without a filter |
| TableLaws.BloomBitIsMod | src/uthash.h:115-119 | The filter bit of a hash value is its remainder by the size of the filter |
| Bloom.BitPlace | src/uthash.h:112-113 | Index i of the filter is the bit worth 2^(i mod 8) of byte i / 8 |
| Bloom.SetThenTest | src/uthash.h:112-113 | In the byte vector, setting a bit and testing any bit agree as for a set of indices |
| UtHash.HashTable.MakeTable | src/uthash.h:128-145 | The new table has 32 empty buckets, zero counters and an empty filter |
| UtHash.HashTable.Fsck | src/uthash.h:249-299 | On any table whose pointers can be followed, valid or not: content exactly when both lists are linked backwards as they are forwards, every bucket count is its chain's length, and both totals are the item count (so a valid table passes, `UtHash.HashTable.ValidIsSound`) |
| UtHash.HashTable.Sort | src/uthash.h:758-835 | The application list becomes its stable sort, head, tail, prev and next exact; chains, counters and filter are untouched; the number of passes is the one of `StableSort.PassCount` |
| ListSort.SortList | src/uthash.h:763-832 | Relinking in place yields the sorted sequence of the same elements, with prev the inverse of next and the right ends |
| ListSort.MergePass | src/uthash.h:768-825 | One pass over the linked list merges neighbouring runs and counts the merges |
| StableSort.SortCorrect | src/uthash.h:758-835 | For every total preorder: the result is sorted, is a permutation, and keeps equivalent elements in their order |
| StableSort.StableSortUnique | src/uthash.h:758-835 | Those three properties leave one possible result |
| StableSort.RunsAfterPass | src/uthash.h:767-832 | After pass n every aligned run of 2^n elements is sorted, and the sort is the last of its passes |
| StableSort.PassCount | src/uthash.h:826-831 | The number of passes over n elements is the least p >= 1 with n <= 2^p, that is max(1, ceil(log2 n)) |
| UtHash.HashTable.DeleteWhere | src/uthash.h:895-897 | An iteration whose body may delete the current element visits every element of the starting table once, in application order, ends, leaves exactly the elements not deleted, and leaves a null head if and only if all are |
| Jenkins.MixBijective | src/uthash.h:374-385 | The mixer is a bijection on triples of 32-bit words |
| JenkinsNumbers.MixOnNumbers | src/uthash.h:374-385 | On the numbers that its words stand for, the mixer computes nine lines, each two differences modulo 2^32 and an exclusive or with a neighbour divided by 2^13, multiplied by 2^8, and so on with 13, 12, 16, 5, 3, 10, 15 |
| JenkinsNumbers.SubValue | src/uthash.h:376-384 | Subtraction of words is subtraction of numbers modulo 2^32 |
| Jenkins.WordInjective | src/uthash.h:395-403 | A word put together from four sign-extended chars determines all four |
| Jenkins.BlockInjective | src/uthash.h:394-409 | One block step is injective in its 12 chars and in the triple it starts from |
| Jenkins.TailInjective | src/uthash.h:410-424 | So is the last step, in its 0 to 11 chars |
| Jenkins.KeysSeparate | src/uthash.h:387-426 | Keys of equal length, however long, that differ in exactly one 12-char block or only in the tail end with different internal triples |
| Jenkins.MaskIsBkt | src/uthash.h:425-425 | As numbers, the masked hash word is the bucket index that the table computes for the hash value; `Jenkins.ValueInjective` shows that words and numbers correspond |
| Jenkins.HashJen | src/uthash.h:387-426 | The block loop and the fall-through switch compute the hash value of that triple, which makes a hash function for the table, and the bucket index the table uses for it |
| JenkinsNumbers.KnownHashes | src/uthash.h:387-426 | The hash values of four keys: the empty one, "A", the longest without a block, and one with a block and a tail of negative chars; they fix the start words, the byte order, the sign extension and the place of the key length |
| FifoSpec.Conservation | src/ivyfifo.c:85-176 | Over every run of writes, reads and sends from a new fifo: the accepted bytes are the emitted bytes followed by the bytes still held, in order, each once; the buffer size stays a multiple of 262144 within 262144 and 33554432 and is never quite filled |
| FifoSpec.NewFifo | src/ivyfifo.c:85-124 | A new fifo has a buffer of 262144 bytes and takes a message if and only if it is below 33554432 bytes, in a buffer of the least multiple of 262144 above its length |
| FifoSpec.RunAccepts | src/ivyfifo.c:107-114 | After every run from a new fifo: one that does not refuse takes a message if and only if the total stays below 33554432 bytes; one that refuses if, besides, it does not fit the present buffer |
| FifoSpec.RunConserves | src/ivyfifo.c:85-176 | The same from any state |
| FifoSpec.WriteExact | src/ivyfifo.c:85-124 | A write is taken whole if and only if the total fits and the fifo does not refuse, or the total needs a bigger buffer and stays below 33554432; otherwise contents and buffer size stay; afterwards the fifo refuses if and only if the write was not taken; a buffer that grows is the least multiple of 262144 above the total |
| FifoSpec.EmptyFifoAccepts | src/ivyfifo.c:107-114 | An empty fifo takes a non-empty write that fits its buffer if and only if the flag is not set |
| FifoSpec.EmptyAndFull | src/ivyfifo.c:89-90 | A concrete run after which an empty fifo refuses a single byte |
| FifoSpec.RefusalEnds | src/ivyfifo.c:168-176 | When a full fifo takes messages again: after n drained bytes, exactly when n > 0 and the message fits the buffer, or it makes the buffer grow within the maximum |
| FifoSpec.OneByteIsEnough | src/ivyfifo.c:173-175 | A concrete run: a refused byte goes in after one byte has left, while another is still held |
| FifoSpec.FlagHistory | src/ivyfifo.c:85-176 | Over every run, whether the fifo refuses, how much it holds and how big its buffer is follow from the sizes of the calls alone: a write that does not fit sets the flag, one that fits or a non-empty read or send clears it |
| IvyFifo.IvyFifoBuffer.constructor | src/ivyfifo.c:29-39 | A new fifo is empty, of the least size, not refusing |
| IvyFifo.IvyFifoBuffer.Length | src/ivyfifo.c:67-73 | The pointer difference, corrected for the wrap, is the number of bytes held |
| IvyFifo.IvyFifoBuffer.Avail | src/ivyfifo.c:75-78 | The room is positive: equal pointers mean empty |
| IvyFifo.IvyFifoBuffer.Write | src/ivyfifo.c:107-124 | The copy loop around the end of the buffer appends the data, all or nothing: exactly when the total fits and the fifo does not refuse, or it needs a bigger buffer and stays below 33554432; a refused write leaves buffer, bytes and both pointers as they were |
| IvyFifo.IvyFifoBuffer.Realloc | src/ivyfifo.c:85-105 | Below 33554432 the buffer ends up bigger than the request, with the same bytes, and is new only if it had to be, a multiple of 262144 with the flag clear; a bigger request sets the flag and leaves buffer, bytes and both pointers as they were |
| IvyFifo.IvyFifoBuffer.Read | src/ivyfifo.c:127-144 | The destination receives the oldest bytes, as many as asked for and available, the rest of it is untouched, and those bytes leave the fifo |
| IvyFifo.IvyFifoBuffer.Drain | src/ivyfifo.c:168-176 | The oldest bytes leave, across the wrap, and the flag is cleared if any did; draining -1 moves the read pointer back instead |
| IvyFifo.IvyFifoBuffer.SendSocket | src/ivyfifo.c:147-164 | What the socket is ready to take in its next two calls determines how many bytes it gets, in one call or two, and whether one fails; it gets a prefix of the contents, and exactly that leaves the fifo if and only if it is willing in the calls made of it; then the result is the number of bytes left, non-zero only after a short send; the effect of a failure is stated too |
| FifoSpec.OutcomeLaw | src/ivyfifo.c:151-161 | For any sizes and any socket: at most two calls, failure exactly when the condition known beforehand does not hold, and bytes left behind without a failure only after a short call |
| IvyFifo.SentTwice | src/ivyfifo.c:154-158 | A concrete run in which a failed send makes a byte go out twice |
| IvyFifo.AllLost | src/ivyfifo.c:154-158 | A send that fails at once on a ring full to its last byte, with the read pointer not at the start, loses all of it |
| IvyFifo.IvyFifoBuffer.Play | src/ivyfifo.c:80-176 | On the heap, for every program of writes, reads and sends up to the first failed send: what was held and what was taken is what was handed on followed by the contents, if and only if the socket failed in no call; without a failure the fifo goes through the run of these calls on values |
| IvyFifo.OneBack | src/ivyfifo.c:154-158 | What a failed send does to any ring whose read pointer is not at the start: the byte before the contents joins them, or a ring full to the last byte looks empty; never are the contents what they were |
| GetOpt.Scanner.All | tools/getopt.c:8-76 | Called until EOF, the scanner ends with exactly the results and the final optind of the parser of whole vectors |
| GetOpt.Scanner.Next | tools/getopt.c:8-76 | Each call but EOF yields the first of the results to come, leaves the others to come, and moves (optind, position) forward; EOF comes when none are left and changes nothing; no character beyond a word's terminator is looked at |
| GetOpt.Scanner.TakeArgument | tools/getopt.c:51-67 | The argument is the rest of the word, else the next word, else it is missing |
| GetOptSpec.ArityAt | tools/getopt.c:32-51 | A character other than the colon, first found at position k of optstring, takes an argument if and only if a colon follows there, and is a flag otherwise |
| GetOptSpec.RoundTrip | tools/getopt.c:28-75 | Any list of flag clusters and options with attached or separate arguments (flags and options being told by the colons of optstring), printed and followed by nothing, an operand, `-` or `--`, parses back to its meaning and stops at the operand; so how options are spread over words does not matter (`GetOptSpec.SpreadingIsFree`) |
| GetOptSpec.StopAt | tools/getopt.c:19-23 | Parsing uses up no word if and only if there is none or the first is empty, does not start with a dash, or is `-` or `--` |
| GetOptSpec.WordOfLetters | tools/getopt.c:31-45 | A word of flags and unknown letters gives one result per letter, `?` for each unknown one with optarg as it was, and the scan goes on with the next letter and then the next word |
| GetOptSpec.MissingArgument | tools/getopt.c:56-61 | An option whose argument is missing at the end of the vector gives `?` without an argument and uses up its word |
| GetOptSpec.ProbeArguments | tools/ivyprobe.c:380-380 | With the optstring of ivyprobe: `-v -b 10:2010 hello` and `-svb10:2010 hello` give the flags, the option with its argument, and stop at the operand |
| GetOptSpec.ProbeMistakes | tools/ivyprobe.c:380-380 | With the optstring of ivyprobe: `-xs` gives `?` and s, `-b` alone gives `?` |
| GetOptSpec.EveryCleanParseIsPrinted | tools/getopt.c:28-75 | The other way: whenever no call returns `?`, the words used up are the print of a list of groups that means the results |
| GetOptSpec.ClusterOfFlags | tools/getopt.c:69-73 | `-abc` and `-a -b -c` give the same results, for any flags but a dash |
| IvyBuffer.IvyBuffer.MakeMessage | src/ivybuffer.c:34-78 | For every text, buffer and convention: it ends with the text once behind what was there, the offset moved by its length and below the size, and a terminator at the offset; its return value is the length, and a first buffer has 4096 bytes to start with |
| IvyBuffer.GrowthBounds | src/ivybuffer.c:62-71 | With ISO C99 there are one or two calls of vsnprintf and the buffer ends with the size it had or just what is needed; with -1 every retry doubles it, no more often than needed, and when a buffer is filled exactly without terminator it ends with one byte more; every retry is with a strictly bigger buffer (`IvyBuffer.Regrown`); in any case it ends with its size, just the need, or at most twice what the text and the bytes before it take |

## Left out

- HASH_SELECT, HASH_CLEAR, HASH_COUNT and the convenience forms of add, find and delete: HASH_SELECT does not maintain the destination's tail or filter, so the invariant is not one of its promises.
- The other hash functions (HASH_BER, HASH_SAX, HASH_FNV, HASH_OAT, HASH_SFH, HASH_MUR): the table proofs hold for an arbitrary function of the key.
- Allocation failure and free.
- FifoSpec.Conservation and the other theorems over runs of values: a send is one in which no call fails. `IvyFifo.IvyFifoBuffer.Play` covers sends that fail, up to the first: what later calls do with the pointer moved back is not followed further.
- Wrap-around of counters and sizes: integers are mathematical except in HASH_JEN, so item counts, bucket counts and size plus length are taken to stay below 2^32.
- HASH_FUNCTION and HASH_BLOOM are compile-time macros in the source; here the hash function, the presence of the filter and its width are parameters of the constructor.
- Handle offsets (hho), the tbl pointer of each element, signatures, key emission and the type casts: an element and its handle are one object, and the table structure is merged with the application's head pointer. A key is its bytes, copied into the handle rather than pointed to.
- The comparison function of HASH_SRT and the deletion test of an iteration are pure functions of an element's identity, key and hash value.
- In the theorems over runs a sort may be any rearrangement of the application list, of which HASH_SRT makes one.
- UtHash.HashTable.Fsck: returns a verdict where the source prints a message and exits at the first fault; a table whose forward pointers run in a circle is not covered, since the source then need not end.
- Jenkins.HashJen: plain char is taken to be signed, as sign extension is the harder case, and keys are shorter than 2^32 bytes, as keylen is an unsigned.
- IvyFifoGenericRead with a callback, and IvyFifoNew, IvyFifoFree, IvyFifoDelete and IvyFifoIsFull.
- IvyFifo.IvyFifoBuffer.SendSocket: the socket is a function from the number of the call to the most it takes or to failure; what reading in front of the buffer would yield after a failed send at its start is not modelled, since the C language gives it no meaning.
- GetOpt.Scanner.All: argument words hold no NUL and are the same in every call; the vector is not rewritten between calls.
- printf directives and va_list: the text that vsnprintf produces is an arbitrary sequence of bytes, the same in every attempt; failing allocations and make_message_var are not modelled.
- The bus, the sockets, the timers and the regular expressions of the library.
